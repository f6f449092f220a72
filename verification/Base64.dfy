/** Unpadded standard base64 (section 4 of RFC 4648, without the padding of section 3.2). */
module Base64 {
  import opened Wrappers

  predicate IsBytes(b: seq<int>) { forall i :: 0 <= i < |b| ==> 0 <= b[i] < 256 }

  predicate IsSextets(vs: seq<int>) { forall i :: 0 <= i < |vs| ==> 0 <= vs[i] < 64 }

  function EncodeSextet(v: int): char
    requires 0 <= v < 64
  {
    if v < 26 then ('A' as int + v) as char
    else if v < 52 then ('a' as int + v - 26) as char
    else if v < 62 then ('0' as int + v - 52) as char
    else if v == 62 then '+'
    else '/'
  }

  function DecodeSextet(c: char): Option<int> {
    if 'A' <= c <= 'Z' then Some(c as int - 'A' as int)
    else if 'a' <= c <= 'z' then Some(c as int - 'a' as int + 26)
    else if '0' <= c <= '9' then Some(c as int - '0' as int + 52)
    else if c == '+' then Some(62)
    else if c == '/' then Some(63)
    else None
  }

  /** The sextets a byte string is written with. */
  function SextetsOf(b: seq<int>): seq<int> {
    if b == [] then []
    else if |b| == 1 then [b[0] / 4, b[0] % 4 * 16]
    else if |b| == 2 then [b[0] / 4, b[0] % 4 * 16 + b[1] / 16, b[1] % 16 * 4]
    else [b[0] / 4, b[0] % 4 * 16 + b[1] / 16, b[1] % 16 * 4 + b[2] / 64, b[2] % 64] + SextetsOf(b[3..])
  }

  lemma {:induction false} SextetsInRange(b: seq<int>)
    requires IsBytes(b)
    ensures IsSextets(SextetsOf(b))
  {
    if |b| >= 3 {
      SextetsInRange(b[3..]);
    }
  }

  function EncodeAll(vs: seq<int>): string
    requires IsSextets(vs)
  {
    if vs == [] then "" else [EncodeSextet(vs[0])] + EncodeAll(vs[1..])
  }

  function EncodeToString(b: seq<int>): string
    requires IsBytes(b)
  {
    SextetsInRange(b);
    EncodeAll(SextetsOf(b))
  }

  function Sextets(s: string): Option<seq<int>> {
    if s == "" then Some([]) else
      match (DecodeSextet(s[0]), Sextets(s[1..]))
      case (Some(v), Some(vs)) => Some([v] + vs)
      case _ => None
  }

  /** The bytes in groups of four sextets; the bits left over at the end are ignored. */
  function BytesOf(vs: seq<int>): Option<seq<int>> {
    if vs == [] then Some([])
    else if |vs| == 1 then None
    else
      var b0 := vs[0] * 4 + vs[1] / 16;
      if |vs| == 2 then Some([b0]) else
        var b1 := vs[1] % 16 * 16 + vs[2] / 4;
        if |vs| == 3 then Some([b0, b1]) else
          match BytesOf(vs[4..])
          case None => None
          case Some(rest) => Some([b0, b1, vs[2] % 4 * 64 + vs[3]] + rest)
  }

  /** Line breaks are skipped wherever they stand. */
  function WithoutBreaks(s: string): string {
    if s == "" then "" else (if s[0] == '\r' || s[0] == '\n' then "" else [s[0]]) + WithoutBreaks(s[1..])
  }

  function DecodeString(s: string): Option<seq<int>> {
    match Sextets(WithoutBreaks(s))
    case None => None
    case Some(vs) => BytesOf(vs)
  }

  lemma SextetRoundTrip(v: int)
    requires 0 <= v < 64
    ensures DecodeSextet(EncodeSextet(v)) == Some(v)
  {
  }

  lemma {:induction false} SextetsOfEncoded(vs: seq<int>)
    requires IsSextets(vs)
    ensures Sextets(EncodeAll(vs)) == Some(vs)
  {
    if vs != [] {
      SextetRoundTrip(vs[0]);
      SextetsOfEncoded(vs[1..]);
      assert EncodeAll(vs)[1..] == EncodeAll(vs[1..]);
      assert [vs[0]] + vs[1..] == vs;
    }
  }

  lemma ThreeBytes(x: int, y: int, z: int)
    requires 0 <= x < 256 && 0 <= y < 256 && 0 <= z < 256
    ensures x / 4 * 4 + (x % 4 * 16 + y / 16) / 16 == x
    ensures (x % 4 * 16 + y / 16) % 16 * 16 + (y % 16 * 4 + z / 64) / 4 == y
    ensures (y % 16 * 4 + z / 64) % 4 * 64 + z % 64 == z
  {
  }

  lemma BytesOfOneGroup(x: int, y: int, z: int, rest: seq<int>)
    requires 0 <= x < 256 && 0 <= y < 256 && 0 <= z < 256
    ensures var r := BytesOf([x / 4, x % 4 * 16 + y / 16, y % 16 * 4 + z / 64, z % 64] + rest);
            r == match BytesOf(rest) case None => None case Some(bs) => Some([x, y, z] + bs)
  {
    ThreeBytes(x, y, z);
    var vs := [x / 4, x % 4 * 16 + y / 16, y % 16 * 4 + z / 64, z % 64] + rest;
    assert vs[4..] == rest;
  }

  lemma BytesOfLastGroup(x: int, y: int)
    requires 0 <= x < 256 && 0 <= y < 256
    ensures BytesOf([x / 4, x % 4 * 16]) == Some([x])
    ensures BytesOf([x / 4, x % 4 * 16 + y / 16, y % 16 * 4]) == Some([x, y])
  {
    ThreeBytes(x, 0, 0);
    ThreeBytes(x, y, 0);
  }

  lemma {:induction false} BytesOfSextets(b: seq<int>)
    requires IsBytes(b)
    ensures BytesOf(SextetsOf(b)) == Some(b)
  {
    if |b| == 1 {
      BytesOfLastGroup(b[0], 0);
      assert b == [b[0]];
    } else if |b| == 2 {
      BytesOfLastGroup(b[0], b[1]);
      assert b == [b[0], b[1]];
    } else if |b| >= 3 {
      BytesOfSextets(b[3..]);
      BytesOfOneGroup(b[0], b[1], b[2], SextetsOf(b[3..]));
      assert [b[0], b[1], b[2]] + b[3..] == b;
    }
  }

  predicate IsBase64Char(c: char) { DecodeSextet(c).Some? }

  lemma {:induction false} EncodedChars(vs: seq<int>)
    requires IsSextets(vs)
    ensures forall c :: c in EncodeAll(vs) ==> IsBase64Char(c)
  {
    if vs != [] {
      SextetRoundTrip(vs[0]);
      EncodedChars(vs[1..]);
    }
  }

  lemma {:induction false} NoBreaksToDrop(s: string)
    requires forall c :: c in s ==> IsBase64Char(c)
    ensures WithoutBreaks(s) == s
  {
    if s != "" {
      assert IsBase64Char(s[0]);
      NoBreaksToDrop(s[1..]);
      assert [s[0]] + s[1..] == s;
    }
  }

  /** Every byte string comes back from its encoding, which stays within the alphabet. */
  lemma Base64RoundTrip(b: seq<int>)
    requires IsBytes(b)
    ensures DecodeString(EncodeToString(b)) == Some(b)
    ensures forall c :: c in EncodeToString(b) ==> IsBase64Char(c)
  {
    SextetsInRange(b);
    EncodedChars(SextetsOf(b));
    NoBreaksToDrop(EncodeToString(b));
    SextetsOfEncoded(SextetsOf(b));
    BytesOfSextets(b);
  }

  // ---------- The encoding is that of RFC 4648 ----------

  /** Read as numbers, four sextets are three bytes, group by group; one or two bytes at the end have zero bits behind them. */
  lemma GroupsAreNumbers(b: seq<int>)
    requires IsBytes(b)
    ensures var vs := SextetsOf(b);
            && (|b| == 1 ==> |vs| == 2 && vs[0] * 64 + vs[1] == b[0] * 16)
            && (|b| == 2 ==> |vs| == 3 && (vs[0] * 64 + vs[1]) * 64 + vs[2] == (b[0] * 256 + b[1]) * 4)
            && (|b| >= 3 ==> |vs| >= 4 && vs[4..] == SextetsOf(b[3..])
                             && ((vs[0] * 64 + vs[1]) * 64 + vs[2]) * 64 + vs[3] == (b[0] * 256 + b[1]) * 256 + b[2])
  {
  }

  /** The alphabet: capital letters, small letters, digits, plus and slash, each in its order. */
  lemma AlphabetIsStandard(v: int)
    requires 0 <= v < 63
    ensures EncodeSextet(0) == 'A' && EncodeSextet(26) == 'a' && EncodeSextet(52) == '0'
    ensures EncodeSextet(62) == '+' && EncodeSextet(63) == '/'
    ensures v + 1 !in {26, 52, 62, 63} ==> EncodeSextet(v + 1) as int == EncodeSextet(v) as int + 1
  {
  }
}
