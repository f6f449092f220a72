/**
 The string operations the repository takes from Go's `strings` package.
 Where the original works on bytes, a `char` stands for a byte; elsewhere it is a Unicode scalar value.
 */
module Text {
  import opened Wrappers

  // ---------- Characters ----------

  predicate IsDigit(c: char) { '0' <= c <= '9' }

  predicate IsLower(c: char) { 'a' <= c <= 'z' }

  predicate IsUpper(c: char) { 'A' <= c <= 'Z' }

  predicate IsLetter(c: char) { IsLower(c) || IsUpper(c) }

  predicate IsHex(c: char) { IsDigit(c) || 'a' <= c <= 'f' || 'A' <= c <= 'F' }

  function HexValue(c: char): (v: nat)
    requires IsHex(c)
    ensures v < 16
  {
    if IsDigit(c) then c as int - '0' as int
    else if 'a' <= c <= 'f' then c as int - 'a' as int + 10
    else c as int - 'A' as int + 10
  }

  /** unicode.IsSpace. */
  predicate IsSpace(c: char) {
    var n := c as int;
    9 <= n <= 13 || n == 0x20 || n == 0x85 || n == 0xA0 || n == 0x1680 || 0x2000 <= n <= 0x200A
    || n == 0x2028 || n == 0x2029 || n == 0x202F || n == 0x205F || n == 0x3000
  }

  /** unicode.ToLower wherever the result is ASCII: besides A..Z, only the Kelvin sign and the dotted
      capital I have an ASCII lower case. */
  function LowerChar(c: char): char {
    if IsUpper(c) then (c as int + 32) as char
    else if c as int == 0x212A then 'k'
    else if c as int == 0x130 then 'i'
    else c
  }

  /** The representative of a character under simple case folding, for folding with ASCII characters. */
  function FoldChar(c: char): char {
    if IsUpper(c) then (c as int + 32) as char
    else if c as int == 0x212A then 'k'
    else if c as int == 0x17F then 's'
    else c
  }

  function MapChars(f: char -> char, s: string): (r: string)
    ensures |r| == |s| && forall i :: 0 <= i < |s| ==> r[i] == f(s[i])
  {
    seq(|s|, i requires 0 <= i < |s| => f(s[i]))
  }

  function ToLower(s: string): string { MapChars(LowerChar, s) }

  predicate EqualFold(s: string, t: string) { MapChars(FoldChar, s) == MapChars(FoldChar, t) }

  // ---------- Substrings ----------

  predicate HasPrefix(s: string, p: string) { p <= s }

  predicate HasSuffix(s: string, p: string) { |p| <= |s| && s[|s| - |p|..] == p }

  /** `p` occurs in `s` at position `i`. */
  predicate At(s: string, p: string, i: int) { 0 <= i <= |s| - |p| && s[i..i + |p|] == p }

  lemma AtChars(s: string, p: string, i: int)
    ensures At(s, p, i) ==> forall j :: i <= j < i + |p| ==> s[j] == p[j - i]
  {
    if At(s, p, i) {
      assert forall j :: i <= j < i + |p| ==> s[i..i + |p|][j - i] == s[j];
    }
  }

  /** strings.Index, searching from position `from`. */
  function IndexFrom(s: string, p: string, from: nat): (r: Option<nat>)
    requires from <= |s|
    ensures r.Some? ==> r.value <= |s|
    decreases |s| - from
  {
    if At(s, p, from) then Some(from) else if from == |s| then None else IndexFrom(s, p, from + 1)
  }

  /** It is the first occurrence, if there is one. */
  lemma {:induction false} IndexFromIsFirst(s: string, p: string, from: nat)
    requires from <= |s|
    ensures match IndexFrom(s, p, from)
            case Some(i) => from <= i && At(s, p, i) && forall j :: from <= j < i ==> !At(s, p, j)
            case None => forall j :: from <= j <= |s| ==> !At(s, p, j)
    decreases |s| - from
  {
    if !At(s, p, from) && from < |s| {
      IndexFromIsFirst(s, p, from + 1);
    }
  }

  function Index(s: string, p: string): Option<nat> { IndexFrom(s, p, 0) }

  predicate Contains(s: string, p: string) { Index(s, p).Some? }

  lemma ContainsMeans(s: string, p: string)
    ensures Contains(s, p) <==> exists i :: At(s, p, i)
  {
    IndexFromIsFirst(s, p, 0);
  }

  lemma ContainsChar(s: string, c: char)
    ensures Contains(s, [c]) <==> c in s
  {
    ContainsMeans(s, [c]);
    if c in s {
      var i :| 0 <= i < |s| && s[i] == c;
      assert At(s, [c], i);
    }
    if Contains(s, [c]) {
      var i :| At(s, [c], i);
      assert s[i] == s[i..i + 1][0] == c;
    }
  }

  /** The part of `s` before the first occurrence of `p`; all of `s` when there is none. */
  function Before(s: string, p: string): (r: string)
    ensures r <= s
  {
    match Index(s, p)
    case Some(i) => s[..i]
    case None => s
  }

  // ---------- Trimming and fields ----------

  function TrimLeft(s: string): (r: string)
    ensures |r| <= |s|
  {
    if s != "" && IsSpace(s[0]) then TrimLeft(s[1..]) else s
  }

  function TrimRight(s: string): (r: string)
    ensures |r| <= |s|
  {
    if s != "" && IsSpace(s[|s| - 1]) then TrimRight(s[..|s| - 1]) else s
  }

  function TrimSpace(s: string): string { TrimRight(TrimLeft(s)) }

  predicate Spaces(s: string) { forall i :: 0 <= i < |s| ==> IsSpace(s[i]) }

  predicate NoSpace(s: string) { forall i :: 0 <= i < |s| ==> !IsSpace(s[i]) }

  predicate IsToken(s: string) { s != "" && NoSpace(s) }

  function TokenLen(s: string): (n: nat)
    ensures n <= |s| && (forall i :: 0 <= i < n ==> !IsSpace(s[i])) && (n < |s| ==> IsSpace(s[n]))
  {
    if s == "" || IsSpace(s[0]) then 0 else
      var m := TokenLen(s[1..]);
      assert forall i :: 1 <= i < 1 + m ==> s[i] == s[1..][i - 1];
      1 + m
  }

  /** strings.Fields. */
  function Fields(s: string): (r: seq<string>)
    decreases |s|
  {
    var t := TrimLeft(s);
    if t == "" then [] else
      var n := TokenLen(t);
      [t[..n]] + Fields(t[n..])
  }

  lemma {:induction false} TrimLeftSpaces(ws: string, s: string)
    requires Spaces(ws) && (s != "" ==> !IsSpace(s[0]))
    ensures TrimLeft(ws + s) == s
  {
    if ws == "" {
      assert ws + s == s;
    } else {
      TrimLeftSpaces(ws[1..], s);
      assert (ws + s)[1..] == ws[1..] + s;
    }
  }

  lemma {:induction false} TrimRightSpaces(s: string, ws: string)
    requires Spaces(ws) && (s != "" ==> !IsSpace(s[|s| - 1]))
    ensures TrimRight(s + ws) == s
  {
    if ws == "" {
      assert s + ws == s;
    } else {
      TrimRightSpaces(s, ws[..|ws| - 1]);
      assert (s + ws)[..|s + ws| - 1] == s + ws[..|ws| - 1];
    }
  }

  lemma TrimSpaceOf(ws: string, s: string, ws': string)
    requires Spaces(ws) && Spaces(ws')
    requires s != "" && !IsSpace(s[0]) && !IsSpace(s[|s| - 1])
    ensures TrimSpace(ws + s + ws') == s
  {
    assert ws + s + ws' == ws + (s + ws');
    TrimLeftSpaces(ws, s + ws');
    TrimRightSpaces(s, ws');
  }

  lemma TokenLenOf(token: string, rest: string)
    requires NoSpace(token) && (rest != "" ==> IsSpace(rest[0]))
    ensures TokenLen(token + rest) == |token|
  {
    var t := token + rest;
    var n := TokenLen(t);
    assert forall i :: 0 <= i < |token| ==> t[i] == token[i];
    assert rest != "" ==> t[|token|] == rest[0];
  }

  lemma TrimmedAlready(s: string)
    requires s != "" && !IsSpace(s[0]) && !IsSpace(s[|s| - 1])
    ensures TrimSpace(s) == s
  {
    TrimSpaceOf("", s, "");
    assert "" + s + "" == s;
  }

  lemma MapCharsAppend(f: char -> char, s: string, t: string)
    ensures MapChars(f, s + t) == MapChars(f, s) + MapChars(f, t)
  {
  }

  /** One token, then white space (or the end), then the rest. */
  lemma FieldsStep(ws: string, token: string, rest: string)
    requires Spaces(ws) && IsToken(token)
    requires rest != "" ==> IsSpace(rest[0])
    ensures Fields(ws + token + rest) == [token] + Fields(rest)
  {
    var t := token + rest;
    assert ws + token + rest == ws + t && t[0] == token[0];
    TrimLeftSpaces(ws, t);
    TokenLenOf(token, rest);
    assert t[..|token|] == token && t[|token|..] == rest;
  }

  lemma FieldsOfSpaces(ws: string)
    requires Spaces(ws)
    ensures Fields(ws) == []
  {
    TrimLeftSpaces(ws, "");
    assert ws + "" == ws;
  }

  lemma TokenThen(token: string, rest: string)
    requires IsToken(token) && rest != "" && IsSpace(rest[0])
    ensures Fields(token + rest) == [token] + Fields(rest)
  {
    var t := token + rest;
    assert t[0] == token[0];
    TokenLenOf(token, rest);
    assert t[..|token|] == token && t[|token|..] == rest;
  }

  lemma {:induction false} TrimLeftSkips(ws: string, s: string)
    requires Spaces(ws)
    ensures TrimLeft(ws + s) == TrimLeft(s)
  {
    if ws == "" {
      assert ws + s == s;
    } else {
      TrimLeftSkips(ws[1..], s);
      assert (ws + s)[1..] == ws[1..] + s;
    }
  }

  lemma FieldsSkip(s: string)
    requires s != "" && IsSpace(s[0])
    ensures Fields(s) == Fields(s[1..])
  {
  }

  lemma FirstField(s: string)
    requires s != "" && !IsSpace(s[0])
    ensures TokenLen(s) > 0 && Fields(s) == [s[..TokenLen(s)]] + Fields(s[TokenLen(s)..])
  {
  }

  lemma SplitFront(a: string, n: nat, m: string)
    requires n <= |a|
    ensures a[..n] + (a[n..] + m) == a + m
  {
  }

  lemma TokenInFront(a: string, m: string)
    requires a != "" && !IsSpace(a[0]) && m != "" && IsSpace(m[0])
    ensures Fields(a + m) == [a[..TokenLen(a)]] + Fields(a[TokenLen(a)..] + m)
  {
    var n := TokenLen(a);
    FirstField(a);
    SplitFront(a, n, m);
    TokenThen(a[..n], a[n..] + m);
  }

  lemma ConsAppend(t: string, x: seq<string>, y: seq<string>)
    ensures [t] + (x + y) == ([t] + x) + y
  {
  }

  lemma SpaceAppend(a: string, m: string)
    requires a != "" && IsSpace(a[0]) && Fields(a[1..] + m) == Fields(a[1..]) + Fields(m)
    ensures Fields(a + m) == Fields(a) + Fields(m)
  {
    assert (a + m)[1..] == a[1..] + m && (a + m)[0] == a[0];
    FieldsSkip(a);
    FieldsSkip(a + m);
  }

  lemma TokenAppend(a: string, m: string)
    requires a != "" && !IsSpace(a[0]) && m != "" && IsSpace(m[0])
    requires var b := a[TokenLen(a)..]; Fields(b + m) == Fields(b) + Fields(m)
    ensures Fields(a + m) == Fields(a) + Fields(m)
  {
    var n := TokenLen(a);
    FirstField(a);
    TokenInFront(a, m);
    ConsAppend(a[..n], Fields(a[n..]), Fields(m));
  }

  /** White space separates fields wherever it stands. */
  lemma {:induction false} FieldsAppend(a: string, m: string)
    requires m != "" && IsSpace(m[0])
    ensures Fields(a + m) == Fields(a) + Fields(m)
    decreases |a|
  {
    if a == "" {
      assert a + m == m;
      FieldsOfSpaces(a);
    } else if IsSpace(a[0]) {
      FieldsAppend(a[1..], m);
      SpaceAppend(a, m);
    } else {
      FirstField(a);
      FieldsAppend(a[TokenLen(a)..], m);
      TokenAppend(a, m);
    }
  }

  // ---------- Canonical addresses ----------

  lemma {:induction false} TrimLeftIsTrimmed(s: string)
    ensures var r := TrimLeft(s); (r != "" ==> !IsSpace(r[0])) && forall c :: c in r ==> c in s
  {
    if s != "" && IsSpace(s[0]) {
      TrimLeftIsTrimmed(s[1..]);
    }
  }

  lemma {:induction false} TrimRightIsTrimmed(s: string)
    requires s != "" ==> !IsSpace(s[0])
    ensures var r := TrimRight(s);
            && (r != "" ==> !IsSpace(r[|r| - 1]) && !IsSpace(r[0])) && forall c :: c in r ==> c in s
  {
    if s != "" && IsSpace(s[|s| - 1]) {
      TrimRightIsTrimmed(s[..|s| - 1]);
    }
  }

  /** An address as it is looked up: in lower case, without white space around it. */
  function Canonical(address: string): string { TrimSpace(ToLower(address)) }

  /** Putting an address in this form twice is doing it once. */
  lemma CanonicalIsCanonical(email: string)
    ensures Canonical(Canonical(email)) == Canonical(email)
  {
    var lower := ToLower(email);
    var e := Canonical(email);
    TrimLeftIsTrimmed(lower);
    TrimRightIsTrimmed(TrimLeft(lower));
    forall i | 0 <= i < |e| ensures LowerChar(e[i]) == e[i] {
      assert e[i] in lower;
      var j :| 0 <= j < |lower| && lower[j] == e[i];
      assert lower[j] == LowerChar(email[j]);
    }
    assert ToLower(e) == e;
    if e != "" {
      TrimSpaceOf("", e, "");
      assert "" + e + "" == e;
    }
  }

  /** White space around an address, and its case, do not matter: what is looked up is the text in lower case. */
  lemma CanonicalOf(ws: string, s: string, ws': string)
    requires Spaces(ws) && Spaces(ws') && s != "" && !IsSpace(s[0]) && !IsSpace(s[|s| - 1])
    ensures Canonical(ws + s + ws') == ToLower(s)
    ensures forall i :: 0 <= i < |s| ==> !IsUpper(ToLower(s)[i]) && (!IsUpper(s[i]) && s[i] as int < 128 ==> ToLower(s)[i] == s[i])
  {
    assert ToLower(ws + s + ws') == ToLower(ws) + ToLower(s) + ToLower(ws');
    TrimSpaceOf(ToLower(ws), ToLower(s), ToLower(ws'));
  }

  // ---------- Splitting and joining ----------

  /** Puts a character in front of text already split at `c`. */
  function SplitCons(x: char, c: char, r: seq<string>): (q: seq<string>)
    requires r != []
    ensures q != []
  {
    if x == c then [""] + r else [[x] + r[0]] + r[1..]
  }

  /** strings.Split on a single character. */
  function Split(s: string, c: char): (r: seq<string>)
    ensures r != [] && forall i :: 0 <= i < |r| ==> c !in r[i]
  {
    if s == "" then [""] else SplitCons(s[0], c, Split(s[1..], c))
  }

  function Join(parts: seq<string>, c: char): string {
    if parts == [] then "" else if |parts| == 1 then parts[0] else parts[0] + [c] + Join(parts[1..], c)
  }

  lemma {:induction false} JoinOfSplit(s: string, c: char)
    ensures Join(Split(s, c), c) == s
  {
    if s != "" {
      JoinOfSplit(s[1..], c);
      var r := Split(s[1..], c);
      if s[0] == c {
        assert ([""] + r)[1..] == r;
      } else {
        assert ([[s[0]] + r[0]] + r[1..])[1..] == r[1..];
      }
    }
  }

  lemma {:induction false} SplitPlain(s: string, c: char)
    requires c !in s
    ensures Split(s, c) == [s]
  {
    if s != "" {
      SplitPlain(s[1..], c);
      assert [s[0]] + s[1..] == s;
    }
  }

  lemma SplitConsConcat(x: char, c: char, r: seq<string>, q: seq<string>)
    requires r != []
    ensures SplitCons(x, c, r + q) == SplitCons(x, c, r) + q
  {
    assert (r + q)[1..] == r[1..] + q;
  }

  lemma {:induction false} SplitConcat(s: string, t: string, c: char)
    ensures Split(s + [c] + t, c) == Split(s, c) + Split(t, c)
  {
    var u := s + [c] + t;
    if s == "" {
      assert u[0] == c && u[1..] == t;
    } else {
      SplitConcat(s[1..], t, c);
      assert u[0] == s[0] && u[1..] == s[1..] + [c] + t;
      SplitConsConcat(s[0], c, Split(s[1..], c), Split(t, c));
    }
  }

  lemma OnePartMore(s: string, parts: seq<string>, a: string, c: char)
    requires Split(s, c) == parts && c !in a
    ensures Split(s + [c] + a, c) == parts + [a]
  {
    SplitPlain(a, c);
    SplitConcat(s, a, c);
  }

  /** Text with exactly one separator splits in two. */
  lemma SplitPair(s: string, i: nat, c: char)
    requires i < |s| && s[i] == c
    requires forall j :: 0 <= j < |s| && j != i ==> s[j] != c
    ensures Split(s, c) == [s[..i], s[i + 1..]]
  {
    assert s == s[..i] + [c] + s[i + 1..];
    SplitConcat(s[..i], s[i + 1..], c);
    SplitPlain(s[..i], c);
    SplitPlain(s[i + 1..], c);
  }

  lemma {:induction false} SplitOfJoin(parts: seq<string>, c: char)
    requires parts != [] && forall i :: 0 <= i < |parts| ==> c !in parts[i]
    ensures Split(Join(parts, c), c) == parts
  {
    SplitPlain(parts[0], c);
    if |parts| > 1 {
      SplitOfJoin(parts[1..], c);
      SplitConcat(parts[0], Join(parts[1..], c), c);
    }
  }

  // ---------- Replacing ----------

  /** strings.ReplaceAll for a non-empty pattern: occurrences are taken from the left, without overlap. */
  function ReplaceAll(s: string, p: string, with: string): string
    requires p != ""
    decreases |s|
  {
    if s == "" then ""
    else if HasPrefix(s, p) then with + ReplaceAll(s[|p|..], p, with)
    else [s[0]] + ReplaceAll(s[1..], p, with)
  }

  // ---------- Path elements ----------

  /** An element of a path that leads neither up nor nowhere. */
  predicate IsElement(d: string) { d != "" && d != "." && d != ".." && '/' !in d }
}
