/** The stored form of a password: `$argon2id$v=19$m=...,t=...,p=...$salt$hash`. */
module Passwords {
  import opened Wrappers
  import opened Text
  import opened Decimals
  import opened Base64

  const ARGON2_VERSION: int := 19
  const UINT32: int := 0x1_0000_0000

  datatype Params = Params(memory: nat, iterations: nat, parallelism: nat)

  /** The widths of the Go types, and what argon2.IDKey insists on. */
  predicate ValidParams(p: Params) {
    p.memory < UINT32 && 1 <= p.iterations < UINT32 && 1 <= p.parallelism < 256
  }

  /** argon2.IDKey: password, salt, iterations, memory, parallelism, key length. */
  type IdKey = (string, seq<int>, nat, nat, nat, nat) -> seq<int>

  datatype Stored = Stored(params: Params, salt: seq<int>, hash: seq<int>)

  // ---------- Writing ----------

  function VersionPart(): string { "v=" + Decimal(ARGON2_VERSION) }

  function ParamsPart(p: Params): string {
    "m=" + (Decimal(p.memory) + (",t=" + (Decimal(p.iterations) + (",p=" + Decimal(p.parallelism)))))
  }

  function Printed(x: Stored): string
    requires IsBytes(x.salt) && IsBytes(x.hash)
  {
    "$argon2id$" + VersionPart() + "$" + ParamsPart(x.params) + "$" + EncodeToString(x.salt) + "$" + EncodeToString(x.hash)
  }

  /** HashPassword, given the salt. */
  function HashPassword(idKey: IdKey, password: string, p: Params, keyLength: nat, salt: seq<int>): string
    requires ValidParams(p) && IsBytes(salt)
    requires IsBytes(idKey(password, salt, p.iterations, p.memory, p.parallelism, keyLength))
  {
    Printed(Stored(p, salt, idKey(password, salt, p.iterations, p.memory, p.parallelism, keyLength)))
  }

  // ---------- Reading ----------

  datatype PasswordError = BadFormat | BadAlgorithm | BadNumber | BadVersion | BadBase64 | KeyDerivationPanics

  /** A literal of the scan format. */
  function ScanLiteral(s: string, literal: string): Option<string> {
    if HasPrefix(s, literal) then Some(s[|literal|..]) else None
  }

  /** The white space %d skips; a line break is an error. */
  function SkipBlanks(s: string): Option<string> {
    if s != "" && s[0] == '\n' then None
    else if s != "" && IsSpace(s[0]) then SkipBlanks(s[1..])
    else Some(s)
  }

  /** %d of an unsigned number below `limit`. */
  function ScanUint(s: string, limit: nat): Option<(nat, string)> {
    match SkipBlanks(s)
    case None => None
    case Some(t) =>
      var n := DigitLen(t);
      LeadingDigits(t);
      if n == 0 || Number(t[..n]) >= limit then None else Some((Number(t[..n]), t[n..]))
  }

  /** %d of a 64-bit signed number. */
  function ScanInt(s: string): Option<int> {
    match SkipBlanks(s)
    case None => None
    case Some(t) =>
      var negative := HasPrefix(t, "-");
      var digits := if negative || HasPrefix(t, "+") then t[1..] else t;
      var n := DigitLen(digits);
      LeadingDigits(digits);
      var v: int := Number(digits[..n]);
      if n == 0 || v > 0x8000_0000_0000_0000 || (!negative && v == 0x8000_0000_0000_0000) then None
      else Some(if negative then -v else v)
  }

  function ScanParams(s: string): Option<Params> {
    match ScanLiteral(s, "m=")
    case None => None
    case Some(s1) =>
    match ScanUint(s1, UINT32)
    case None => None
    case Some((memory, s2)) =>
    match ScanLiteral(s2, ",t=")
    case None => None
    case Some(s3) =>
    match ScanUint(s3, UINT32)
    case None => None
    case Some((iterations, s4)) =>
    match ScanLiteral(s4, ",p=")
    case None => None
    case Some(s5) =>
    match ScanUint(s5, 256)
    case None => None
    case Some((parallelism, _)) => Some(Params(memory, iterations, parallelism))
  }

  /** What VerifyPassword reads off a stored string. */
  function Parse(encoded: string): Result<Stored, PasswordError> {
    var parts := Split(encoded, '$');
    if |parts| != 6 then Err(BadFormat)
    else if parts[1] != "argon2id" then Err(BadAlgorithm)
    else
      var version := match ScanLiteral(parts[2], "v=") case None => None case Some(rest) => ScanInt(rest);
      if version.None? then Err(BadNumber)
      else if version.value != ARGON2_VERSION then Err(BadVersion)
      else
        var params, salt, hash := ScanParams(parts[3]), DecodeString(parts[4]), DecodeString(parts[5]);
        if params.None? then Err(BadNumber)
        else if salt.None? || hash.None? then Err(BadBase64)
        else Ok(Stored(params.value, salt.value, hash.value))
  }

  /** The rest of VerifyPassword, once the stored string has been read. */
  function Verified(idKey: IdKey, password: string, stored: Result<Stored, PasswordError>): Result<bool, PasswordError> {
    match stored
    case Err(e) => Err(e)
    case Ok(x) =>
      if x.params.iterations < 1 || x.params.parallelism < 1 then Err(KeyDerivationPanics) else
        var keyLength := |x.hash| % UINT32;
        Ok(x.hash == idKey(password, x.salt, x.params.iterations, x.params.memory, x.params.parallelism, keyLength))
  }

  function VerifyPassword(idKey: IdKey, password: string, encoded: string): Result<bool, PasswordError> {
    Verified(idKey, password, Parse(encoded))
  }

  // ---------- Reading back what was written ----------

  lemma LiteralThen(literal: string, rest: string)
    ensures ScanLiteral(literal + rest, literal) == Some(rest)
  {
  }

  lemma NoBlanks(s: string)
    requires s == "" || IsDigit(s[0])
    ensures SkipBlanks(s) == Some(s)
  {
  }

  lemma ScanDecimal(n: nat, rest: string, limit: nat)
    requires n < limit && (rest != "" ==> !IsDigit(rest[0]))
    ensures ScanUint(Decimal(n) + rest, limit) == Some((n, rest))
  {
    DecimalRoundTrip(n);
    var s := Decimal(n) + rest;
    assert s[0] == Decimal(n)[0];
    NoBlanks(s);
    DigitLenOf(Decimal(n), rest);
    assert s[..|Decimal(n)|] == Decimal(n) && s[|Decimal(n)|..] == rest;
  }

  lemma ParamsRoundTrip(p: Params)
    requires p.memory < UINT32 && p.iterations < UINT32 && p.parallelism < 256
    ensures ScanParams(ParamsPart(p)) == Some(p)
  {
    var s5 := Decimal(p.parallelism);
    var s4 := ",p=" + s5;
    var s3 := Decimal(p.iterations) + s4;
    var s2 := ",t=" + s3;
    var s1 := Decimal(p.memory) + s2;
    LiteralThen("m=", s1);
    ScanDecimal(p.memory, s2, UINT32);
    LiteralThen(",t=", s3);
    ScanDecimal(p.iterations, s4, UINT32);
    LiteralThen(",p=", s5);
    ScanDecimal(p.parallelism, "", 256);
    assert s5 + "" == s5;
  }

  lemma VersionRoundTrip()
    ensures ScanLiteral(VersionPart(), "v=") == Some(Decimal(ARGON2_VERSION))
    ensures ScanInt(Decimal(ARGON2_VERSION)) == Some(ARGON2_VERSION)
  {
    LiteralThen("v=", Decimal(ARGON2_VERSION));
    ScanPrinted(ARGON2_VERSION);
  }

  lemma DigitsAreNotDollar(n: nat)
    ensures '$' !in Decimal(n)
  {
    DecimalRoundTrip(n);
  }

  lemma Base64HasNoDollar(b: seq<int>)
    requires IsBytes(b)
    ensures '$' !in EncodeToString(b)
  {
    Base64RoundTrip(b);
    assert !IsBase64Char('$');
  }

  lemma PrintedParts(x: Stored)
    requires IsBytes(x.salt) && IsBytes(x.hash)
    ensures Split(Printed(x), '$') ==
            ["", "argon2id", "v=" + Decimal(19), ParamsPart(x.params), EncodeToString(x.salt), EncodeToString(x.hash)]
  {
    DigitsAreNotDollar(ARGON2_VERSION);
    DigitsAreNotDollar(x.params.memory);
    DigitsAreNotDollar(x.params.iterations);
    DigitsAreNotDollar(x.params.parallelism);
    Base64HasNoDollar(x.salt);
    Base64HasNoDollar(x.hash);
    assert "$" + "argon2id" + "$" == "$argon2id$";
    JoinedWithDollars("argon2id", VersionPart(), ParamsPart(x.params), EncodeToString(x.salt), EncodeToString(x.hash));
  }

  /** The parameters are memory, iterations and parallelism, by the names that the string format gives them. */
  lemma PrintedParams(p: Params)
    ensures Split(ParamsPart(p), ',') ==
            ["m=" + Decimal(p.memory)] + ["t=" + Decimal(p.iterations)] + ["p=" + Decimal(p.parallelism)]
  {
    var m, t, l := "m=" + Decimal(p.memory), "t=" + Decimal(p.iterations), "p=" + Decimal(p.parallelism);
    DecimalRoundTrip(p.memory);
    DecimalRoundTrip(p.iterations);
    DecimalRoundTrip(p.parallelism);
    SplitPlain(m, ',');
    OnePartMore(m, [m], t, ',');
    OnePartMore(m + [','] + t, [m] + [t], l, ',');
    assert ParamsPart(p) == m + [','] + t + [','] + l;
  }

  lemma JoinedWithDollars(a: string, b: string, c: string, d: string, e: string)
    requires '$' !in a && '$' !in b && '$' !in c && '$' !in d && '$' !in e
    ensures Split("$" + a + "$" + b + "$" + c + "$" + d + "$" + e, '$') == ["", a, b, c, d, e]
  {
    SplitPlain("", '$');
    assert "" + "$" + a == "$" + a;
    OnePartMore("", [""], a, '$');
    OnePartMore("$" + a, ["", a], b, '$');
    OnePartMore("$" + a + "$" + b, ["", a, b], c, '$');
    OnePartMore("$" + a + "$" + b + "$" + c, ["", a, b, c], d, '$');
    OnePartMore("$" + a + "$" + b + "$" + c + "$" + d, ["", a, b, c, d], e, '$');
  }

  /** Other algorithms and other versions are refused. */
  lemma OthersAreRefused(a: string, version: nat, c: string, d: string, e: string)
    requires '$' !in a && '$' !in c && '$' !in d && '$' !in e && version < 0x8000_0000_0000_0000
    ensures var r := Parse("$" + a + "$" + ("v=" + Decimal(version)) + "$" + c + "$" + d + "$" + e);
            && (r == Err(BadAlgorithm) <==> a != "argon2id")
            && (r == Err(BadVersion) <==> a == "argon2id" && version != 19)
  {
    DigitsAreNotDollar(version);
    JoinedWithDollars(a, "v=" + Decimal(version), c, d, e);
    LiteralThen("v=", Decimal(version));
    ScanPrinted(version);
  }

  lemma ScanPrinted(n: nat)
    requires n < 0x8000_0000_0000_0000
    ensures ScanInt(Decimal(n)) == Some(n)
  {
    var d := Decimal(n);
    DecimalRoundTrip(n);
    NoBlanks(d);
    DigitLenOf(d, "");
    assert d + "" == d && d[..|d|] == d;
    assert IsDigit(d[0]);
  }

  /** Reading a printed string recovers parameters, salt and hash exactly. */
  lemma PrintedRoundTrip(x: Stored)
    requires IsBytes(x.salt) && IsBytes(x.hash)
    requires x.params.memory < UINT32 && x.params.iterations < UINT32 && x.params.parallelism < 256
    ensures Parse(Printed(x)) == Ok(x)
  {
    PrintedParts(x);
    VersionRoundTrip();
    ParamsRoundTrip(x.params);
    Base64RoundTrip(x.salt);
    Base64RoundTrip(x.hash);
  }

  lemma VerifyParsed(idKey: IdKey, password: string, x: Stored)
    requires ValidParams(x.params) && |x.hash| < UINT32
    ensures Verified(idKey, password, Ok(x)) ==
            Ok(x.hash == idKey(password, x.salt, x.params.iterations, x.params.memory, x.params.parallelism, |x.hash|))
  {
  }

  /** A password is accepted against the stored form of another exactly when both derive the same key. */
  lemma VerifyAcceptsSameKey(idKey: IdKey, password: string, other: string, p: Params, keyLength: nat, salt: seq<int>)
    requires ValidParams(p) && IsBytes(salt) && keyLength < UINT32
    requires var key := idKey(password, salt, p.iterations, p.memory, p.parallelism, keyLength);
             IsBytes(key) && |key| == keyLength
    ensures VerifyPassword(idKey, other, HashPassword(idKey, password, p, keyLength, salt)) ==
            Ok(idKey(other, salt, p.iterations, p.memory, p.parallelism, keyLength)
               == idKey(password, salt, p.iterations, p.memory, p.parallelism, keyLength))
  {
    var x := Stored(p, salt, idKey(password, salt, p.iterations, p.memory, p.parallelism, keyLength));
    PrintedRoundTrip(x);
    VerifyParsed(idKey, other, x);
  }
}
