/** Evaluation of SPF records (sections 4.6.2, 4.7 and 5.6 of RFC 7208), without DNS. */
module Spf {
  import opened Wrappers
  import opened Text
  import opened Decimals
  import opened IpNetworks

  datatype AuthStatus = AuthNone | AuthPass | AuthFail | AuthSoftFail | AuthNeutral | AuthPermError

  const VERSION := "v=spf1"

  function TrimLeftQuotes(s: string): (r: string)
    ensures |r| <= |s|
  {
    if s != "" && s[0] == '"' then TrimLeftQuotes(s[1..]) else s
  }

  function TrimRightQuotes(s: string): (r: string)
    ensures |r| <= |s|
  {
    if s != "" && s[|s| - 1] == '"' then TrimRightQuotes(s[..|s| - 1]) else s
  }

  /** The record without the quotes and white space around it. */
  function Normalized(record: string): string { TrimSpace(TrimRightQuotes(TrimLeftQuotes(record))) }

  function Terms(record: string): seq<string> { Fields(Normalized(record)) }

  // ---------- One term ----------

  predicate IsQualifier(c: char) { c == '+' || c == '-' || c == '~' || c == '?' }

  predicate HasQualifier(term: string) { term != "" && IsQualifier(term[0]) }

  /** The result a term stands for when it matches; no qualifier is "+". */
  function Verdict(term: string): AuthStatus {
    if !HasQualifier(term) || term[0] == '+' then AuthPass
    else if term[0] == '-' then AuthFail
    else if term[0] == '~' then AuthSoftFail
    else AuthNeutral
  }

  /** The term without its qualifier, in lower case. */
  function Mechanism(term: string): string { ToLower(if HasQualifier(term) then term[1..] else term) }

  predicate IsAll(term: string) { Mechanism(term) == "all" }

  /** The address or network written in an ip4 or ip6 mechanism covers the client. */
  predicate Covers(parseV6: string -> Option<IP>, client: IP, text: string)
    requires IsOctets(client)
  {
    if Contains(text, "/") then
      match ParseCIDR(parseV6, text)
      case Some(net) => ContainsIP(net, client)
      case None => false
    else
      match ParseIP(parseV6, text)
      case Some(target) => SameIP(target, client)
      case None => false
  }

  predicate Matches(parseV6: string -> Option<IP>, client: IP, term: string)
    requires IsOctets(client)
  {
    var m := Mechanism(term);
    m == "all" || ((HasPrefix(m, "ip4:") || HasPrefix(m, "ip6:")) && Covers(parseV6, client, m[4..]))
  }

  // ---------- The whole record ----------

  function FirstMatch(parseV6: string -> Option<IP>, client: IP, terms: seq<string>): AuthStatus
    requires IsOctets(client)
  {
    if terms == [] then AuthNeutral
    else if Matches(parseV6, client, terms[0]) then Verdict(terms[0])
    else FirstMatch(parseV6, client, terms[1..])
  }

  function Evaluation(parseV6: string -> Option<IP>, client: IP, record: string): AuthStatus
    requires IsOctets(client)
  {
    if record == "" then AuthNone
    else if !HasPrefix(Normalized(record), VERSION) || Terms(record) == [] then AuthPermError
    else FirstMatch(parseV6, client, Terms(record)[1..])
  }

  method EvaluateSPF(parseV6: string -> Option<IP>, client: IP, record: string) returns (status: AuthStatus)
    requires IsOctets(client)
    ensures status == Evaluation(parseV6, client, record)
  {
    if record == "" {
      return AuthNone;
    }
    var text := Normalized(record);
    if !HasPrefix(text, VERSION) {
      return AuthPermError;
    }
    var terms := Fields(text);
    VersionIsATerm(text);
    var i := 1;
    while i < |terms|
      invariant 1 <= i <= |terms|
      invariant FirstMatch(parseV6, client, terms[1..]) == FirstMatch(parseV6, client, terms[i..])
    {
      var term, qualifier := terms[i], '+';
      if HasQualifier(term) {
        qualifier := term[0];
        term := term[1..];
      }
      var lower := ToLower(term);
      var matched := false;
      if lower == "all" {
        matched := true;
      } else if HasPrefix(lower, "ip4:") {
        matched := Covers(parseV6, client, lower[4..]);
      } else if HasPrefix(lower, "ip6:") {
        matched := Covers(parseV6, client, lower[4..]);
      }
      if matched {
        match qualifier {
          case '+' => return AuthPass;
          case '-' => return AuthFail;
          case '~' => return AuthSoftFail;
          case _ => return AuthNeutral;
        }
      }
      assert terms[i..][1..] == terms[i + 1..];
      i := i + 1;
    }
    return AuthNeutral;
  }

  /** A record with the version prefix has a first term to skip, so the loop never starts out of range. */
  lemma VersionIsATerm(text: string)
    requires HasPrefix(text, VERSION)
    ensures Fields(text) != []
  {
    assert text[0] == 'v';
  }

  // ---------- What the version check lets pass ----------

  /** The version is followed by white space or the end of the record, as section 4.5 of RFC 7208 asks for (of the
      white space, the RFC knows the space only). */
  predicate HasVersionSection(text: string) {
    HasPrefix(text, VERSION) && (|text| == |VERSION| || IsSpace(text[|VERSION|]))
  }

  /** Of the records that pass the prefix test, exactly those have a version section whose first term is the version
      and nothing else. */
  lemma VersionSectionIsATerm(record: string)
    requires HasPrefix(Normalized(record), VERSION)
    ensures HasVersionSection(Normalized(record)) <==> Terms(record) != [] && Terms(record)[0] == VERSION
  {
    var text := Normalized(record);
    assert text[0] == 'v';
    var n := TokenLen(text);
    assert Fields(text) == [text[..n]] + Fields(text[n..]);
    assert forall i :: 0 <= i < |VERSION| ==> text[i] == VERSION[i] && !IsSpace(VERSION[i]);
    assert n >= |VERSION|;
    assert text[..n] == VERSION <==> n == |VERSION|;
  }

  lemma TwoTerms(first: string, last: string)
    requires IsToken(first) && IsToken(last) && first[0] != '"' && last[|last| - 1] != '"'
    ensures var record := first + (" " + last + ""); Normalized(record) == record && Terms(record) == [first, last]
  {
    var tail := " " + last + "";
    var record := first + tail;
    assert record[0] == first[0] && record[|record| - 1] == last[|last| - 1];
    assert TrimLeftQuotes(record) == record && TrimRightQuotes(record) == record;
    TrimmedAlready(record);
    FieldsStep("", first, tail);
    assert "" + first + tail == record;
    FieldsStep(" ", last, "");
    FieldsOfSpaces("");
  }

  lemma FailAll(parseV6: string -> Option<IP>, client: IP)
    requires IsOctets(client)
    ensures FirstMatch(parseV6, client, ["-all"]) == AuthFail
  {
    assert "-all"[1..] == "all" && ToLower("all") == "all";
  }

  /** The others are evaluated all the same: whatever follows the version without a space is passed over. */
  lemma AnyVersionPasses(parseV6: string -> Option<IP>, client: IP, more: string)
    requires IsOctets(client) && IsToken(more)
    ensures var record := VERSION + more + (" " + "-all" + "");
            Evaluation(parseV6, client, record) == AuthFail && !HasVersionSection(Normalized(record))
  {
    var first := VERSION + more;
    assert NoSpace(VERSION);
    TwoTerms(first, "-all");
    FailAll(parseV6, client);
    assert [first, "-all"][1..] == ["-all"];
    assert (first + (" " + "-all" + ""))[|VERSION|] == more[0];
  }

  /** Only `all`, `ip4:` and `ip6:` ever match; in particular `a` and `mx` never do. */
  lemma OnlyLocalMechanismsMatch(parseV6: string -> Option<IP>, client: IP, term: string)
    requires IsOctets(client)
    ensures Matches(parseV6, client, term) ==>
              IsAll(term) || HasPrefix(Mechanism(term), "ip4:") || HasPrefix(Mechanism(term), "ip6:")
    ensures Mechanism(term) == "a" || Mechanism(term) == "mx" ==> !Matches(parseV6, client, term)
  {
  }

  // ---------- First match ----------

  /** What the first character of a matching term says, by section 4.6.2 of RFC 7208. */
  function ByQualifier(c: char): AuthStatus {
    match c
    case '-' => AuthFail
    case '~' => AuthSoftFail
    case '?' => AuthNeutral
    case _ => AuthPass
  }

  lemma MatchHasVerdict(parseV6: string -> Option<IP>, client: IP, term: string)
    requires IsOctets(client) && Matches(parseV6, client, term)
    ensures term != "" && Verdict(term) == ByQualifier(term[0])
  {
  }

  lemma {:induction false} FirstMatchDecides(parseV6: string -> Option<IP>, client: IP, terms: seq<string>, i: nat)
    requires IsOctets(client) && i <= |terms|
    requires forall j :: 0 <= j < i ==> !Matches(parseV6, client, terms[j])
    ensures i == |terms| ==> FirstMatch(parseV6, client, terms) == AuthNeutral
    ensures i < |terms| && Matches(parseV6, client, terms[i]) ==>
              FirstMatch(parseV6, client, terms) == Verdict(terms[i])
  {
    if i > 0 {
      assert !Matches(parseV6, client, terms[0]);
      forall j | 0 <= j < i - 1 ensures !Matches(parseV6, client, terms[1..][j]) {
        assert terms[1..][j] == terms[j + 1];
      }
      FirstMatchDecides(parseV6, client, terms[1..], i - 1);
      assert i < |terms| ==> terms[1..][i - 1] == terms[i];
    }
  }

  /** The qualifier of the leftmost matching term decides, whatever comes after it; with none, the result is neutral. */
  lemma LeftmostMatchDecides(parseV6: string -> Option<IP>, client: IP, terms: seq<string>, i: nat)
    requires IsOctets(client) && i <= |terms|
    requires forall j :: 0 <= j < i ==> !Matches(parseV6, client, terms[j])
    ensures i == |terms| ==> FirstMatch(parseV6, client, terms) == AuthNeutral
    ensures i < |terms| && Matches(parseV6, client, terms[i]) ==>
              terms[i] != "" && FirstMatch(parseV6, client, terms) == ByQualifier(terms[i][0])
  {
    FirstMatchDecides(parseV6, client, terms, i);
    if i < |terms| && Matches(parseV6, client, terms[i]) {
      MatchHasVerdict(parseV6, client, terms[i]);
    }
  }

  /** A record of the version and one term: that term decides, or else the result is neutral. */
  lemma OneTermRecord(parseV6: string -> Option<IP>, client: IP, term: string)
    requires IsOctets(client) && IsToken(term) && term[|term| - 1] != '"'
    ensures Evaluation(parseV6, client, VERSION + " " + term) ==
              if Matches(parseV6, client, term) then ByQualifier(term[0]) else AuthNeutral
  {
    assert NoSpace(VERSION) && VERSION[0] != '"';
    TwoTerms(VERSION, term);
    assert VERSION + (" " + term + "") == VERSION + " " + term;
    assert [VERSION, term][1..] == [term];
    LeftmostMatchDecides(parseV6, client, [term], if Matches(parseV6, client, [term][0]) then 0 else 1);
  }

  /** Every qualifier, and none, in front of `all`: the record has that result for every client. */
  lemma QualifiedAll(parseV6: string -> Option<IP>, client: IP, term: string)
    requires IsOctets(client) && |term| in {3, 4} && (|term| == 4 <==> IsQualifier(term[0]))
    requires term[|term| - 3..] == "all" || term[|term| - 3..] == "ALL"
    ensures Evaluation(parseV6, client, VERSION + " " + term) == ByQualifier(term[0])
  {
    AllMatches(parseV6, client, term);
    OneTermRecord(parseV6, client, term);
  }

  lemma AllMatches(parseV6: string -> Option<IP>, client: IP, term: string)
    requires IsOctets(client) && |term| in {3, 4} && (|term| == 4 <==> IsQualifier(term[0]))
    requires term[|term| - 3..] == "all" || term[|term| - 3..] == "ALL"
    ensures Matches(parseV6, client, term) && IsToken(term) && term[|term| - 1] != '"'
  {
    var t := term[|term| - 3..];
    assert ToLower(t) == "all";
    assert |term| == 3 ==> t == term;
    assert forall i :: 0 <= i < 3 ==> term[|term| - 3 + i] == t[i];
  }

  /** There is no result exactly for the empty record, and an error exactly for one without the version in front. */
  lemma NoResult(parseV6: string -> Option<IP>, client: IP, record: string)
    requires IsOctets(client)
    ensures Evaluation(parseV6, client, record) == AuthNone <==> record == ""
    ensures Evaluation(parseV6, client, record) == AuthPermError <==> record != "" && !HasPrefix(Normalized(record), VERSION)
  {
    if HasPrefix(Normalized(record), VERSION) {
      VersionIsATerm(Normalized(record));
      NeitherNorError(parseV6, client, Terms(record)[1..]);
    }
  }

  lemma {:induction false} NeitherNorError(parseV6: string -> Option<IP>, client: IP, terms: seq<string>)
    requires IsOctets(client)
    ensures FirstMatch(parseV6, client, terms) != AuthNone && FirstMatch(parseV6, client, terms) != AuthPermError
  {
    if terms != [] {
      NeitherNorError(parseV6, client, terms[1..]);
    }
  }

  predicate Quotes(s: string) { forall i :: 0 <= i < |s| ==> s[i] == '"' }

  lemma {:induction false} QuotesInFront(quotes: string, s: string)
    requires Quotes(quotes) && (s != "" ==> s[0] != '"')
    ensures TrimLeftQuotes(quotes + s) == s
  {
    if quotes == "" {
      assert quotes + s == s;
    } else {
      QuotesInFront(quotes[1..], s);
      assert (quotes + s)[1..] == quotes[1..] + s;
    }
  }

  lemma {:induction false} QuotesBehind(s: string, quotes: string)
    requires Quotes(quotes) && (s != "" ==> s[|s| - 1] != '"')
    ensures TrimRightQuotes(s + quotes) == s
  {
    if quotes == "" {
      assert s + quotes == s;
    } else {
      QuotesBehind(s, quotes[..|quotes| - 1]);
      assert (s + quotes)[..|s + quotes| - 1] == s + quotes[..|quotes| - 1];
    }
  }

  /** Quotes around the record, and white space within them, do not matter. */
  lemma QuotesDoNotMatter(parseV6: string -> Option<IP>, client: IP, quotes: string, ws: string, record: string,
                          ws': string, quotes': string)
    requires IsOctets(client) && Quotes(quotes) && Quotes(quotes') && Spaces(ws) && Spaces(ws')
    requires record != "" && !IsSpace(record[0]) && !IsSpace(record[|record| - 1])
    requires record[0] != '"' && record[|record| - 1] != '"'
    ensures Evaluation(parseV6, client, quotes + (ws + record + ws') + quotes') == Evaluation(parseV6, client, record)
  {
    var inner := ws + record + ws';
    assert inner[0] == (ws + record)[0] && inner[|inner| - 1] == (record + ws')[|record + ws'| - 1];
    assert quotes + inner + quotes' == quotes + (inner + quotes');
    QuotesInFront(quotes, inner + quotes');
    QuotesBehind(inner, quotes');
    QuotesInFront("", record);
    QuotesBehind(record, "");
    assert "" + record == record && record + "" == record;
    TrimSpaceOf(ws, record, ws');
    TrimmedAlready(record);
  }

  lemma {:induction false} PrefixDecides(parseV6: string -> Option<IP>, client: IP, s: seq<string>, t: seq<string>,
                                         i: nat)
    requires IsOctets(client) && i < |s| && i < |t| && s[..i + 1] == t[..i + 1] && IsAll(s[i])
    ensures FirstMatch(parseV6, client, s) == FirstMatch(parseV6, client, t)
  {
    assert s[0] == s[..i + 1][0] == t[..i + 1][0] == t[0];
    if i > 0 {
      assert s[1..][..i] == s[..i + 1][1..] == t[..i + 1][1..] == t[1..][..i];
      PrefixDecides(parseV6, client, s[1..], t[1..], i - 1);
    }
  }

  /** Everything after the first `all` is ignored: two records with the same terms up to an `all` have the same
      result for every client. */
  lemma NothingAfterAllCounts(parseV6: string -> Option<IP>, client: IP, record: string, other: string, i: nat)
    requires IsOctets(client)
    requires HasPrefix(Normalized(record), VERSION) && HasPrefix(Normalized(other), VERSION)
    requires 1 <= i < |Terms(record)| && i < |Terms(other)| && Terms(record)[..i + 1] == Terms(other)[..i + 1]
    requires IsAll(Terms(record)[i])
    ensures Evaluation(parseV6, client, record) == Evaluation(parseV6, client, other)
  {
    var s, t := Terms(record), Terms(other);
    assert s[1..][..i] == s[..i + 1][1..] == t[..i + 1][1..] == t[1..][..i];
    PrefixDecides(parseV6, client, s[1..], t[1..], i - 1);
  }

  /** A record whose terms hold an `all` never falls through: some term at or before it decides. */
  lemma {:induction false} AllNeverFallsThrough(parseV6: string -> Option<IP>, client: IP, terms: seq<string>, i: nat)
    requires IsOctets(client) && i < |terms| && IsAll(terms[i])
    ensures exists j :: 0 <= j <= i && Matches(parseV6, client, terms[j])
                        && FirstMatch(parseV6, client, terms) == Verdict(terms[j])
  {
    if !Matches(parseV6, client, terms[0]) {
      AllNeverFallsThrough(parseV6, client, terms[1..], i - 1);
      var j :| 0 <= j <= i - 1 && Matches(parseV6, client, terms[1..][j])
               && FirstMatch(parseV6, client, terms[1..]) == Verdict(terms[1..][j]);
      assert terms[j + 1] == terms[1..][j];
    }
  }

  // ---------- IPv4 networks as text ----------

  lemma {:induction false} NoLeadingZero(n: nat)
    ensures |Decimal(n)| > 1 ==> Decimal(n)[0] != '0'
  {
    if n >= 10 {
      DecimalRoundTrip(n / 10);
      NoLeadingZero(n / 10);
      if n / 10 < 10 {
        assert Decimal(n)[0] == DigitChar(n / 10);
      }
    }
  }

  lemma OctetRoundTrip(n: nat)
    requires n < 256
    ensures ParseOctet(Decimal(n)) == Some(n) && '.' !in Decimal(n) && '/' !in Decimal(n)
  {
    DecimalRoundTrip(n);
    NoLeadingZero(n);
  }

  function Octets(ip: IP): seq<string>
    requires |ip| == 4 && IsOctets(ip)
  {
    [Decimal(ip[0]), Decimal(ip[1]), Decimal(ip[2]), Decimal(ip[3])]
  }

  function Dotted(ip: IP): string
    requires |ip| == 4 && IsOctets(ip)
  {
    Join(Octets(ip), '.')
  }

  function NetworkText(ip: IP, bits: nat): string
    requires |ip| == 4 && IsOctets(ip)
  {
    Dotted(ip) + "/" + Decimal(bits)
  }

  function Ip4Term(ip: IP, bits: nat): string
    requires |ip| == 4 && IsOctets(ip)
  {
    "ip4:" + NetworkText(ip, bits)
  }

  lemma DottedRoundTrip(ip: IP)
    requires |ip| == 4 && IsOctets(ip)
    ensures ParseIPv4(Dotted(ip)) == Some(ip)
  {
    OctetRoundTrip(ip[0]);
    OctetRoundTrip(ip[1]);
    OctetRoundTrip(ip[2]);
    OctetRoundTrip(ip[3]);
    SplitOfJoin(Octets(ip), '.');
    assert ip == [ip[0], ip[1], ip[2], ip[3]];
  }

  lemma OctetText(s: string)
    requires ParseOctet(s).Some?
    ensures Decimal(ParseOctet(s).value) == s
  {
    PrintedNumber(s);
  }

  /** And it is the only text that does. */
  lemma DottedIsExact(s: string, ip: IP)
    requires |ip| == 4 && IsOctets(ip)
    ensures ParseIPv4(s) == Some(ip) <==> s == Dotted(ip)
  {
    DottedRoundTrip(ip);
    if ParseIPv4(s) == Some(ip) {
      var fields := Split(s, '.');
      OctetText(fields[0]);
      OctetText(fields[1]);
      OctetText(fields[2]);
      OctetText(fields[3]);
      assert fields == Octets(ip);
      JoinOfSplit(s, '.');
    }
  }

  predicate DigitsAndDots(s: string) { forall i :: 0 <= i < |s| ==> IsDigit(s[i]) || s[i] == '.' }

  lemma DigitsAndDotsJoin(s: string, t: string)
    requires DigitsAndDots(s) && DigitsAndDots(t)
    ensures DigitsAndDots(s + ['.'] + t)
  {
  }

  lemma DottedChars(ip: IP)
    requires |ip| == 4 && IsOctets(ip)
    ensures DigitsAndDots(Dotted(ip)) && '.' in Dotted(ip)
  {
    var a, b, c, d := Decimal(ip[0]), Decimal(ip[1]), Decimal(ip[2]), Decimal(ip[3]);
    DecimalRoundTrip(ip[0]);
    DecimalRoundTrip(ip[1]);
    DecimalRoundTrip(ip[2]);
    DecimalRoundTrip(ip[3]);
    assert Octets(ip)[1..] == [b, c, d] && [b, c, d][1..] == [c, d] && [c, d][1..] == [d];
    DigitsAndDotsJoin(c, d);
    assert Join([c, d], '.') == c + ['.'] + d;
    DigitsAndDotsJoin(b, Join([c, d], '.'));
    assert Join([b, c, d], '.') == b + ['.'] + Join([c, d], '.');
    DigitsAndDotsJoin(a, Join([b, c, d], '.'));
    assert Dotted(ip)[|a|] == '.';
  }

  lemma {:induction false} FirstMarkIsDot(s: string)
    requires DigitsAndDots(s) && '.' in s
    ensures FirstMark(s) == '.'
  {
    if s[0] != '.' {
      assert s == [s[0]] + s[1..];
      FirstMarkIsDot(s[1..]);
    }
  }

  lemma SlashAt(s: string, rest: string)
    requires '/' !in s
    ensures Index(s + "/" + rest, "/") == Some(|s|)
  {
    var t := s + "/" + rest;
    IndexFromIsFirst(t, "/", 0);
    assert t[|s|..|s| + 1] == "/" && At(t, "/", |s|);
    forall j | 0 <= j < |s| ensures !At(t, "/", j) {
      assert t[j..j + 1][0] == s[j];
    }
  }

  /** An address behind which a slash and a number stand is a network if and only if the number is at most that of its bits. */
  lemma CidrIsExact(parseV6: string -> Option<IP>, text: string, ip: IP, bits: nat)
    requires '/' !in text && ParseIP(parseV6, text) == Some(ip)
    ensures Contains(text + "/" + Decimal(bits), "/")
    ensures ParseCIDR(parseV6, text + "/" + Decimal(bits)) == if bits <= 8 * |ip| then Some(Network(ip, bits)) else None
  {
    SlashAt(text, Decimal(bits));
    DecimalRoundTrip(bits);
    var all := text + "/" + Decimal(bits);
    assert all[..|text|] == text && all[|text| + 1..] == Decimal(bits);
  }

  lemma CidrRoundTrip(parseV6: string -> Option<IP>, ip: IP, bits: nat)
    requires |ip| == 4 && IsOctets(ip) && bits <= 32
    ensures Contains(NetworkText(ip, bits), "/")
    ensures ParseCIDR(parseV6, NetworkText(ip, bits)) == Some(Network(ip, bits))
  {
    DottedChars(ip);
    DottedRoundTrip(ip);
    FirstMarkIsDot(Dotted(ip));
    CidrIsExact(parseV6, Dotted(ip), ip, bits);
  }

  lemma Ip4Mechanism(ip: IP, bits: nat)
    requires |ip| == 4 && IsOctets(ip)
    ensures Mechanism(Ip4Term(ip, bits)) == Ip4Term(ip, bits)
  {
    DottedChars(ip);
    DecimalRoundTrip(bits);
    var term := Ip4Term(ip, bits);
    assert term[0] == 'i';
    assert forall i :: 0 <= i < |term| ==> LowerChar(term[i]) == term[i];
  }

  lemma CidrTermMatches(parseV6: string -> Option<IP>, client: IP, term: string, text: string, net: Network)
    requires IsOctets(client) && IsOctets(net.address)
    requires Mechanism(term) == "ip4:" + text || Mechanism(term) == "ip6:" + text
    requires Contains(text, "/") && ParseCIDR(parseV6, text) == Some(net)
    ensures Matches(parseV6, client, term) <==> ContainsIP(net, client)
  {
    assert ("ip4:" + text)[4..] == text && ("ip6:" + text)[4..] == text;
  }

  lemma Ip4TermIsNetwork(parseV6: string -> Option<IP>, client: IP, ip: IP, bits: nat)
    requires IsOctets(client) && |ip| == 4 && IsOctets(ip) && bits <= 32
    ensures Matches(parseV6, client, Ip4Term(ip, bits)) <==> ContainsIP(Network(ip, bits), client)
  {
    Ip4Mechanism(ip, bits);
    CidrRoundTrip(parseV6, ip, bits);
    CidrTermMatches(parseV6, client, Ip4Term(ip, bits), NetworkText(ip, bits), Network(ip, bits));
  }

  /** An `ip4:a.b.c.d` term matches exactly that address, mapped into IPv6 or not. */
  lemma Ip4AddressTerm(parseV6: string -> Option<IP>, client: IP, ip: IP)
    requires IsOctets(client) && |ip| == 4 && IsOctets(ip)
    ensures Matches(parseV6, client, "ip4:" + Dotted(ip)) <==> To4(client) == ip
  {
    var term, text := "ip4:" + Dotted(ip), Dotted(ip);
    DottedChars(ip);
    DottedRoundTrip(ip);
    FirstMarkIsDot(text);
    ContainsChar(text, '/');
    assert term[0] == 'i' && forall i :: 0 <= i < |term| ==> LowerChar(term[i]) == term[i];
    assert Mechanism(term) == term;
    AddressTermMatches(parseV6, client, term, text, ip);
  }

  lemma AddressTermMatches(parseV6: string -> Option<IP>, client: IP, term: string, text: string, ip: IP)
    requires IsOctets(client) && !Contains(text, "/") && ParseIP(parseV6, text) == Some(ip)
    requires Mechanism(term) == "ip4:" + text || Mechanism(term) == "ip6:" + text
    ensures Matches(parseV6, client, term) <==> SameIP(ip, client)
  {
    assert ("ip4:" + text)[4..] == text && ("ip6:" + text)[4..] == text;
  }

  /** An `ip4:a.b.c.d/n` term matches exactly the IPv4 clients with the same number once divided by 2^(32-n). */
  lemma Ip4TermIsQuotient(parseV6: string -> Option<IP>, client: IP, ip: IP, bits: nat)
    requires IsOctets(client) && |ip| == 4 && IsOctets(ip) && bits <= 32
    ensures Matches(parseV6, client, Ip4Term(ip, bits)) <==>
            |To4(client)| == 4 && Value(ip) / Pow2(32 - bits) == Value(To4(client)) / Pow2(32 - bits)
  {
    Ip4TermIsNetwork(parseV6, client, ip, bits);
    FourOctetQuotient(ip, bits, client);
  }

  /** So a shorter prefix of the same network matches every client a longer one does. */
  lemma ShorterPrefixMatchesMore(parseV6: string -> Option<IP>, client: IP, ip: IP, bits: nat, fewer: nat)
    requires IsOctets(client) && |ip| == 4 && IsOctets(ip) && fewer <= bits <= 32
    requires Matches(parseV6, client, Ip4Term(ip, bits))
    ensures Matches(parseV6, client, Ip4Term(ip, fewer))
  {
    Ip4TermIsNetwork(parseV6, client, ip, bits);
    Ip4TermIsNetwork(parseV6, client, ip, fewer);
    ShorterPrefixContainsMore(ip, bits, fewer, client);
  }
}
