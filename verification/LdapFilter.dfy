/** LDAP search filters and distinguished names built from untrusted text. Strings are byte strings. */
module LdapFilter {
  import opened Wrappers
  import opened Text

  // ---------- Escaping for search filters ----------

  function EscapeFilterByte(c: char): string {
    if c == '\\' then "\\5c"
    else if c == '*' then "\\2a"
    else if c == '(' then "\\28"
    else if c == ')' then "\\29"
    else if c as int == 0 then "\\00"
    else [c]
  }

  function EscapedFilter(s: string): string {
    if s == "" then "" else EscapedFilter(s[..|s| - 1]) + EscapeFilterByte(s[|s| - 1])
  }

  method EscapeFilter(filter: string) returns (buf: string)
    ensures buf == EscapedFilter(filter)
  {
    buf := "";
    for i := 0 to |filter|
      invariant buf == EscapedFilter(filter[..i])
    {
      assert filter[..i + 1][..i] == filter[..i];
      var c := filter[i];
      if c == '\\' {
        buf := buf + "\\5c";
      } else if c == '*' {
        buf := buf + "\\2a";
      } else if c == '(' {
        buf := buf + "\\28";
      } else if c == ')' {
        buf := buf + "\\29";
      } else if c as int == 0 {
        buf := buf + "\\00";
      } else {
        buf := buf + [c];
      }
    }
    assert filter[..|filter|] == filter;
  }

  /** The value an RFC 4515 assertion value stands for (section 3); None if it is malformed. */
  function DecodeFilter(t: string): Option<string> {
    if t == "" then Some("")
    else if t[0] == '\\' then
      if |t| < 3 || !IsHex(t[1]) || !IsHex(t[2]) then None
      else Prepend((16 * HexValue(t[1]) + HexValue(t[2])) as char, DecodeFilter(t[3..]))
    else if t[0] == '*' || t[0] == '(' || t[0] == ')' || t[0] as int == 0 then None
    else Prepend(t[0], DecodeFilter(t[1..]))
  }

  function Prepend(c: char, rest: Option<string>): Option<string> {
    match rest
    case None => None
    case Some(r) => Some([c] + r)
  }

  lemma DecodeOneByte(c: char, rest: string)
    ensures DecodeFilter(EscapeFilterByte(c) + rest) == Prepend(c, DecodeFilter(rest))
  {
    var t := EscapeFilterByte(c) + rest;
    if |EscapeFilterByte(c)| == 1 {
      assert t[1..] == rest;
    } else {
      assert t[3..] == rest;
      assert t[0] == '\\' && t[1] == EscapeFilterByte(c)[1] && t[2] == EscapeFilterByte(c)[2];
    }
  }

  function Append(a: string, b: Option<string>): Option<string> {
    match b
    case None => None
    case Some(r) => Some(a + r)
  }

  lemma AppendPrepend(a: string, c: char, b: Option<string>)
    ensures Append(a, Prepend(c, b)) == Append(a + [c], b)
  {
    if b.Some? {
      assert a + ([c] + b.value) == a + [c] + b.value;
    }
  }

  lemma {:induction false} DecodeAhead(s: string, rest: string)
    ensures DecodeFilter(EscapedFilter(s) + rest) == Append(s, DecodeFilter(rest))
  {
    if s == "" {
      assert EscapedFilter(s) + rest == rest;
      assert DecodeFilter(rest).Some? ==> "" + DecodeFilter(rest).value == DecodeFilter(rest).value;
    } else {
      var init, c := s[..|s| - 1], s[|s| - 1];
      var rest' := EscapeFilterByte(c) + rest;
      assert EscapedFilter(s) + rest == EscapedFilter(init) + rest';
      DecodeAhead(init, rest');
      DecodeOneByte(c, rest);
      AppendPrepend(init, c, DecodeFilter(rest));
      assert init + [c] == s;
    }
  }

  /** Every byte string comes back from its escaped form, which is well-formed. */
  lemma FilterRoundTrip(s: string)
    ensures DecodeFilter(EscapedFilter(s)) == Some(s)
  {
    DecodeAhead(s, "");
    assert EscapedFilter(s) + "" == EscapedFilter(s) && s + "" == s;
  }

  // ---------- Escaping for distinguished names ----------

  predicate DnSpecial(c: char) {
    c == '\\' || c == ',' || c == '+' || c == '"' || c == '<' || c == '>' || c == ';' || c == '='
  }

  function EscapeDnAt(s: string, i: nat): string
    requires i < |s|
  {
    var c := s[i];
    if i == 0 && (c == ' ' || c == '#') then ['\\', c]
    else if i == |s| - 1 && c == ' ' then ['\\', c]
    else if DnSpecial(c) then ['\\', c]
    else if c as int == 0 then "\\00"
    else [c]
  }

  /** The escaped form of `s` from position `i` on. */
  function EscapedDn(s: string, i: nat): string
    requires i <= |s|
    decreases |s| - i
  {
    if i == |s| then "" else EscapeDnAt(s, i) + EscapedDn(s, i + 1)
  }

  /** The escaped form of `s` up to position `i`. */
  function EscapedDnTo(s: string, i: nat): string
    requires i <= |s|
  {
    if i == 0 then "" else EscapedDnTo(s, i - 1) + EscapeDnAt(s, i - 1)
  }

  lemma {:induction false} EscapedDnSplits(s: string, i: nat)
    requires i <= |s|
    ensures EscapedDnTo(s, i) + EscapedDn(s, i) == EscapedDn(s, 0)
  {
    if i == 0 {
      assert "" + EscapedDn(s, 0) == EscapedDn(s, 0);
    } else {
      EscapedDnSplits(s, i - 1);
      assert EscapedDnTo(s, i) + EscapedDn(s, i) == EscapedDnTo(s, i - 1) + (EscapeDnAt(s, i - 1) + EscapedDn(s, i));
    }
  }

  method EscapeDN(dn: string) returns (buf: string)
    ensures buf == EscapedDn(dn, 0)
  {
    if dn == "" {
      return "";
    }
    buf := "";
    var n := |dn|;
    for i := 0 to n
      invariant buf == EscapedDnTo(dn, i)
    {
      var c := dn[i];
      if i == 0 && (c == ' ' || c == '#') {
        buf := buf + ['\\', c];
        continue;
      }
      if i == n - 1 && c == ' ' {
        buf := buf + ['\\', c];
        continue;
      }
      if c == '\\' || c == ',' || c == '+' || c == '"' || c == '<' || c == '>' || c == ';' || c == '=' {
        buf := buf + ['\\', c];
      } else if c as int == 0 {
        buf := buf + "\\00";
      } else {
        buf := buf + [c];
      }
    }
    EscapedDnSplits(dn, n);
  }

  /** The string an RFC 4514 attribute value stands for (section 3); None if the grammar does not allow it:
      special characters, NUL, a leading space or '#', and a trailing space must be escaped. */
  function DecodeDn(t: string, atStart: bool): Option<string> {
    if t == "" then Some("")
    else if t[0] == '\\' then
      if |t| >= 2 && (DnSpecial(t[1]) || t[1] == ' ' || t[1] == '#') then Prepend(t[1], DecodeDn(t[2..], false))
      else if |t| >= 3 && IsHex(t[1]) && IsHex(t[2]) then
        Prepend((16 * HexValue(t[1]) + HexValue(t[2])) as char, DecodeDn(t[3..], false))
      else None
    else if t[0] as int == 0 || (DnSpecial(t[0]) && t[0] != '=') then None
    else if atStart && (t[0] == ' ' || t[0] == '#') then None
    else if t[0] == ' ' && |t| == 1 then None
    else Prepend(t[0], DecodeDn(t[1..], false))
  }

  lemma DecodeDnOne(s: string, i: nat, rest: string)
    requires i < |s| && (rest == "" <==> i == |s| - 1)
    ensures DecodeDn(EscapeDnAt(s, i) + rest, i == 0) == Prepend(s[i], DecodeDn(rest, false))
  {
    var e, c := EscapeDnAt(s, i), s[i];
    var t := e + rest;
    if |e| == 1 {
      assert t[0] == c && t[1..] == rest;
    } else if |e| == 2 {
      assert t[0] == '\\' && t[1] == c && t[2..] == rest;
    } else {
      assert t[0] == '\\' && t[1] == '0' && t[2] == '0' && t[3..] == rest;
    }
  }

  lemma EscapedDnEnds(s: string, i: nat)
    requires i <= |s|
    ensures EscapedDn(s, i) == "" <==> i == |s|
  {
  }

  lemma DecodedOneMore(t: string, atStart: bool, u: string, c: char, rest: string, decoded: string)
    requires t == u && DecodeDn(u, atStart) == Prepend(c, DecodeDn(rest, false)) && DecodeDn(rest, false) == Some(decoded)
    ensures DecodeDn(t, atStart) == Some([c] + decoded)
  {
  }

  lemma {:induction false} DecodeDnFrom(s: string, i: nat)
    requires i <= |s|
    ensures DecodeDn(EscapedDn(s, i), i == 0) == Some(s[i..])
    decreases |s| - i
  {
    if i == |s| {
      assert s[i..] == "";
    } else {
      DecodeDnFrom(s, i + 1);
      EscapedDnEnds(s, i + 1);
      var e, rest := EscapeDnAt(s, i), EscapedDn(s, i + 1);
      DecodeDnOne(s, i, rest);
      DecodedOneMore(EscapedDn(s, i), i == 0, e + rest, s[i], rest, s[i + 1..]);
      assert [s[i]] + s[i + 1..] == s[i..];
    }
  }

  /** Every string comes back from its escaped form, which the grammar allows as it stands. */
  lemma DnRoundTrip(s: string)
    ensures DecodeDn(EscapedDn(s, 0), true) == Some(s)
  {
    DecodeDnFrom(s, 0);
    assert s[0..] == s;
  }

  // ---------- Filter templates ----------

  datatype FilterError = MissingPlaceholder | InjectionDetected

  const USERNAME := "{username}"
  const DN := "{dn}"

  predicate IsParen(c: char) { c == '(' || c == ')' }

  /** The parentheses of a string, in order. */
  function Parens(s: string): string {
    if s == "" then "" else (if IsParen(s[0]) then [s[0]] else "") + Parens(s[1..])
  }

  /** strings.Count of a single character. */
  function CountChar(s: string, c: char): nat {
    if s == "" then 0 else (if s[0] == c then 1 else 0) + CountChar(s[1..], c)
  }

  function UserTemplate(template: string): string {
    if template == "" then "(|(mail={username})(uid={username}))" else template
  }

  function BuildUserFilter(template: string, username: string): Result<string, FilterError> {
    var actual := UserTemplate(template);
    if !Contains(actual, USERNAME) then Err(MissingPlaceholder) else
      var filter := ReplaceAll(actual, USERNAME, EscapedFilter(username));
      var opens, closes := CountChar(filter, '('), CountChar(filter, ')');
      if opens != closes || opens == 0 then Err(InjectionDetected) else Ok(filter)
  }

  function GroupTemplate(template: string): string {
    if template == "" then "(|(member={dn})(uniqueMember={dn}))" else template
  }

  function BuildGroupFilter(template: string, userDn: string, username: string): string {
    ReplaceAll(ReplaceAll(GroupTemplate(template), DN, EscapedFilter(userDn)), USERNAME, EscapedFilter(username))
  }

  lemma {:induction false} ParensAppend(s: string, t: string)
    ensures Parens(s + t) == Parens(s) + Parens(t)
  {
    if s == "" {
      assert s + t == t;
    } else {
      ParensAppend(s[1..], t);
      assert (s + t)[0] == s[0] && (s + t)[1..] == s[1..] + t;
      var front := if IsParen(s[0]) then [s[0]] else "";
      assert front + (Parens(s[1..]) + Parens(t)) == front + Parens(s[1..]) + Parens(t);
    }
  }

  lemma {:induction false} ParensCount(s: string)
    ensures CountChar(s, '(') == CountChar(Parens(s), '(') && CountChar(s, ')') == CountChar(Parens(s), ')')
  {
    if s != "" {
      ParensCount(s[1..]);
      if IsParen(s[0]) {
        assert Parens(s)[1..] == Parens(s[1..]);
      } else {
        assert Parens(s) == Parens(s[1..]);
      }
    }
  }

  /** Escaped text has no parentheses. */
  lemma {:induction false} EscapedHasNoParens(s: string)
    ensures Parens(EscapedFilter(s)) == ""
  {
    if s != "" {
      var n := |s| - 1;
      EscapedHasNoParens(s[..n]);
      ParensAppend(EscapedFilter(s[..n]), EscapeFilterByte(s[n]));
      NoParens(EscapeFilterByte(s[n]));
    }
  }

  lemma {:induction false} NoParens(s: string)
    requires forall i :: 0 <= i < |s| ==> !IsParen(s[i])
    ensures Parens(s) == ""
  {
    if s != "" {
      NoParens(s[1..]);
    }
  }

  lemma {:induction false} ReplacingKeepsParens(s: string, p: string, with: string)
    requires p != "" && Parens(p) == "" && Parens(with) == ""
    ensures Parens(ReplaceAll(s, p, with)) == Parens(s)
    decreases |s|
  {
    if s == "" {
    } else if HasPrefix(s, p) {
      ReplacingKeepsParens(s[|p|..], p, with);
      ParensAppend(with, ReplaceAll(s[|p|..], p, with));
      ParensAppend(p, s[|p|..]);
      assert s == p + s[|p|..];
    } else {
      ReplacingKeepsParens(s[1..], p, with);
      assert ReplaceAll(s, p, with)[1..] == ReplaceAll(s[1..], p, with);
    }
  }

  lemma UsernameHasNoParens()
    ensures Parens(USERNAME) == ""
  {
    NoParens(USERNAME);
  }

  lemma DnHasNoParens()
    ensures Parens(DN) == ""
  {
    NoParens(DN);
  }

  /** Whatever the user name, the filter has the parentheses of the template, in the same order; so whether the
      filter is refused, and how, depends on the template alone. */
  lemma UserFilterHasTemplateParens(template: string, username: string)
    ensures var t := UserTemplate(template);
            && Parens(ReplaceAll(t, USERNAME, EscapedFilter(username))) == Parens(t)
            && BuildUserFilter(template, username) ==
                 if !Contains(t, USERNAME) then Err(MissingPlaceholder)
                 else if CountChar(t, '(') != CountChar(t, ')') || CountChar(t, '(') == 0 then Err(InjectionDetected)
                 else Ok(ReplaceAll(t, USERNAME, EscapedFilter(username)))
  {
    var t := UserTemplate(template);
    UsernameHasNoParens();
    EscapedHasNoParens(username);
    ReplacingKeepsParens(t, USERNAME, EscapedFilter(username));
    ParensCount(t);
    ParensCount(ReplaceAll(t, USERNAME, EscapedFilter(username)));
  }

  /** The same holds for group filters, although the second replacement also runs over the inserted name. */
  lemma GroupFilterHasTemplateParens(template: string, userDn: string, username: string)
    ensures Parens(BuildGroupFilter(template, userDn, username)) == Parens(GroupTemplate(template))
  {
    UsernameHasNoParens();
    DnHasNoParens();
    EscapedHasNoParens(userDn);
    EscapedHasNoParens(username);
    ReplacingKeepsParens(GroupTemplate(template), DN, EscapedFilter(userDn));
    ReplacingKeepsParens(ReplaceAll(GroupTemplate(template), DN, EscapedFilter(userDn)), USERNAME, EscapedFilter(username));
  }

  // ---------- What the placeholders become ----------

  datatype Piece = Literal(text: string) | Dn | User

  function PieceText(p: Piece, dn: string, username: string): string {
    match p
    case Literal(text) => text
    case Dn => dn
    case User => username
  }

  /** A template, or what is made of it: its pieces with these values for the placeholders. */
  function Filled(pieces: seq<Piece>, dn: string, username: string): string {
    if pieces == [] then "" else PieceText(pieces[0], dn, username) + Filled(pieces[1..], dn, username)
  }

  /** The text between placeholders has no brace in it, and after a {dn} it begins with a parenthesis. */
  predicate IsTemplate(pieces: seq<Piece>) {
    && (forall i :: 0 <= i < |pieces| && pieces[i].Literal? ==> '{' !in pieces[i].text)
    && (forall i :: 0 <= i < |pieces| - 1 && pieces[i].Dn? ==>
          pieces[i + 1].Literal? && pieces[i + 1].text != "" && pieces[i + 1].text[0] == ')')
  }

  lemma TemplateTail(pieces: seq<Piece>)
    requires IsTemplate(pieces) && pieces != []
    ensures IsTemplate(pieces[1..])
  {
    var tail := pieces[1..];
    assert forall i :: 0 <= i < |tail| ==> tail[i] == pieces[i + 1];
  }

  lemma {:induction false} ReplaceSkips(t: string, s: string, p: string, with: string)
    requires p != "" && p[0] !in t
    ensures ReplaceAll(t + s, p, with) == t + ReplaceAll(s, p, with)
  {
    if t == "" {
      assert t + s == s;
    } else {
      ReplaceSkips(t[1..], s, p, with);
      assert (t + s)[0] == t[0] && (t + s)[1..] == t[1..] + s;
    }
  }

  lemma ReplaceHits(s: string, p: string, with: string)
    requires p != ""
    ensures ReplaceAll(p + s, p, with) == with + ReplaceAll(s, p, with)
  {
    assert (p + s)[|p|..] == s;
  }

  lemma ReachesOver(s: string, t: string, p: string)
    requires |s| < |p| <= |s + t| && t[0] !in p
    ensures !HasPrefix(s + t, p)
  {
    assert p[|s|] in p && (s + t)[|s|] == t[0];
  }

  /** No occurrence reaches over a character that the pattern does not have. */
  lemma {:induction false} ReplaceApart(s: string, t: string, p: string, with: string)
    requires p != "" && (t != "" ==> t[0] !in p)
    ensures ReplaceAll(s + t, p, with) == ReplaceAll(s, p, with) + ReplaceAll(t, p, with)
    decreases |s|
  {
    if |s| < |p| <= |s + t| {
      ReachesOver(s, t, p);
    }
    if s == "" {
      assert s + t == t;
    } else if HasPrefix(s + t, p) {
      assert HasPrefix(s, p) && (s + t)[|p|..] == s[|p|..] + t;
      ReplaceApart(s[|p|..], t, p, with);
    } else {
      assert HasPrefix(s, p) ==> HasPrefix(s + t, p);
      assert (s + t)[0] == s[0] && (s + t)[1..] == s[1..] + t;
      ReplaceApart(s[1..], t, p, with);
    }
  }

  lemma UserIsNoDn(s: string, with: string)
    ensures ReplaceAll(USERNAME + s, DN, with) == USERNAME + ReplaceAll(s, DN, with)
  {
    var rest := "username}";
    assert USERNAME == "{" + rest && USERNAME[1] != DN[1];
    assert (USERNAME + s)[1] == USERNAME[1] && (USERNAME + s)[1..] == rest + s;
    ReplaceSkips(rest, s, DN, with);
    assert ["{"[0]] + (rest + ReplaceAll(s, DN, with)) == USERNAME + ReplaceAll(s, DN, with);
  }

  lemma {:induction false} DnFilled(pieces: seq<Piece>, dn: string)
    requires IsTemplate(pieces)
    ensures ReplaceAll(Filled(pieces, DN, USERNAME), DN, dn) == Filled(pieces, dn, USERNAME)
  {
    if pieces != [] {
      TemplateTail(pieces);
      DnFilled(pieces[1..], dn);
      var rest := Filled(pieces[1..], DN, USERNAME);
      match pieces[0]
      case Literal(text) => ReplaceSkips(text, rest, DN, dn);
      case Dn => ReplaceHits(rest, DN, dn);
      case User => UserIsNoDn(rest, dn);
    }
  }

  lemma {:induction false} UserFilled(pieces: seq<Piece>, dn: string, username: string)
    requires IsTemplate(pieces)
    ensures ReplaceAll(Filled(pieces, dn, USERNAME), USERNAME, username) ==
            Filled(pieces, ReplaceAll(dn, USERNAME, username), username)
  {
    if pieces != [] {
      TemplateTail(pieces);
      UserFilled(pieces[1..], dn, username);
      var rest := Filled(pieces[1..], dn, USERNAME);
      match pieces[0]
      case Literal(text) => ReplaceSkips(text, rest, USERNAME, username);
      case Dn =>
        AfterDn(pieces, dn);
        ReplaceApart(dn, rest, USERNAME, username);
      case User => ReplaceHits(rest, USERNAME, username);
    }
  }

  lemma AfterDn(pieces: seq<Piece>, dn: string)
    requires IsTemplate(pieces) && pieces != [] && pieces[0].Dn?
    ensures var rest := Filled(pieces[1..], dn, USERNAME); rest != "" ==> rest[0] !in USERNAME
  {
    if |pieces| > 1 {
      assert pieces[1..][0] == pieces[1];
      assert Filled(pieces[1..], dn, USERNAME)[0] == ')';
    }
  }

  /** In a user filter, every {username} becomes the escaped name, and all else stays. */
  lemma UserFilterIsFilled(template: string, pieces: seq<Piece>, username: string)
    requires IsTemplate(pieces) && forall i :: 0 <= i < |pieces| ==> !pieces[i].Dn?
    requires UserTemplate(template) == Filled(pieces, DN, USERNAME)
    ensures var r := BuildUserFilter(template, username); r.Ok? ==> r.value == Filled(pieces, DN, EscapedFilter(username))
  {
    UserFilled(pieces, DN, EscapedFilter(username));
    WithoutDn(pieces, ReplaceAll(DN, USERNAME, EscapedFilter(username)), DN, EscapedFilter(username));
  }

  lemma {:induction false} WithoutDn(pieces: seq<Piece>, dn: string, dn': string, username: string)
    requires forall i :: 0 <= i < |pieces| ==> !pieces[i].Dn?
    ensures Filled(pieces, dn, username) == Filled(pieces, dn', username)
  {
    if pieces != [] {
      WithoutDn(pieces[1..], dn, dn', username);
    }
  }

  /** In a group filter, every {username} becomes the escaped name, and every {dn} the escaped DN in which each {username},
      too, has become the escaped name. */
  lemma GroupFilterIsFilled(template: string, pieces: seq<Piece>, userDn: string, username: string)
    requires IsTemplate(pieces) && GroupTemplate(template) == Filled(pieces, DN, USERNAME)
    ensures var dn, name := EscapedFilter(userDn), EscapedFilter(username);
            BuildGroupFilter(template, userDn, username) == Filled(pieces, ReplaceAll(dn, USERNAME, name), name)
  {
    DnFilled(pieces, EscapedFilter(userDn));
    UserFilled(pieces, EscapedFilter(userDn), EscapedFilter(username));
  }

  /** That is the escaped DN itself, whatever the name, if and only if there is no {username} in it. */
  lemma DnIsInserted(userDn: string)
    ensures (forall username :: ReplaceAll(EscapedFilter(userDn), USERNAME, EscapedFilter(username)) == EscapedFilter(userDn))
            <==> !Contains(EscapedFilter(userDn), USERNAME)
  {
    var dn := EscapedFilter(userDn);
    if Contains(dn, USERNAME) {
      ReplaceShrinks(dn, USERNAME);
      assert EscapedFilter("") == "";
    } else {
      forall username {
        ReplaceAbsent(dn, USERNAME, EscapedFilter(username));
      }
    }
  }

  lemma AtStart(s: string, p: string)
    ensures At(s, p, 0) <==> HasPrefix(s, p)
  {
    assert |p| <= |s| ==> s[0..|p|] == s[..|p|];
  }

  lemma TailContains(s: string, p: string)
    requires s != "" && !HasPrefix(s, p)
    ensures Contains(s, p) <==> Contains(s[1..], p)
  {
    ContainsMeans(s, p);
    ContainsMeans(s[1..], p);
    if Contains(s, p) {
      var i :| At(s, p, i);
      AtStart(s, p);
      assert s[1..][i - 1..i - 1 + |p|] == s[i..i + |p|];
      assert At(s[1..], p, i - 1);
    }
    if Contains(s[1..], p) {
      var i :| At(s[1..], p, i);
      assert s[1..][i..i + |p|] == s[i + 1..i + 1 + |p|];
      assert At(s, p, i + 1);
    }
  }

  lemma PrefixIsContained(s: string, p: string)
    requires HasPrefix(s, p)
    ensures Contains(s, p)
  {
    ContainsMeans(s, p);
    assert At(s, p, 0);
  }

  lemma {:induction false} ReplaceAbsent(s: string, p: string, with: string)
    requires p != "" && !Contains(s, p)
    ensures ReplaceAll(s, p, with) == s
  {
    if s != "" {
      if HasPrefix(s, p) {
        PrefixIsContained(s, p);
      } else {
        TailContains(s, p);
        ReplaceAbsent(s[1..], p, with);
        assert [s[0]] + s[1..] == s;
      }
    }
  }

  lemma {:induction false} ReplaceShrinks(s: string, p: string)
    requires p != ""
    ensures |ReplaceAll(s, p, "")| <= |s| && (Contains(s, p) ==> |ReplaceAll(s, p, "")| < |s|)
    decreases |s|
  {
    if s == "" {
      ContainsMeans(s, p);
    } else if HasPrefix(s, p) {
      ReplaceShrinks(s[|p|..], p);
    } else {
      TailContains(s, p);
      ReplaceShrinks(s[1..], p);
    }
  }
}
