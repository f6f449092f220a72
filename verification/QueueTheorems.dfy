/** Listings as postqueue -p prints them, and what the parser recovers from them. */
module QueueTheorems {
  import opened Wrappers
  import opened Text
  import opened Decimals
  import opened Queue

  /** A line below an entry's first. */
  datatype Detail = Reason(pad: string, text: string) | Recipient(pad: string, address: string)

  /** A queue entry, with the spacing it is printed with: `gaps` separate the size, the parts of the date and the
      sender from what stands before them. */
  datatype Entry = Entry(id: string, status: Status, size: nat, date: seq<string>, sender: string,
                         gaps: seq<string>, details: seq<Detail>)

  predicate Blank(s: string) { forall i :: 0 <= i < |s| ==> s[i] == ' ' || s[i] == '\t' }

  predicate GoodDetail(d: Detail) {
    match d
    case Reason(pad, text) => Blank(pad) && '\n' !in text
    case Recipient(pad, address) => Blank(pad) && pad != "" && IsToken(address) && address[0] != '('
  }

  predicate GoodId(id: string) {
    IsToken(id) && id[0] != '-' && id[0] != '(' && id[|id| - 1] != '*' && id[|id| - 1] != '!'
  }

  /** Every string is a token and every gap is blank and not empty. */
  predicate Spaceable(gaps: seq<string>, tokens: seq<string>) {
    |gaps| == |tokens| && forall i :: 0 <= i < |gaps| ==> gaps[i] != "" && Blank(gaps[i]) && IsToken(tokens[i])
  }

  function Columns(e: Entry): seq<string> { [Decimal(e.size)] + e.date + [e.sender] }

  predicate GoodEntry(e: Entry) {
    && GoodId(e.id)
    && (e.status == Active || e.status == Hold || e.status == Deferred)
    && e.size <= MAX_INT64
    && |e.date| >= 2 && "is" !in e.date
    && Spaceable(e.gaps, Columns(e))
    && forall i :: 0 <= i < |e.details| ==> GoodDetail(e.details[i])
  }

  // ---------- The text of a listing ----------

  function Marker(s: Status): string {
    if s == Active then "*" else if s == Hold then "!" else ""
  }

  function Spaced(gaps: seq<string>, tokens: seq<string>): string
    requires |gaps| == |tokens|
  {
    if tokens == [] then "" else gaps[0] + tokens[0] + Spaced(gaps[1..], tokens[1..])
  }

  function EntryLine(e: Entry): string
    requires GoodEntry(e)
  {
    e.id + Marker(e.status) + Spaced(e.gaps, Columns(e))
  }

  function DetailLine(d: Detail): string {
    match d
    case Reason(pad, text) => pad + "(" + text + ")"
    case Recipient(pad, address) => pad + address
  }

  function DetailLines(details: seq<Detail>): seq<string> {
    if details == [] then [] else [DetailLine(details[0])] + DetailLines(details[1..])
  }

  /** An entry's lines; an empty line ends it. */
  function EntryLines(e: Entry): seq<string>
    requires GoodEntry(e)
  {
    [EntryLine(e)] + DetailLines(e.details) + [""]
  }

  predicate GoodEntries(entries: seq<Entry>) { forall i :: 0 <= i < |entries| ==> GoodEntry(entries[i]) }

  function AllLines(entries: seq<Entry>): seq<string>
    requires GoodEntries(entries)
  {
    if entries == [] then [] else EntryLines(entries[0]) + AllLines(entries[1..])
  }

  predicate GoodHeader(line: string) { HasPrefix(line, "-Queue ID-") && '\n' !in line && !Contains(line, EMPTY_QUEUE) }

  predicate GoodFooter(line: string) {
    && HasPrefix(line, "-- ") && '\n' !in line && !IsSpace(line[|line| - 1]) && !Contains(line, EMPTY_QUEUE)
  }

  function Listing(header: string, entries: seq<Entry>, footer: string): seq<string>
    requires GoodEntries(entries)
  {
    [header] + AllLines(entries) + [footer]
  }

  // ---------- What the parser should find ----------

  function Noted(m: Message, d: Detail): Message {
    match d
    case Reason(_, text) => m.(reason := text)
    case Recipient(_, address) => m.(recipient := address)
  }

  function Apply(m: Message, details: seq<Detail>): Message
    decreases |details|
  {
    if details == [] then m else Apply(Noted(m, details[0]), details[1..])
  }

  function Expected(env: Env, e: Entry): Message {
    Apply(Message(e.id, e.size, Arrival(env, e.date), e.sender, "", e.status, "", ""), e.details)
  }

  function AllExpected(env: Env, entries: seq<Entry>): seq<Message> {
    seq(|entries|, i requires 0 <= i < |entries| => Expected(env, entries[i]))
  }

  // ---------- The first line of an entry ----------

  lemma {:induction false} FieldsSpaced(gaps: seq<string>, tokens: seq<string>)
    requires Spaceable(gaps, tokens)
    ensures Fields(Spaced(gaps, tokens)) == tokens
    ensures tokens != [] ==> var s := Spaced(gaps, tokens); s != "" && IsSpace(s[0]) && !IsSpace(s[|s| - 1])
  {
    if tokens == [] {
      FieldsOfSpaces("");
    } else {
      var rest := Spaced(gaps[1..], tokens[1..]);
      FieldsSpaced(gaps[1..], tokens[1..]);
      FieldsStep(gaps[0], tokens[0], rest);
      assert Spaced(gaps, tokens)[0] == gaps[0][0];
      assert rest == "" ==> Spaced(gaps, tokens) == gaps[0] + tokens[0];
    }
  }

  lemma MarkedId(e: Entry)
    requires GoodEntry(e)
    ensures var raw := e.id + Marker(e.status);
            IsToken(raw) && raw[0] == e.id[0] && StatusOf(raw) == e.status && WithoutMarker(raw) == e.id
  {
    var raw := e.id + Marker(e.status);
    assert raw[..|e.id|] == e.id;
    assert e.status == Deferred ==> raw == e.id;
  }

  lemma ParseIntOfDecimal(n: nat)
    requires n <= MAX_INT64
    ensures ParseInt(Decimal(n)) == n
  {
    DecimalRoundTrip(n);
    var s := Decimal(n);
    assert IsDigit(s[0]);
    DigitLenOf(s, "");
    assert s + "" == s && s[..|s|] == s;
  }

  lemma EntryLineFields(e: Entry)
    requires GoodEntry(e)
    ensures Fields(EntryLine(e)) == [e.id + Marker(e.status)] + Columns(e)
    ensures var s := EntryLine(e); s != "" && s[0] == e.id[0] && !IsSpace(s[|s| - 1])
  {
    MarkedId(e);
    FieldsSpaced(e.gaps, Columns(e));
    var raw, rest := e.id + Marker(e.status), Spaced(e.gaps, Columns(e));
    TokenThen(raw, rest);
    assert (raw + rest)[0] == raw[0] && (raw + rest)[|raw + rest| - 1] == rest[|rest| - 1];
  }

  lemma EntryLineIsEntry(e: Entry)
    requires GoodEntry(e)
    ensures !Skipped(EntryLine(e)) && StartsEntry(EntryLine(e))
  {
    EntryLineFields(e);
    TrimmedAlready(EntryLine(e));
  }

  lemma EntryLineStarts(env: Env, e: Entry)
    requires GoodEntry(e) && |Fields(EntryLine(e))| >= 5
    ensures Start(env, Fields(EntryLine(e))) == Message(e.id, e.size, Arrival(env, e.date), e.sender, "", e.status, "", "")
  {
    EntryLineFields(e);
    MarkedId(e);
    ParseIntOfDecimal(e.size);
    var f := Fields(EntryLine(e));
    assert f[2..|f| - 1] == e.date;
  }

  // ---------- The lines below it ----------

  lemma BlankIsSpaces(s: string)
    requires Blank(s)
    ensures Spaces(s)
  {
  }

  lemma DetailLineTrimmed(d: Detail)
    requires Blank(d.pad) && (d.Recipient? ==> IsToken(d.address))
    ensures TrimSpace(DetailLine(d)) == (match d case Reason(_, text) => "(" + text + ")" case Recipient(_, a) => a)
  {
    BlankIsSpaces(d.pad);
    match d
    case Reason(pad, text) =>
      TrimSpaceOf(pad, "(" + text + ")", "");
      assert pad + ("(" + text + ")") + "" == DetailLine(d);
    case Recipient(pad, address) =>
      TrimSpaceOf(pad, address, "");
      assert pad + address + "" == DetailLine(d);
  }

  lemma RecipientIsOneField(pad: string, address: string)
    requires Blank(pad) && IsToken(address)
    ensures Fields(pad + address) == [address]
  {
    BlankIsSpaces(pad);
    FieldsStep(pad, address, "");
    assert pad + address + "" == pad + address;
    FieldsOfSpaces("");
  }

  lemma Indented(line: string)
    requires line != "" && (line[0] == ' ' || line[0] == '\t' || line[0] == '(')
    ensures !StartsEntry(line) && !HasPrefix(line, "-Queue ID-")
  {
    assert [line[0]] <= line;
  }

  lemma ReasonIsDetail(pad: string, text: string)
    requires Blank(pad)
    ensures !Skipped(DetailLine(Reason(pad, text))) && !StartsEntry(DetailLine(Reason(pad, text)))
  {
    var line := DetailLine(Reason(pad, text));
    DetailLineTrimmed(Reason(pad, text));
    assert line[0] == if pad == "" then '(' else pad[0];
    Indented(line);
    assert TrimSpace(line)[0] == '(';
  }

  lemma RecipientIsDetail(pad: string, address: string)
    requires Blank(pad) && pad != "" && IsToken(address)
    ensures !Skipped(pad + address) && !StartsEntry(pad + address)
  {
    BlankIsSpaces(pad);
    TrimSpaceOf(pad, address, "");
    RecipientIsOneField(pad, address);
    var line := pad + address;
    assert line + "" == line && line[0] == pad[0];
    Indented(line);
    assert "-- " <= address ==> IsSpace(address[2]);
  }

  lemma DetailAmends(m: Message, d: Detail)
    requires GoodDetail(d)
    ensures Amend(m, DetailLine(d)) == Noted(m, d)
  {
    DetailLineTrimmed(d);
    if d.Reason? {
      var t := "(" + d.text + ")";
      assert t[1..|t| - 1] == d.text;
    }
  }

  lemma {:induction false} DetailsParse(env: Env, m: Message, details: seq<Detail>, rest: seq<string>)
    requires forall i :: 0 <= i < |details| ==> GoodDetail(details[i])
    ensures Messages(env, DetailLines(details) + rest, Some(m)) == Messages(env, rest, Some(Apply(m, details)))
    decreases |details|
  {
    var lines := DetailLines(details) + rest;
    if details == [] {
      assert lines == rest;
    } else {
      assert lines[0] == DetailLine(details[0]) && lines[1..] == DetailLines(details[1..]) + rest;
      match details[0] {
        case Reason(pad, text) => ReasonIsDetail(pad, text);
        case Recipient(pad, address) => RecipientIsDetail(pad, address);
      }
      DetailAmends(m, details[0]);
      DetailsParse(env, Amend(m, lines[0]), details[1..], rest);
    }
  }

  // ---------- The whole listing ----------

  lemma SkippedLine(env: Env, line: string, rest: seq<string>, current: Option<Message>)
    requires Skipped(line)
    ensures Messages(env, [line] + rest, current) == Messages(env, rest, current)
  {
    assert ([line] + rest)[1..] == rest;
  }

  lemma EntryParses(env: Env, e: Entry, rest: seq<string>, current: Option<Message>)
    requires GoodEntry(e)
    ensures Messages(env, EntryLines(e) + rest, current) == Flush(current) + Messages(env, rest, Some(Expected(env, e)))
  {
    var below := DetailLines(e.details) + ([""] + rest);
    assert EntryLines(e) + rest == [EntryLine(e)] + below && ([EntryLine(e)] + below)[1..] == below;
    EntryLineIsEntry(e);
    EntryLineStarts(env, e);
    DetailsParse(env, Start(env, Fields(EntryLine(e))), e.details, [""] + rest);
    SkippedLine(env, "", rest, Some(Expected(env, e)));
  }

  /** Lines after the last entry that are all skipped. */
  predicate Closing(rest: seq<string>) { forall i :: 0 <= i < |rest| ==> Skipped(rest[i]) }

  lemma {:induction false} ClosingParses(env: Env, rest: seq<string>, current: Option<Message>)
    requires Closing(rest)
    ensures Messages(env, rest, current) == Flush(current)
  {
    if rest != [] {
      ClosingParses(env, rest[1..], current);
    }
  }

  lemma ExpectedCons(env: Env, entries: seq<Entry>)
    requires entries != []
    ensures AllExpected(env, entries) == [Expected(env, entries[0])] + AllExpected(env, entries[1..])
  {
  }

  lemma {:induction false} EntriesParse(env: Env, entries: seq<Entry>, rest: seq<string>, current: Option<Message>)
    requires GoodEntries(entries) && Closing(rest)
    ensures Messages(env, AllLines(entries) + rest, current) == Flush(current) + AllExpected(env, entries)
  {
    if entries == [] {
      assert AllLines(entries) + rest == rest;
      ClosingParses(env, rest, current);
    } else {
      var below := AllLines(entries[1..]) + rest;
      assert AllLines(entries) + rest == EntryLines(entries[0]) + below;
      EntryParses(env, entries[0], below, current);
      EntriesParse(env, entries[1..], rest, Some(Expected(env, entries[0])));
      ExpectedCons(env, entries);
    }
  }

  lemma HeadOfTrim(s: string, p: string)
    requires HasPrefix(s, p) && p != "" && !IsSpace(p[0]) && !IsSpace(s[|s| - 1])
    ensures TrimSpace(s) == s
  {
    TrimmedAlready(s);
  }

  lemma ListingParses(env: Env, header: string, entries: seq<Entry>, footer: string)
    requires GoodHeader(header) && GoodEntries(entries) && GoodFooter(footer)
    ensures Messages(env, Listing(header, entries, footer), None) == AllExpected(env, entries)
  {
    var rest := AllLines(entries) + [footer];
    assert Listing(header, entries, footer) == [header] + rest;
    SkippedLine(env, header, rest, None);
    HeadOfTrim(footer, "-- ");
    EntriesParse(env, entries, [footer], None);
  }

  // ---------- The phrase for an empty queue ----------

  lemma Regrouped(pre: string, m: string, sp: string, q: string, i: string, e: string, post: string)
    ensures pre + (m + sp + q + sp + i + e) + post == (pre + m) + (sp + q + (sp + i + (e + post)))
  {
  }

  /** A line with the phrase has the fields "queue" and "is", in this order, and more after them. */
  lemma PhraseFields(line: string) returns (x: seq<string>, y: seq<string>)
    requires Contains(line, EMPTY_QUEUE)
    ensures Fields(line) == x + ["queue", "is"] + y && y != []
  {
    ContainsMeans(line, EMPTY_QUEUE);
    var i :| At(line, EMPTY_QUEUE, i);
    x, y := PhraseFieldsAt(line, EMPTY_QUEUE, i);
  }

  lemma PhraseFieldsAt(line: string, p: string, i: int) returns (x: seq<string>, y: seq<string>)
    requires At(line, p, i) && p == "Mail" + " " + "queue" + " " + "is" + " empty"
    ensures Fields(line) == x + ["queue", "is"] + y && y != []
  {
    var pre, post := line[..i], line[i + |p|..];
    assert line == pre + p + post;
    Regrouped(pre, "Mail", " ", "queue", "is", " empty", post);
    x, y := PhraseFieldsOf(pre + "Mail", " empty" + post);
  }

  lemma PhraseFieldsOf(a: string, b: string) returns (x: seq<string>, y: seq<string>)
    requires |b| > 1 && IsSpace(b[0]) && !IsSpace(b[1])
    ensures Fields(a + (" " + "queue" + (" " + "is" + b))) == x + ["queue", "is"] + y && y != []
  {
    x, y := Fields(a), Fields(b);
    TwoTokens(a, " ", "queue", "is", b);
    assert x + (["queue"] + (["is"] + y)) == x + ["queue", "is"] + y;
    FieldsSkip(b);
    FirstField(b[1..]);
  }

  lemma NextToken(gap: string, s: string, rest: string, fields: seq<string>)
    requires gap != "" && Spaces(gap) && IsToken(s) && rest != "" && IsSpace(rest[0]) && Fields(rest) == fields
    ensures var m := gap + s + rest; m != "" && IsSpace(m[0]) && Fields(m) == [s] + fields
  {
    assert (gap + s + rest)[0] == gap[0];
    FieldsStep(gap, s, rest);
  }

  lemma TwoTokens(a: string, gap: string, s: string, t: string, b: string)
    requires gap != "" && Spaces(gap) && IsToken(s) && IsToken(t) && b != "" && IsSpace(b[0])
    ensures Fields(a + (gap + s + (gap + t + b))) == Fields(a) + ([s] + ([t] + Fields(b)))
  {
    NextToken(gap, t, b, Fields(b));
    NextToken(gap, s, gap + t + b, [t] + Fields(b));
    FieldsAppend(a, gap + s + (gap + t + b));
  }

  lemma IsInDate(raw: string, size: string, date: seq<string>, sender: string, x: seq<string>, y: seq<string>)
    requires [raw] + ([size] + date + [sender]) == x + ["queue", "is"] + y && y != []
    ensures size == "is" || "is" in date
  {
    var f, k := [raw] + ([size] + date + [sender]), |x| + 1;
    assert (x + ["queue", "is"] + y)[k] == "is" && k < |f| - 1;
    assert f[k] == if k == 1 then size else date[k - 2];
  }

  lemma EntryLineHasNoPhrase(e: Entry)
    requires GoodEntry(e)
    ensures !Contains(EntryLine(e), EMPTY_QUEUE)
  {
    DecimalRoundTrip(e.size);
    assert IsDigit(Decimal(e.size)[0]);
    EntryLineFields(e);
    if Contains(EntryLine(e), EMPTY_QUEUE) {
      var x, y := PhraseFields(EntryLine(e));
      IsInDate(e.id + Marker(e.status), Decimal(e.size), e.date, e.sender, x, y);
      assert false;
    }
  }

  lemma RecipientHasNoPhrase(pad: string, address: string)
    requires Blank(pad) && IsToken(address)
    ensures !Contains(pad + address, EMPTY_QUEUE)
  {
    if Contains(pad + address, EMPTY_QUEUE) {
      var x, y := PhraseFields(pad + address);
      RecipientIsOneField(pad, address);
      assert false;
    }
  }

  lemma AtInside(u: string, s: string, v: string, p: string, i: int)
    requires At(s, p, i)
    ensures At(u + s + v, p, |u| + i)
  {
    assert (u + s + v)[|u| + i..|u| + i + |p|] == s[i..i + |p|];
  }

  /** Text around `s` in which the ends of `p` cannot lie does not matter. */
  lemma ContainsInside(u: string, s: string, v: string, p: string)
    requires p != "" && p[0] !in u && p[|p| - 1] !in v
    ensures Contains(u + s + v, p) <==> Contains(s, p)
  {
    var t := u + s + v;
    ContainsMeans(t, p);
    ContainsMeans(s, p);
    if Contains(t, p) {
      forall k | 0 <= k < |u| ensures t[k] != p[0] {
        assert t[k] == u[k];
      }
      forall k | |u + s| <= k < |t| ensures t[k] != p[|p| - 1] {
        assert t[k] == v[k - |u + s|];
      }
      var i :| At(t, p, i);
      AtChars(t, p, i);
      assert t[i] == p[0] && t[i + |p| - 1] == p[|p| - 1];
      assert s[i - |u|..i - |u| + |p|] == t[i..i + |p|];
      assert At(s, p, i - |u|);
    }
    if Contains(s, p) {
      var i :| At(s, p, i);
      AtInside(u, s, v, p, i);
    }
  }

  lemma ReasonPhrase(pad: string, text: string)
    requires Blank(pad)
    ensures Contains(pad + "(" + text + ")", EMPTY_QUEUE) <==> Contains(text, EMPTY_QUEUE)
  {
    ContainsInside(pad + "(", text, ")", EMPTY_QUEUE);
  }

  lemma OnOneSide(s: string, c: char, t: string, p: string, i: int)
    requires p != "" && c !in p && At(s + [c] + t, p, i)
    ensures At(s, p, i) || At(t, p, i - |s| - 1)
  {
    var u := s + [c] + t;
    AtChars(u, p, i);
    assert u[|s|] == c;
    assert !(i <= |s| < i + |p|);
    if i + |p| <= |s| {
      assert s[i..i + |p|] == u[i..i + |p|];
    } else {
      assert t[i - |s| - 1..i - |s| - 1 + |p|] == u[i..i + |p|];
    }
  }

  /** Text without `c` lies on one side of it. */
  lemma ContainsAcross(s: string, c: char, t: string, p: string)
    requires p != "" && c !in p
    ensures Contains(s + [c] + t, p) <==> Contains(s, p) || Contains(t, p)
  {
    ContainsMeans(s + [c] + t, p);
    ContainsMeans(s, p);
    ContainsMeans(t, p);
    if Contains(s + [c] + t, p) {
      var i :| At(s + [c] + t, p, i);
      OnOneSide(s, c, t, p, i);
    }
    if Contains(s, p) {
      var i :| At(s, p, i);
      AtInside("", s, [c] + t, p, i);
      assert "" + s + ([c] + t) == s + [c] + t;
    }
    if Contains(t, p) {
      var i :| At(t, p, i);
      AtInside(s + [c], t, "", p, i);
      assert s + [c] + t + "" == s + [c] + t;
    }
  }

  /** Some line contains `p`. */
  predicate InSomeLine(lines: seq<string>, p: string) {
    lines != [] && (Contains(lines[0], p) || InSomeLine(lines[1..], p))
  }

  lemma {:induction false} InSomeLineAppend(s: seq<string>, t: seq<string>, p: string)
    ensures InSomeLine(s + t, p) <==> InSomeLine(s, p) || InSomeLine(t, p)
  {
    if s == [] {
      assert s + t == t;
    } else {
      InSomeLineAppend(s[1..], t, p);
      assert (s + t)[1..] == s[1..] + t;
    }
  }

  lemma {:induction false} ContainsInJoin(lines: seq<string>, p: string)
    requires lines != [] && p != "" && '\n' !in p
    ensures Contains(Join(lines, '\n'), p) <==> InSomeLine(lines, p)
  {
    if |lines| > 1 {
      ContainsInJoin(lines[1..], p);
      ContainsAcross(lines[0], '\n', Join(lines[1..], '\n'), p);
    }
  }

  predicate MentionsEmpty(d: Detail) { d.Reason? && Contains(d.text, EMPTY_QUEUE) }

  /** Some reason of the entry has the phrase in it. */
  predicate DetailsMention(details: seq<Detail>) {
    details != [] && (MentionsEmpty(details[0]) || DetailsMention(details[1..]))
  }

  predicate EntriesMention(entries: seq<Entry>) {
    entries != [] && (DetailsMention(entries[0].details) || EntriesMention(entries[1..]))
  }

  lemma {:induction false} PhraseInDetails(details: seq<Detail>)
    requires forall i :: 0 <= i < |details| ==> GoodDetail(details[i])
    ensures InSomeLine(DetailLines(details), EMPTY_QUEUE) <==> DetailsMention(details)
  {
    if details != [] {
      PhraseInDetails(details[1..]);
      assert DetailLines(details)[1..] == DetailLines(details[1..]);
      match details[0] {
        case Reason(pad, text) => ReasonPhrase(pad, text);
        case Recipient(pad, address) => RecipientHasNoPhrase(pad, address);
      }
    }
  }

  lemma PhraseInEntry(e: Entry)
    requires GoodEntry(e)
    ensures InSomeLine(EntryLines(e), EMPTY_QUEUE) <==> DetailsMention(e.details)
  {
    PhraseInDetails(e.details);
    EntryLineHasNoPhrase(e);
    OneLine(EntryLine(e), EMPTY_QUEUE);
    OneLine("", EMPTY_QUEUE);
    InSomeLineAppend([EntryLine(e)] + DetailLines(e.details), [""], EMPTY_QUEUE);
    InSomeLineAppend([EntryLine(e)], DetailLines(e.details), EMPTY_QUEUE);
  }

  lemma OneLine(line: string, p: string)
    ensures InSomeLine([line], p) <==> Contains(line, p)
  {
    assert [line][1..] == [];
  }

  lemma {:induction false} PhraseInEntries(entries: seq<Entry>)
    requires GoodEntries(entries)
    ensures InSomeLine(AllLines(entries), EMPTY_QUEUE) <==> EntriesMention(entries)
  {
    if entries != [] {
      PhraseInEntry(entries[0]);
      PhraseInEntries(entries[1..]);
      InSomeLineAppend(EntryLines(entries[0]), AllLines(entries[1..]), EMPTY_QUEUE);
    }
  }

  // ---------- The round trip ----------

  lemma {:induction false} JoinEnds(lines: seq<string>)
    requires lines != [] && lines[0] != "" && lines[|lines| - 1] != ""
    ensures var s := Join(lines, '\n');
            s != "" && s[0] == lines[0][0] && s[|s| - 1] == lines[|lines| - 1][|lines[|lines| - 1]| - 1]
  {
    if |lines| > 1 {
      JoinLast(lines);
    }
  }

  lemma {:induction false} JoinLast(lines: seq<string>)
    requires lines != [] && lines[|lines| - 1] != ""
    ensures var s, last := Join(lines, '\n'), lines[|lines| - 1]; s != "" && s[|s| - 1] == last[|last| - 1]
  {
    if |lines| > 1 {
      JoinLast(lines[1..]);
    }
  }

  lemma NoSpaceNoNewline(s: string)
    requires NoSpace(s)
    ensures '\n' !in s
  {
    assert IsSpace('\n');
  }

  lemma {:induction false} SpacedPlain(gaps: seq<string>, tokens: seq<string>)
    requires Spaceable(gaps, tokens)
    ensures '\n' !in Spaced(gaps, tokens)
  {
    if tokens != [] {
      NoSpaceNoNewline(tokens[0]);
      SpacedPlain(gaps[1..], tokens[1..]);
    }
  }

  lemma EntryLinePlain(e: Entry)
    requires GoodEntry(e)
    ensures '\n' !in EntryLine(e)
  {
    MarkedId(e);
    NoSpaceNoNewline(e.id + Marker(e.status));
    SpacedPlain(e.gaps, Columns(e));
  }

  lemma DetailLinePlain(d: Detail)
    requires GoodDetail(d)
    ensures '\n' !in DetailLine(d)
  {
    if d.Recipient? {
      NoSpaceNoNewline(d.address);
    }
  }

  predicate Plain(lines: seq<string>) { forall i :: 0 <= i < |lines| ==> '\n' !in lines[i] }

  lemma {:induction false} DetailLinesPlain(details: seq<Detail>)
    requires forall i :: 0 <= i < |details| ==> GoodDetail(details[i])
    ensures Plain(DetailLines(details))
  {
    if details != [] {
      DetailLinePlain(details[0]);
      DetailLinesPlain(details[1..]);
    }
  }

  lemma {:induction false} AllLinesPlain(entries: seq<Entry>)
    requires GoodEntries(entries)
    ensures Plain(AllLines(entries))
  {
    if entries != [] {
      EntryLinePlain(entries[0]);
      DetailLinesPlain(entries[0].details);
      AllLinesPlain(entries[1..]);
    }
  }

  function ListingText(header: string, entries: seq<Entry>, footer: string): string
    requires GoodEntries(entries)
  {
    Join(Listing(header, entries, footer), '\n')
  }

  lemma ListingTrimmed(header: string, entries: seq<Entry>, footer: string, before: string, after: string)
    requires GoodHeader(header) && GoodEntries(entries) && GoodFooter(footer) && Spaces(before) && Spaces(after)
    ensures TrimSpace(before + ListingText(header, entries, footer) + after) == ListingText(header, entries, footer)
    ensures ListingText(header, entries, footer) != "" && ListingText(header, entries, footer)[0] == '-'
  {
    JoinEnds(Listing(header, entries, footer));
    TrimSpaceOf(before, ListingText(header, entries, footer), after);
  }

  lemma PhraseInListing(header: string, entries: seq<Entry>, footer: string)
    requires GoodHeader(header) && GoodEntries(entries) && GoodFooter(footer)
    ensures Contains(ListingText(header, entries, footer), EMPTY_QUEUE) <==> EntriesMention(entries)
  {
    var lines := Listing(header, entries, footer);
    ContainsInJoin(lines, EMPTY_QUEUE);
    InSomeLineAppend([header] + AllLines(entries), [footer], EMPTY_QUEUE);
    InSomeLineAppend([header], AllLines(entries), EMPTY_QUEUE);
    OneLine(header, EMPTY_QUEUE);
    OneLine(footer, EMPTY_QUEUE);
    PhraseInEntries(entries);
  }

  /** Parsing a printed listing gives back its entries, in order, with whatever white space around and between the
      columns; and exactly when some reason has the phrase for an empty queue in it, the whole listing is taken for
      an empty one. */
  lemma ListingRoundTrip(env: Env, header: string, entries: seq<Entry>, footer: string, before: string, after: string)
    requires GoodHeader(header) && GoodEntries(entries) && GoodFooter(footer) && Spaces(before) && Spaces(after)
    ensures Parsed(env, before + ListingText(header, entries, footer) + after)
            == if EntriesMention(entries) then [] else Aged(env.now, AllExpected(env, entries))
  {
    var text := ListingText(header, entries, footer);
    ListingTrimmed(header, entries, footer, before, after);
    PhraseInListing(header, entries, footer);
    if !EntriesMention(entries) {
      ListingParses(env, header, entries, footer);
      AllLinesPlain(entries);
      SplitOfJoin(Listing(header, entries, footer), '\n');
    }
  }

  lemma ApplyTwo(m: Message, d: Detail, e: Detail)
    ensures Apply(m, [d]) == Noted(m, d)
    ensures Apply(m, [d, e]) == Noted(Noted(m, d), e)
  {
    assert [d][1..] == [] && [d, e][1..] == [e] && [e][1..] == [];
    assert Apply(Noted(m, d), [e]) == Apply(Noted(Noted(m, d), e), []);
  }

  /** An entry with one recipient, and a reason or none, is recovered completely. */
  lemma SingleRecipientRecovered(env: Env, e: Entry, reason: Detail, recipient: Detail)
    requires reason.Reason? && recipient.Recipient?
    requires e.details == [recipient] || e.details == [reason, recipient]
    ensures var text := if |e.details| == 1 then "" else reason.text;
            var date := env.parseDate(Join(e.date, ' '));
            var arrival := if |e.date| >= 3 && date.Some? then date.value else env.now;
            Expected(env, e) == Message(e.id, e.size, arrival, e.sender, recipient.address, e.status, text, "")
  {
    var m := Message(e.id, e.size, Arrival(env, e.date), e.sender, "", e.status, "", "");
    ApplyTwo(m, recipient, recipient);
    ApplyTwo(m, reason, recipient);
  }

  /** Of several recipients only the last is kept. */
  lemma {:induction false} LastRecipientIsKept(m: Message, details: seq<Detail>, k: nat)
    requires k < |details| && details[k].Recipient? && forall i :: k < i < |details| ==> details[i].Reason?
    ensures Apply(m, details).recipient == details[k].address
    decreases |details|
  {
    if k > 0 {
      LastRecipientIsKept(Noted(m, details[0]), details[1..], k - 1);
    } else {
      ReasonsKeepRecipient(Noted(m, details[0]), details[1..]);
    }
  }

  lemma {:induction false} ReasonsKeepRecipient(m: Message, details: seq<Detail>)
    requires forall i :: 0 <= i < |details| ==> details[i].Reason?
    ensures Apply(m, details).recipient == m.recipient
    decreases |details|
  {
    if details != [] {
      ReasonsKeepRecipient(Noted(m, details[0]), details[1..]);
    }
  }

  /** The first moment of the minute that the longest duration falls in. */
  const LONGEST := 2562047 * HOUR + 47 * MINUTE

  function LongestAge(): string { Decimal(2562047) + ("h " + (Decimal(47) + "m")) }

  /** A number is read off the front of a text by its digits. */
  lemma SameNumber(a: nat, b: nat, u: string, v: string)
    requires u != "" && v != "" && !IsDigit(u[0]) && !IsDigit(v[0])
    requires Decimal(a) + u == Decimal(b) + v
    ensures a == b && u == v
  {
    DecimalRoundTrip(a);
    DecimalRoundTrip(b);
    DigitLenOf(Decimal(a), u);
    DigitLenOf(Decimal(b), v);
    var s := Decimal(a) + u;
    assert s[..|Decimal(a)|] == Decimal(a) && s[|Decimal(a)|..] == u;
    assert s[..|Decimal(b)|] == Decimal(b) && s[|Decimal(b)|..] == v;
  }

  lemma SameNumbers(a: nat, b: nat, c: nat, d: nat, u: string, v: string)
    requires u != "" && v != "" && !IsDigit(u[0]) && !IsDigit(v[0])
    requires Decimal(a) + (u + (Decimal(b) + v)) == Decimal(c) + (u + (Decimal(d) + v))
    ensures a == c && b == d
  {
    var x, y := Decimal(b) + v, Decimal(d) + v;
    SameNumber(a, c, u + x, u + y);
    assert (u + x)[|u|..] == x && (u + y)[|u|..] == y;
    SameNumber(b, d, v, v);
  }

  lemma ShortAgeIsNot(n: nat, unit: string)
    requires unit == "s" || unit == "m"
    ensures Decimal(n) + unit != LongestAge()
  {
    if Decimal(n) + unit == LongestAge() {
      SameNumber(n, 2562047, unit, "h " + (Decimal(47) + "m"));
    }
  }

  /** An age is shown as the longest one if and only if it is at least that long: from there on durations run into
      their limit, and all messages look alike. */
  lemma SaturatedAge(now: int, t: int)
    ensures FormatAge(now, t) == LongestAge() <==> now - t >= LONGEST
  {
    var d := Since(now, t);
    assert Decimal(0) == "0";
    ShortAgeIsNot(0, "s");
    if 0 <= d < MINUTE {
      ShortAgeIsNot(d / SECOND, "s");
    } else if MINUTE <= d < HOUR {
      ShortAgeIsNot(d / MINUTE, "m");
    } else if d >= HOUR {
      LongAge(d);
    }
  }

  lemma LongAge(d: nat)
    requires HOUR <= d <= MAX_INT64
    ensures Decimal(d / HOUR) + "h " + Decimal(d / MINUTE % 60) + "m" == LongestAge() <==> d >= LONGEST
  {
    var h, m := d / HOUR, d / MINUTE % 60;
    assert Decimal(h) + "h " + Decimal(m) + "m" == Decimal(h) + ("h " + (Decimal(m) + "m"));
    HoursMinutes(d);
    if Decimal(h) + ("h " + (Decimal(m) + "m")) == LongestAge() {
      SameNumbers(h, m, 2562047, 47, "h ", "m");
    }
  }

  lemma DivideByMinutes(d: nat, k: nat, r: nat)
    requires d == 60_000_000_000 * k + r && r < 60_000_000_000
    ensures d / 60_000_000_000 == k && d / 3_600_000_000_000 == k / 60
  {
    var h, m := k / 60, k % 60;
    assert d == 3_600_000_000_000 * h + (60_000_000_000 * m + r);
  }

  lemma HoursMinutes(d: nat)
    requires d <= MAX_INT64
    ensures d / HOUR == 2562047 && d / MINUTE % 60 == 47 <==> d >= LONGEST
  {
    var k, r := d / 60_000_000_000, d % 60_000_000_000;
    DivideByMinutes(d, k, r);
    assert MINUTE == 60_000_000_000 && HOUR == 3_600_000_000_000;
    MinutesAtMost(d, k, r);
    assert LONGEST == 60_000_000_000 * 153722867;
  }

  lemma MinutesAtMost(d: nat, k: nat, r: nat)
    requires d == 60_000_000_000 * k + r && r < 60_000_000_000 && d <= MAX_INT64
    ensures k / 60 == 2562047 && k % 60 == 47 <==> d >= 60_000_000_000 * 153722867
  {
    assert k <= 153722867;
  }

  /** The dates carry no year, so they read as year zero, longer ago than a duration can say: exactly the messages that
      old show the longest age. */
  lemma DatedMessagesLookAlike(env: Env, entries: seq<Entry>, i: nat)
    requires i < |entries|
    ensures Aged(env.now, AllExpected(env, entries))[i].age == LongestAge() <==>
            env.now - Arrival(env, entries[i].date) >= LONGEST
  {
    var e := entries[i];
    KeepsArrival(Message(e.id, e.size, Arrival(env, e.date), e.sender, "", e.status, "", ""), e.details);
    SaturatedAge(env.now, Arrival(env, e.date));
  }

  /** The start of 1970, in nanoseconds since the start of year one. */
  const EPOCH := 62135596800 * SECOND

  /** With times counted from the start of year one: a date that is read as lying in year zero, at any time after 1970,
      gives the longest age. */
  lemma YearZeroShowsLongestAge(env: Env, entries: seq<Entry>, i: nat)
    requires i < |entries| && |entries[i].date| >= 3 && env.now >= EPOCH
    requires var t := env.parseDate(Join(entries[i].date, ' ')); t.Some? && t.value < 0
    ensures Aged(env.now, AllExpected(env, entries))[i].age == LongestAge()
  {
    DatedMessagesLookAlike(env, entries, i);
  }

  lemma {:induction false} KeepsArrival(m: Message, details: seq<Detail>)
    ensures Apply(m, details).arrival == m.arrival
    decreases |details|
  {
    if details != [] {
      KeepsArrival(Noted(m, details[0]), details[1..]);
    }
  }

  // ---------- Ages, sizes and JSON ----------

  lemma TimeUnits(d: nat, h: nat, m: nat, sec: nat, rest: nat)
    requires d == 3_600_000_000_000 * h + 60_000_000_000 * m + 1_000_000_000 * sec + rest
    requires m < 60 && sec < 60 && rest < 1_000_000_000
    ensures d / 60_000_000_000 == 60 * h + m && d / 3_600_000_000_000 == h
    ensures h == m == 0 ==> d / 1_000_000_000 == sec
    ensures (d < 60_000_000_000 <==> h == m == 0) && (d < 3_600_000_000_000 <==> h == 0)
  {
    assert d == 60_000_000_000 * (60 * h + m) + (1_000_000_000 * sec + rest);
  }

  /** An age of hours, minutes, seconds and less is shown by its hours and minutes, by its minutes alone if it is less than an
      hour, and by its seconds if it is less than a minute. */
  lemma AgeIsShown(now: int, t: int, h: nat, m: nat, sec: nat, rest: nat)
    requires now - t == HOUR * h + MINUTE * m + SECOND * sec + rest && m < 60 && sec < 60 && rest < SECOND
    requires now - t <= MAX_INT64
    ensures FormatAge(now, t) ==
              if h > 0 then Decimal(h) + "h " + Decimal(m) + "m"
              else if m > 0 then Decimal(m) + "m"
              else Decimal(sec) + "s"
  {
    var d: nat := now - t;
    assert MINUTE == 60_000_000_000 && HOUR == 3_600_000_000_000 && SECOND == 1_000_000_000;
    TimeUnits(d, h, m, sec, rest);
    AgeByUnits(now, t, d / SECOND, 60 * h + m, h, m);
  }

  lemma AgeByUnits(now: int, t: int, seconds: nat, minutes: nat, hours: nat, rest: nat)
    requires 0 <= now - t <= MAX_INT64 && rest < 60 && minutes == 60 * hours + rest
    requires (now - t) / SECOND == seconds && (now - t) / MINUTE == minutes && (now - t) / HOUR == hours
    ensures FormatAge(now, t) ==
              if now - t < MINUTE then Decimal(seconds) + "s"
              else if now - t < HOUR then Decimal(minutes) + "m"
              else Decimal(hours) + "h " + Decimal(rest) + "m"
  {
    assert minutes % 60 == rest;
  }

  /** A message from the future is shown without age. */
  lemma FutureHasNoAge(now: int, t: int)
    requires now < t
    ensures FormatAge(now, t) == "0s"
  {
    assert Decimal(0) == "0";
  }

  /** A number with or without a sign is read as itself, or as the nearest one that 64 bits hold. */
  lemma SizeIsRead(sign: string, n: nat)
    requires sign == "" || sign == "+" || sign == "-"
    ensures sign != "-" ==> ParseInt(sign + Decimal(n)) == if n <= MAX_INT64 then n else MAX_INT64
    ensures sign == "-" ==> -ParseInt(sign + Decimal(n)) == if n <= MAX_INT64 + 1 then n else MAX_INT64 + 1
  {
    DecimalRoundTrip(n);
    DigitsAreRead(sign, Decimal(n));
  }

  lemma DigitsAreRead(sign: string, s: string)
    requires s != "" && AllDigits(s) && (sign == "" || sign == "+" || sign == "-")
    ensures var n: int := Number(s); ParseInt(sign + s) == Clamp(if sign == "-" then -n else n)
  {
    assert IsDigit(s[0]);
    assert sign == "" ==> sign + s == s;
    assert sign != "" ==> (sign + s)[0] == sign[0] && (sign + s)[1..] == s;
    DigitLenOf(s, "");
    assert s + "" == s && s[..|s|] == s;
  }

  /** Text that is no number is read as zero, unless its digits have overflowed before that shows. */
  lemma MalformedSize(sign: string, digits: string, c: char, rest: string)
    requires AllDigits(digits) && digits != "" && !IsDigit(c) && (sign == "" || sign == "+" || sign == "-")
    ensures Number(digits) <= MAX_UINT64 ==> ParseInt(sign + (digits + ([c] + rest))) == 0
    ensures Number(digits) > MAX_UINT64 ==>
              ParseInt(sign + (digits + ([c] + rest))) == if sign == "-" then -MAX_INT64 - 1 else MAX_INT64
  {
    var s := digits + ([c] + rest);
    DigitLenOf(digits, [c] + rest);
    assert s[0] == digits[0] && s[..|digits|] == digits;
    assert sign == "" ==> sign + s == s;
    assert sign != "" ==> (sign + s)[0] == sign[0] && (sign + s)[1..] == s;
  }

  /** A listing that begins with a brace is what its JSON lines say, if they say anything; it is read line by line if not. */
  lemma JsonComesFirst(env: Env, text: string)
    requires HasPrefix(TrimSpace(text), "{") && !Contains(TrimSpace(text), EMPTY_QUEUE)
    ensures Parsed(env, text) == Aged(env.now, if env.parseJSON(TrimSpace(text)) != [] then env.parseJSON(TrimSpace(text))
                                               else Messages(env, Split(TrimSpace(text), '\n'), None))
  {
  }
}
