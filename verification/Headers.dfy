/** The authentication headers the server stamps on a message, and stripping forged ones from incoming mail. */
module Headers {
  import opened Wrappers
  import opened Text

  // ---------- Stripping ----------

  /** A line that starts a header only this server may add. */
  predicate IsTrusted(line: string) {
    var lower := ToLower(TrimSpace(line));
    HasPrefix(lower, "authentication-results:") || HasPrefix(lower, "received-spf:")
  }

  predicate IsFolded(line: string) { HasPrefix(line, " ") || HasPrefix(line, "\t") }

  /** Line `i` belongs to a header of kind `t`: it starts one, or continues the line before, which does. */
  predicate BelongsTo(t: string -> bool, lines: seq<string>, i: int)
    requires 0 <= i < |lines|
  {
    t(lines[i]) || (IsFolded(lines[i]) && i > 0 && BelongsTo(t, lines, i - 1))
  }

  /** That is: some line at or before it starts such a header, and all lines from there on are folded. */
  lemma {:induction false} BelongsMeans(t: string -> bool, lines: seq<string>, i: nat)
    requires i < |lines|
    ensures BelongsTo(t, lines, i) <==>
            exists j :: 0 <= j <= i && t(lines[j]) && forall k :: j < k <= i ==> IsFolded(lines[k])
  {
    if i > 0 {
      BelongsMeans(t, lines, i - 1);
      if !t(lines[i]) && BelongsTo(t, lines, i) {
        var j :| 0 <= j <= i - 1 && t(lines[j]) && forall k :: j < k <= i - 1 ==> IsFolded(lines[k]);
        assert forall k :: j < k <= i ==> IsFolded(lines[k]);
      }
    }
  }

  /** The lines that belong to no header of kind `t`, in order. */
  function Others(t: string -> bool, lines: seq<string>): seq<string> {
    if lines == [] then [] else
      var n := |lines| - 1;
      Others(t, lines[..n]) + if BelongsTo(t, lines, n) then [] else [lines[n]]
  }

  /** The message without the headers only this server may add. */
  function Stripped(message: string): string { Join(Others(IsTrusted, Split(message, '\n')), '\n') }

  lemma {:induction false} BelongsInPrefix(t: string -> bool, lines: seq<string>, n: nat, i: nat)
    requires i < n <= |lines|
    ensures BelongsTo(t, lines[..n], i) == BelongsTo(t, lines, i)
  {
    if i > 0 {
      BelongsInPrefix(t, lines, n, i - 1);
    }
  }

  method SanitizeUntrustedHeaders(message: string) returns (clean: string)
    ensures clean == Stripped(message)
  {
    var lines := Split(message, '\n');
    var sanitized: seq<string> := [];
    var skipContinuation := false;
    for i := 0 to |lines|
      invariant sanitized == Others(IsTrusted, lines[..i])
      invariant skipContinuation <==> i > 0 && BelongsTo(IsTrusted, lines, i - 1)
    {
      var line := lines[i];
      BelongsInPrefix(IsTrusted, lines, i + 1, i);
      assert lines[..i + 1][..i] == lines[..i];
      if IsTrusted(line) {
        skipContinuation := true;
        continue;
      }
      if skipContinuation && IsFolded(line) {
        continue;
      }
      skipContinuation := false;
      sanitized := sanitized + [line];
    }
    assert lines[..|lines|] == lines;
    clean := Join(sanitized, '\n');
  }

  // ---------- What stripping guarantees ----------

  /** Nothing of the kept lines starts a trusted header, and every kept line is one of the message's. */
  lemma {:induction false} KeptLinesAreUntrusted(t: string -> bool, lines: seq<string>)
    ensures forall i :: 0 <= i < |Others(t, lines)| ==> !t(Others(t, lines)[i]) && Others(t, lines)[i] in lines
  {
    if lines != [] {
      var n := |lines| - 1;
      KeptLinesAreUntrusted(t, lines[..n]);
    }
  }

  lemma {:induction false} NothingBelongs(t: string -> bool, lines: seq<string>, i: nat)
    requires i < |lines| && forall k :: 0 <= k < |lines| ==> !t(lines[k])
    ensures !BelongsTo(t, lines, i)
  {
    if i > 0 {
      NothingBelongs(t, lines, i - 1);
    }
  }

  lemma {:induction false} NothingTrustedNothingStripped(t: string -> bool, lines: seq<string>)
    requires forall i :: 0 <= i < |lines| ==> !t(lines[i])
    ensures Others(t, lines) == lines
  {
    if lines != [] {
      var n := |lines| - 1;
      NothingTrustedNothingStripped(t, lines[..n]);
      NothingBelongs(t, lines, n);
      assert lines == lines[..n] + [lines[n]];
    }
  }

  /** Stripping is idempotent, also when nothing is left. */
  lemma StrippingIsIdempotent(message: string)
    ensures Stripped(Stripped(message)) == Stripped(message)
  {
    var lines := Split(message, '\n');
    var kept := Others(IsTrusted, lines);
    KeptLinesAreUntrusted(IsTrusted, lines);
    if kept == [] {
      assert Split("", '\n') == [""];
      assert !IsTrusted("");
      NothingTrustedNothingStripped(IsTrusted, [""]);
    } else {
      SplitOfJoin(kept, '\n');
      NothingTrustedNothingStripped(IsTrusted, kept);
    }
  }

  predicate Increasing(positions: seq<nat>, n: nat) {
    && (forall j :: 0 <= j < |positions| ==> positions[j] < n)
    && forall j, k :: 0 <= j < k < |positions| ==> positions[j] < positions[k]
  }

  /** The positions of the lines that belong to no header of kind `t`. */
  function Free(t: string -> bool, lines: seq<string>): int -> bool {
    i => 0 <= i < |lines| && !BelongsTo(t, lines, i)
  }

  /** The positions below `n` are just those with property `p`. */
  predicate Marks(p: int -> bool, n: nat, positions: seq<nat>) { forall i :: 0 <= i < n ==> (i in positions <==> p(i)) }

  predicate Picks(lines: seq<string>, positions: seq<nat>, kept: seq<string>)
    requires Increasing(positions, |lines|)
  {
    |kept| == |positions| && forall j :: 0 <= j < |kept| ==> kept[j] == lines[positions[j]]
  }

  lemma MarksMore(p: int -> bool, q: int -> bool, n: nat, positions: seq<nat>)
    requires Marks(p, n, positions) && Increasing(positions, n) && forall i :: 0 <= i < n ==> p(i) == q(i)
    ensures Marks(q, n + 1, if q(n) then positions + [n] else positions)
  {
    assert n !in positions;
  }

  lemma FreeInPrefix(t: string -> bool, lines: seq<string>, n: nat)
    requires n <= |lines|
    ensures forall i :: 0 <= i < n ==> Free(t, lines[..n])(i) == Free(t, lines)(i)
  {
    forall i | 0 <= i < n ensures Free(t, lines[..n])(i) == Free(t, lines)(i) {
      BelongsInPrefix(t, lines, n, i);
    }
  }

  lemma PicksMore(lines: seq<string>, positions: seq<nat>, kept: seq<string>)
    requires lines != [] && Increasing(positions, |lines| - 1) && Picks(lines[..|lines| - 1], positions, kept)
    ensures Increasing(positions, |lines|) && Picks(lines, positions, kept)
    ensures var n := |lines| - 1;
            Increasing(positions + [n], |lines|) && Picks(lines, positions + [n], kept + [lines[n]])
  {
  }

  lemma OthersStep(t: string -> bool, lines: seq<string>)
    requires lines != []
    ensures var n := |lines| - 1;
            Others(t, lines) == Others(t, lines[..n]) + if Free(t, lines)(n) then [lines[n]] else []
  {
  }

  /** Stripping keeps, in order and as often as they stand there, exactly the lines that are neither a trusted header
      nor the continuation of one: the kept lines are the message's lines at increasing positions, which are just
      those of such lines. */
  lemma {:induction false} KeepsExactly(t: string -> bool, lines: seq<string>) returns (positions: seq<nat>)
    ensures Increasing(positions, |lines|) && Marks(Free(t, lines), |lines|, positions)
    ensures Picks(lines, positions, Others(t, lines))
  {
    positions := [];
    if lines != [] {
      var n := |lines| - 1;
      positions := KeepsExactly(t, lines[..n]);
      FreeInPrefix(t, lines, n);
      MarksMore(Free(t, lines[..n]), Free(t, lines), n, positions);
      PicksMore(lines, positions, Others(t, lines[..n]));
      OthersStep(t, lines);
      positions := if Free(t, lines)(n) then positions + [n] else positions;
    }
  }

  // ---------- Stamping ----------

  /** Built headers: the first line is trusted, the others are trusted or folded. */
  ghost predicate IsStamp(t: string -> bool, header: seq<string>) {
    && header != [] && t(header[0])
    && (forall i :: 0 < i < |header| ==> IsFolded(header[i]) || t(header[i]))
    && forall i :: 0 <= i < |header| ==> '\n' !in header[i]
  }

  /** After a stamp, the first lines of the message that are folded are taken for its continuation. */
  lemma {:induction false} BehindStamp(t: string -> bool, header: seq<string>, lines: seq<string>, n: nat)
    requires IsStamp(t, header) && n <= |lines|
    requires lines != [] && IsFolded(lines[0]) ==> t(lines[0])
    ensures Others(t, header + lines[..n]) == Others(t, lines[..n])
  {
    var all := header + lines[..n];
    if n == 0 {
      assert all == header;
      AllStamp(t, header, |header|);
      assert header[..|header|] == header;
    } else {
      BehindStamp(t, header, lines, n - 1);
      assert all[..|all| - 1] == header + lines[..n - 1];
      assert lines[..n][..n - 1] == lines[..n - 1];
      SameBelonging(t, header, lines[..n], n - 1);
    }
  }

  lemma {:induction false} StampBelongs(t: string -> bool, header: seq<string>, i: nat)
    requires IsStamp(t, header) && i < |header|
    ensures BelongsTo(t, header, i)
  {
    if i > 0 {
      StampBelongs(t, header, i - 1);
    }
  }

  lemma {:induction false} AllStamp(t: string -> bool, header: seq<string>, n: nat)
    requires IsStamp(t, header) && n <= |header|
    ensures Others(t, header[..n]) == []
  {
    if n > 0 {
      AllStamp(t, header, n - 1);
      assert header[..n][..n - 1] == header[..n - 1];
      StampBelongs(t, header, n - 1);
      BelongsInPrefix(t, header, n, n - 1);
    }
  }

  lemma {:induction false} SameBelonging(t: string -> bool, header: seq<string>, lines: seq<string>, i: nat)
    requires IsStamp(t, header) && i < |lines|
    requires IsFolded(lines[0]) ==> t(lines[0])
    ensures BelongsTo(t, header + lines, |header| + i) <==> BelongsTo(t, lines, i)
  {
    if i > 0 {
      SameBelonging(t, header, lines, i - 1);
    } else {
      StampBelongs(t, header, |header| - 1);
    }
  }

  function Stamp(header: seq<string>, message: string): string { Join(header, '\n') + "\n" + message }

  lemma SplitStamp(t: string -> bool, header: seq<string>, message: string)
    requires IsStamp(t, header)
    ensures Split(Stamp(header, message), '\n') == header + Split(message, '\n')
  {
    SplitConcat(Join(header, '\n'), message, '\n');
    SplitOfJoin(header, '\n');
  }

  /** Stripping undoes stamping exactly when the message does not begin with a folded line (other than one that
      itself starts a trusted header). */
  lemma StrippingUndoesStamping(header: seq<string>, message: string)
    requires IsStamp(IsTrusted, header)
    ensures var first := Split(message, '\n')[0];
            Stripped(Stamp(header, message)) == Stripped(message) <==> (IsFolded(first) ==> IsTrusted(first))
  {
    var lines := Split(message, '\n');
    SplitStamp(IsTrusted, header, message);
    if IsFolded(lines[0]) && !IsTrusted(lines[0]) {
      FoldedFirstLineIsLost(IsTrusted, header, lines, |lines|);
      assert lines[..|lines|] == lines;
      var with', without := Others(IsTrusted, header + lines), Others(IsTrusted, lines);
      KeptLinesAreUntrusted(IsTrusted, header + lines);
      KeptLinesAreUntrusted(IsTrusted, lines);
      SplitOfStripped(with', header + lines);
      SplitOfStripped(without, lines);
      assert lines[0] != "";
    } else {
      BehindStamp(IsTrusted, header, lines, |lines|);
      assert lines[..|lines|] == lines;
    }
  }

  /** The text of kept lines determines them, up to the empty list. */
  lemma SplitOfStripped(kept: seq<string>, lines: seq<string>)
    requires forall i :: 0 <= i < |kept| ==> kept[i] in lines
    requires forall i :: 0 <= i < |lines| ==> '\n' !in lines[i]
    ensures Split(Join(kept, '\n'), '\n') == if kept == [] then [""] else kept
  {
    if kept != [] {
      SplitOfJoin(kept, '\n');
    }
  }

  /** With a folded first line, the stamp takes at least that line along. */
  lemma {:induction false} FoldedFirstLineIsLost(t: string -> bool, header: seq<string>, lines: seq<string>, n: nat)
    requires IsStamp(t, header) && 0 < n <= |lines| && IsFolded(lines[0]) && !t(lines[0])
    ensures Others(t, lines[..n]) != [] && Others(t, lines[..n])[0] == lines[0]
    ensures |Others(t, header + lines[..n])| < |Others(t, lines[..n])|
  {
    var all := header + lines[..n];
    assert all[..|all| - 1] == header + lines[..n - 1];
    assert lines[..n][..n - 1] == lines[..n - 1];
    if n == 1 {
      assert all[..|all| - 1] == header;
      AllStamp(t, header, |header|);
      assert header[..|header|] == header;
      StampBelongs(t, header, |header| - 1);
      BelongsInPrefix(t, all, |header|, |header| - 1);
    } else {
      FoldedFirstLineIsLost(t, header, lines, n - 1);
      MoreBelongs(t, header, lines[..n], n - 1);
    }
  }

  lemma {:induction false} MoreBelongs(t: string -> bool, header: seq<string>, lines: seq<string>, i: nat)
    requires IsStamp(t, header) && i < |lines|
    ensures BelongsTo(t, lines, i) ==> BelongsTo(t, header + lines, |header| + i)
  {
    if i > 0 {
      MoreBelongs(t, header, lines, i - 1);
    }
  }

  // ---------- The headers that are stamped ----------

  /** The fields of an evaluation that go into the headers. */
  datatype Evaluation = Evaluation(
    authServId: string, clientIp: string, helo: string, mailFrom: string, headerFrom: string,
    spfStatus: string, spfDomain: string,
    dkimStatus: string, dkimDomain: string, dkimSelector: string,
    dmarcStatus: string, dmarcPolicy: string)

  function ServId(eval: Evaluation): string { if eval.authServId == "" then "mail.example.com" else eval.authServId }

  function SpfDomain(eval: Evaluation): string {
    var parts := Split(eval.mailFrom, '@');
    if eval.spfDomain == "" && eval.mailFrom != "" && |parts| == 2 then parts[1] else eval.spfDomain
  }

  function FromDomain(eval: Evaluation): string {
    var parts := Split(eval.headerFrom, '@');
    parts[|parts| - 1]
  }

  function SpfEntry(eval: Evaluation): string {
    "    spf=" + eval.spfStatus + " (sender IP is " + eval.clientIp + ") smtp.mailfrom=" + SpfDomain(eval) + ";"
  }

  function DkimEntry(eval: Evaluation): string {
    if eval.dkimDomain != ""
    then "    dkim=" + eval.dkimStatus + " header.d=" + eval.dkimDomain + " header.s=" + eval.dkimSelector + ";"
    else "    dkim=" + eval.dkimStatus + " (no signatures);"
  }

  function DmarcEntry(eval: Evaluation): string {
    "    dmarc=" + eval.dmarcStatus + " (p=" + eval.dmarcPolicy + ") header.from=" + FromDomain(eval)
  }

  /** The lines of the Authentication-Results header after its name. */
  function ResultLines(eval: Evaluation): seq<string> {
    [ServId(eval) + ";", SpfEntry(eval), DkimEntry(eval), DmarcEntry(eval)]
  }

  function BuildAuthenticationResults(eval: Evaluation): string {
    "Authentication-Results: " + Join(ResultLines(eval), '\n')
  }

  /** The Received-SPF header after its name. */
  function SpfText(eval: Evaluation): string {
    eval.spfStatus + " (" + ServId(eval) + ": domain of " + SpfDomain(eval) + " designates "
    + eval.clientIp + " as permitted sender) client-ip=" + eval.clientIp + "; envelope-from=" + eval.mailFrom
    + "; helo=" + eval.helo + ";"
  }

  function BuildReceivedSPF(eval: Evaluation): string { "Received-SPF: " + SpfText(eval) }

  predicate NewlineFree(eval: Evaluation) {
    && '\n' !in eval.authServId && '\n' !in eval.clientIp && '\n' !in eval.helo && '\n' !in eval.mailFrom
    && '\n' !in eval.headerFrom && '\n' !in eval.spfStatus && '\n' !in eval.spfDomain && '\n' !in eval.dkimStatus
    && '\n' !in eval.dkimDomain && '\n' !in eval.dkimSelector && '\n' !in eval.dmarcStatus && '\n' !in eval.dmarcPolicy
  }

  lemma {:induction false} SplitElements(s: string, c: char, d: char)
    requires d !in s
    ensures forall i :: 0 <= i < |Split(s, c)| ==> d !in Split(s, c)[i]
  {
    if s != "" {
      SplitElements(s[1..], c, d);
    }
  }

  /** A line that begins with a header name, in whatever case, starts that header. */
  lemma StartsHeader(name: string, lower: string, rest: string)
    requires name != "" && !IsSpace(name[0]) && rest != "" && !IsSpace(rest[|rest| - 1])
    requires ToLower(name) == lower
    ensures HasPrefix(ToLower(TrimSpace(name + rest)), lower)
  {
    var line := name + rest;
    assert line[0] == name[0] && line[|line| - 1] == rest[|rest| - 1];
    TrimmedAlready(line);
    MapCharsAppend(LowerChar, name, rest);
    assert ToLower(line) == lower + ToLower(rest);
  }

  lemma NamesInLowerCase()
    ensures ToLower("Authentication-Results:") == "authentication-results:"
    ensures ToLower("Received-SPF:") == "received-spf:"
  {
  }

  predicate IsPlainFold(line: string) { IsFolded(line) && '\n' !in line }

  lemma SpfEntryIsPlain(eval: Evaluation)
    requires NewlineFree(eval)
    ensures IsPlainFold(SpfEntry(eval))
  {
    SplitElements(eval.mailFrom, '@', '\n');
    assert '\n' !in SpfDomain(eval);
    assert SpfEntry(eval)[0] == ' ';
  }

  lemma DkimEntryIsPlain(eval: Evaluation)
    requires NewlineFree(eval)
    ensures IsPlainFold(DkimEntry(eval))
  {
    assert DkimEntry(eval)[0] == ' ';
  }

  lemma DmarcEntryIsPlain(eval: Evaluation)
    requires NewlineFree(eval)
    ensures IsPlainFold(DmarcEntry(eval))
  {
    SplitElements(eval.headerFrom, '@', '\n');
    assert '\n' !in FromDomain(eval);
    assert DmarcEntry(eval)[0] == ' ';
  }

  lemma ResultLinesArePlain(eval: Evaluation)
    requires NewlineFree(eval)
    ensures '\n' !in ResultLines(eval)[0] && forall i :: 0 < i < 4 ==> IsPlainFold(ResultLines(eval)[i])
  {
    SpfEntryIsPlain(eval);
    DkimEntryIsPlain(eval);
    DmarcEntryIsPlain(eval);
  }

  lemma AuthenticationResultsIsStamp(eval: Evaluation)
    requires NewlineFree(eval)
    ensures IsStamp(IsTrusted, Split(BuildAuthenticationResults(eval), '\n'))
    ensures Join(Split(BuildAuthenticationResults(eval), '\n'), '\n') == BuildAuthenticationResults(eval)
  {
    ResultLinesArePlain(eval);
    ResultsAreStamp(ResultLines(eval));
  }

  lemma ResultsAreStamp(lines: seq<string>)
    requires lines != [] && lines[0] != "" && lines[0][|lines[0]| - 1] == ';' && '\n' !in lines[0]
    requires |lines| > 1 && forall i :: 0 < i < |lines| ==> IsPlainFold(lines[i])
    ensures var text := "Authentication-Results: " + Join(lines, '\n');
            IsStamp(IsTrusted, Split(text, '\n')) && Join(Split(text, '\n'), '\n') == text
  {
    ResultsAreTrusted(lines[0]);
    PrefixFirstLine("Authentication-Results: ", lines);
    var header := ["Authentication-Results: " + lines[0]] + lines[1..];
    SplitOfJoin(header, '\n');
  }

  lemma ResultsAreTrusted(line: string)
    requires line != "" && line[|line| - 1] == ';' && '\n' !in line
    ensures IsTrusted("Authentication-Results: " + line) && '\n' !in "Authentication-Results: " + line
  {
    NamesInLowerCase();
    StartsHeader("Authentication-Results:", "authentication-results:", " " + line);
    assert "Authentication-Results: " + line == "Authentication-Results:" + (" " + line);
  }

  lemma PrefixFirstLine(prefix: string, lines: seq<string>)
    requires lines != []
    ensures Join([prefix + lines[0]] + lines[1..], '\n') == prefix + Join(lines, '\n')
  {
    var header := [prefix + lines[0]] + lines[1..];
    assert header[1..] == lines[1..];
  }

  lemma ReceivedSPFIsStamp(eval: Evaluation)
    requires NewlineFree(eval)
    ensures IsStamp(IsTrusted, [BuildReceivedSPF(eval)])
  {
    SpfTextIsPlain(eval);
    SpfLineIsStamp(SpfText(eval));
  }

  lemma SpfLineIsStamp(text: string)
    requires text != "" && text[|text| - 1] == ';' && '\n' !in text
    ensures IsStamp(IsTrusted, ["Received-SPF: " + text])
  {
    NamesInLowerCase();
    StartsHeader("Received-SPF:", "received-spf:", " " + text);
    assert "Received-SPF: " + text == "Received-SPF:" + (" " + text);
  }

  lemma SpfTextIsPlain(eval: Evaluation)
    requires NewlineFree(eval)
    ensures SpfText(eval) != "" && SpfText(eval)[|SpfText(eval)| - 1] == ';' && '\n' !in SpfText(eval)
  {
    SplitElements(eval.mailFrom, '@', '\n');
    assert '\n' !in SpfDomain(eval) && '\n' !in ServId(eval);
  }

  /** Both headers in front of a message are removed again, exactly when the message does not begin with a
      folded line (other than one that itself starts a trusted header). */
  lemma StampedHeadersAreStripped(eval: Evaluation, message: string)
    requires NewlineFree(eval)
    ensures var first := Split(message, '\n')[0];
            var stamped := BuildReceivedSPF(eval) + "\n" + BuildAuthenticationResults(eval) + "\n" + message;
            Stripped(stamped) == Stripped(message) <==> (IsFolded(first) ==> IsTrusted(first))
  {
    AuthenticationResultsIsStamp(eval);
    ReceivedSPFIsStamp(eval);
    var results := Split(BuildAuthenticationResults(eval), '\n');
    var header := [BuildReceivedSPF(eval)] + results;
    assert header[1..] == results;
    StrippingUndoesStamping(header, message);
  }

  // ---------- What the stamped headers say ----------

  /** None of the values that the entries are made of has a space in it. */
  predicate Spaceless(eval: Evaluation) {
    && ' ' !in eval.clientIp && ' ' !in SpfDomain(eval) && ' ' !in FromDomain(eval)
    && ' ' !in eval.spfStatus && ' ' !in eval.dkimStatus && ' ' !in eval.dkimDomain && ' ' !in eval.dkimSelector
    && ' ' !in eval.dmarcStatus && ' ' !in eval.dmarcPolicy
  }

  const INDENT := ["", "", "", ""]

  lemma Indentation()
    ensures Split("   ", ' ') == INDENT
  {
    SplitPlain("", ' ');
    OnePartMore("", [""], "", ' ');
    OnePartMore(" ", ["", ""], "", ' ');
    OnePartMore("  ", ["", "", ""], "", ' ');
  }

  lemma WordMore(before: string, parts: seq<string>, p: string, v: string, a: string)
    requires Split(before, ' ') == parts && p == before + " " + a && ' ' !in a && ' ' !in v
    ensures Split(p + v, ' ') == parts + [a + v]
  {
    OnePartMore(before, parts, a + v, ' ');
    assert p + v == before + " " + (a + v);
  }

  /** Two more words: `q` ends with what `w` is preceded by, and `r` holds what `w` is followed and `x` preceded by. */
  lemma TwoWords(before: string, parts: seq<string>, q: string, w: string, r: string, x: string, b: string, b': string, c: string)
    requires Split(before, ' ') == parts && q == " " + b && r == b' + " " + c
    requires ' ' !in b && ' ' !in w && ' ' !in b' && ' ' !in c && ' ' !in x
    ensures Split(before + q + w + r + x, ' ') == parts + [b + w + b', c + x]
  {
    WordMore(before, parts, before + q, w + b', b);
    WordMore(before + q + (w + b'), parts + [b + (w + b')], before + q + (w + b') + " " + c, x, c);
    Regrouped(before + q, w, b', " ", c, x);
    assert b + (w + b') == b + w + b';
  }

  lemma Regrouped(s: string, w: string, b: string, c: string, d: string, x: string)
    ensures s + w + (b + c + d) + x == s + (w + b) + c + d + x
  {
  }

  lemma FixedWord(before: string, parts: seq<string>, spaced: string, a: string)
    requires Split(before, ' ') == parts && ' ' !in a && spaced == " " + a
    ensures Split(before + spaced, ' ') == parts + [a]
  {
    OnePartMore(before, parts, a, ' ');
    assert before + spaced == before + [' '] + a;
  }

  lemma DmarcWords(eval: Evaluation)
    requires Spaceless(eval)
    ensures Split(DmarcEntry(eval), ' ') ==
            INDENT + ["dmarc=" + eval.dmarcStatus] + ["(p=" + eval.dmarcPolicy + ")", "header.from=" + FromDomain(eval)]
  {
    Indentation();
    WordMore("   ", INDENT, "    dmarc=", eval.dmarcStatus, "dmarc=");
    TwoWords("    dmarc=" + eval.dmarcStatus, INDENT + ["dmarc=" + eval.dmarcStatus],
             " (p=", eval.dmarcPolicy, ") header.from=", FromDomain(eval), "(p=", ")", "header.from=");
  }

  lemma DkimWords(eval: Evaluation)
    requires Spaceless(eval) && eval.dkimDomain != ""
    ensures Split(DkimEntry(eval), ' ') ==
            INDENT + ["dkim=" + eval.dkimStatus] +
            ["header.d=" + eval.dkimDomain + "", "header.s=" + (eval.dkimSelector + ";")]
  {
    Indentation();
    WordMore("   ", INDENT, "    dkim=", eval.dkimStatus, "dkim=");
    TwoWords("    dkim=" + eval.dkimStatus, INDENT + ["dkim=" + eval.dkimStatus],
             " header.d=", eval.dkimDomain, " header.s=", eval.dkimSelector + ";", "header.d=", "", "header.s=");
    assert DkimEntry(eval) == "    dkim=" + eval.dkimStatus + " header.d=" + eval.dkimDomain + " header.s=" + (eval.dkimSelector + ";");
  }

  lemma UnsignedWords(eval: Evaluation)
    requires Spaceless(eval) && eval.dkimDomain == ""
    ensures Split(DkimEntry(eval), ' ') == INDENT + ["dkim=" + eval.dkimStatus] + ["(no", "signatures);"]
  {
    Indentation();
    WordMore("   ", INDENT, "    dkim=", eval.dkimStatus, "dkim=");
    var before, parts := "    dkim=" + eval.dkimStatus, INDENT + ["dkim=" + eval.dkimStatus];
    FixedWord(before, parts, " (no", "(no");
    FixedWord(before + " (no", parts + ["(no"], " signatures);", "signatures);");
    assert " (no" + " signatures);" == " (no signatures);";
    Grouped(before, " (no", " signatures);");
  }

  lemma SenderWords(before: string, parts: seq<string>)
    requires Split(before, ' ') == parts
    ensures Split(before + " (sender IP is", ' ') == parts + ["(sender", "IP", "is"]
  {
    FixedWord(before, parts, " (sender", "(sender");
    FixedWord(before + " (sender", parts + ["(sender"], " IP", "IP");
    FixedWord(before + " (sender" + " IP", parts + ["(sender"] + ["IP"], " is", "is");
    Grouped(before + " (sender", " IP", " is");
    Grouped(before, " (sender", " IP" + " is");
    assert " (sender" + (" IP" + " is") == " (sender IP is";
  }

  lemma SpfWords(eval: Evaluation)
    requires Spaceless(eval)
    ensures Split(SpfEntry(eval), ' ') ==
            INDENT + ["spf=" + eval.spfStatus] + ["(sender", "IP", "is"] +
            ["" + eval.clientIp + ")", "smtp.mailfrom=" + (SpfDomain(eval) + ";")]
  {
    var before, parts := "    spf=" + eval.spfStatus, INDENT + ["spf=" + eval.spfStatus];
    Indentation();
    WordMore("   ", INDENT, "    spf=", eval.spfStatus, "spf=");
    SenderWords(before, parts);
    TwoWords(before + " (sender IP is", parts + ["(sender", "IP", "is"],
             " ", eval.clientIp, ") smtp.mailfrom=", SpfDomain(eval) + ";", "", ")", "smtp.mailfrom=");
    assert " (sender IP is " == " (sender IP is" + " ";
    Ends(before, " (sender IP is", " ", eval.clientIp, ") smtp.mailfrom=", SpfDomain(eval), ";");
  }

  lemma Grouped(a: string, b: string, c: string)
    ensures a + b + c == a + (b + c)
  {
  }

  lemma Ends(a: string, b: string, c: string, d: string, e: string, f: string, g: string)
    ensures a + (b + c) + d + e + f + g == a + b + c + d + e + (f + g)
  {
  }

  /** Read line by line and word by word, the header names the server, and gives behind every key its own status or value. */
  lemma ResultsSay(eval: Evaluation)
    requires NewlineFree(eval) && Spaceless(eval)
    ensures var lines := Split(BuildAuthenticationResults(eval), '\n');
            && |lines| == 4
            && lines[0] == "Authentication-Results: " +
                 ((if eval.authServId == "" then "mail.example.com" else eval.authServId) + ";")
            && Split(lines[1], ' ') == INDENT + ["spf=" + eval.spfStatus] + ["(sender", "IP", "is"] +
                 ["" + eval.clientIp + ")", "smtp.mailfrom=" + (SpfDomain(eval) + ";")]
            && Split(lines[2], ' ') == INDENT + ["dkim=" + eval.dkimStatus] +
                 (if eval.dkimDomain == "" then ["(no", "signatures);"]
                  else ["header.d=" + eval.dkimDomain + "", "header.s=" + (eval.dkimSelector + ";")])
            && Split(lines[3], ' ') == INDENT + ["dmarc=" + eval.dmarcStatus] +
                 ["(p=" + eval.dmarcPolicy + ")", "header.from=" + FromDomain(eval)]
  {
    ResultLinesSplit(eval);
    SpfWords(eval);
    if eval.dkimDomain == "" {
      UnsignedWords(eval);
    } else {
      DkimWords(eval);
    }
    DmarcWords(eval);
  }

  lemma ResultLinesSplit(eval: Evaluation)
    requires NewlineFree(eval)
    ensures Split(BuildAuthenticationResults(eval), '\n') ==
            ["Authentication-Results: " + (ServId(eval) + ";"), SpfEntry(eval), DkimEntry(eval), DmarcEntry(eval)]
  {
    ResultLinesArePlain(eval);
    FirstLineSplit("Authentication-Results: ", ResultLines(eval));
  }

  lemma FirstLineSplit(name: string, lines: seq<string>)
    requires lines != [] && '\n' !in name && '\n' !in lines[0] && forall i :: 0 < i < |lines| ==> '\n' !in lines[i]
    ensures Split(name + Join(lines, '\n'), '\n') == [name + lines[0]] + lines[1..]
  {
    PrefixFirstLine(name, lines);
    SplitOfJoin([name + lines[0]] + lines[1..], '\n');
  }

  /** The comment of the Received-SPF header. */
  function SpfComment(eval: Evaluation): string {
    "(" + (ServId(eval) + ": domain of " + SpfDomain(eval) + " designates " + eval.clientIp) + " as permitted sender)"
  }

  /** The Received-SPF header gives the status first, and behind every key its own value last. */
  lemma ReceivedSays(eval: Evaluation)
    requires ' ' !in eval.spfStatus && ' ' !in eval.clientIp && ' ' !in eval.mailFrom && ' ' !in eval.helo
    ensures Split(BuildReceivedSPF(eval), ' ') ==
            ["Received-SPF:", eval.spfStatus] + Split(SpfComment(eval), ' ') +
            ["client-ip=" + eval.clientIp + ";", "envelope-from=" + (eval.mailFrom + ";")] + ["helo=" + (eval.helo + ";")]
  {
    ReceivedText(eval);
    ReceivedValues(eval.spfStatus, SpfComment(eval), eval.clientIp, eval.mailFrom + ";", eval.helo + ";");
  }

  lemma ReceivedValues(status: string, comment: string, ip: string, from: string, helo: string)
    requires ' ' !in status && ' ' !in ip && ' ' !in from && ' ' !in helo
    ensures Split("Received-SPF:" + " " + status + " " + comment + " client-ip=" + ip + "; envelope-from=" + from
                  + " helo=" + helo, ' ') ==
            ["Received-SPF:", status] + Split(comment, ' ') + ["client-ip=" + ip + ";", "envelope-from=" + from]
            + ["helo=" + helo]
  {
    ReceivedWords("Received-SPF:", status, comment, ip, from, helo,
                  " client-ip=", "; envelope-from=", " helo=", "client-ip=", ";", "envelope-from=", "helo=");
  }

  lemma ReceivedWords(name: string, status: string, comment: string, ip: string, from: string, helo: string,
                      p: string, q: string, r: string, a: string, a': string, b: string, c: string)
    requires ' ' !in name && ' ' !in status && ' ' !in ip && ' ' !in from && ' ' !in helo
    requires p == " " + a && q == a' + " " + b && r == " " + c && ' ' !in a && ' ' !in a' && ' ' !in b && ' ' !in c
    ensures Split(name + " " + status + " " + comment + p + ip + q + from + r + helo, ' ') ==
            [name, status] + Split(comment, ' ') + [a + ip + a', b + from] + [c + helo]
  {
    SplitPlain(name, ' ');
    OnePartMore(name, [name], status, ' ');
    SplitConcat(name + " " + status, comment, ' ');
    var before, parts := name + " " + status + " " + comment, [name, status] + Split(comment, ' ');
    TwoWords(before, parts, p, ip, q, from, a, a', b);
    var more := before + p + ip + q + from;
    WordMore(more, parts + [a + ip + a', b + from], more + r, helo, c);
  }

  lemma ReceivedText(eval: Evaluation)
    ensures BuildReceivedSPF(eval) ==
            "Received-SPF:" + " " + eval.spfStatus + " " + SpfComment(eval) + " client-ip=" + eval.clientIp
            + "; envelope-from=" + (eval.mailFrom + ";") + " helo=" + (eval.helo + ";")
  {
    var e := eval;
    CommentInside("Received-SPF: ", e.spfStatus, " (", ServId(e), ": domain of ", SpfDomain(e), " designates ", e.clientIp,
                  " as permitted sender) client-ip=", "Received-SPF:", "(", " as permitted sender)", " client-ip=");
    ValuesBehind("Received-SPF: ", e.spfStatus + " (" + ServId(e) + ": domain of " + SpfDomain(e) + " designates " + e.clientIp
                 + " as permitted sender) client-ip=", e.clientIp, "; envelope-from=", e.mailFrom, "; helo=", e.helo, ";", " helo=");
  }

  lemma CommentInside(p: string, status: string, q: string, id: string, of: string, domain: string, designates: string,
                      ip: string, r: string, name: string, open: string, close: string, key: string)
    requires p == name + " " && q == " " + open && r == close + key
    ensures p + (status + q + id + of + domain + designates + ip + r) ==
            name + " " + status + " " + (open + (id + of + domain + designates + ip) + close) + key
  {
  }

  lemma ValuesBehind(p: string, front: string, ip: string, q: string, from: string, r: string, helo: string, end: string, key: string)
    requires r == end + key
    ensures p + (front + ip + q + from + r + helo + end) == p + front + ip + q + (from + end) + key + (helo + end)
  {
  }

  /** The domain shown for SPF is the one evaluated or else that of the sender's address; for DMARC, what follows the last
      '@' of the author's address. */
  lemma DomainsShown(eval: Evaluation, local: string, domain: string)
    requires '@' !in domain
    ensures eval.spfDomain != "" ==> SpfDomain(eval) == eval.spfDomain
    ensures eval.spfDomain == "" && '@' !in local && eval.mailFrom == local + "@" + domain ==> SpfDomain(eval) == domain
    ensures eval.headerFrom == local + "@" + domain || eval.headerFrom == domain ==> FromDomain(eval) == domain
  {
    SplitConcat(local, domain, '@');
    SplitPlain(domain, '@');
    if '@' !in local {
      SplitPlain(local, '@');
    }
  }

  // ---------- Which lines are taken for trusted headers ----------

  /** A trusted header in front of a message goes as a whole, whether it goes on after a space or after a tab. */
  lemma FoldedHeaderGoes(line: string, c: char, rest: string, message: string)
    requires IsTrusted(line) && '\n' !in line && '\n' !in rest && (c == ' ' || c == '\t')
    requires message == "" || (message[0] != ' ' && message[0] != '\t')
    ensures Stripped(line + "\n" + ([c] + rest) + "\n" + message) == Stripped(message)
  {
    var header := [line, [c] + rest];
    assert header[1..] == [[c] + rest];
    assert Join(header, '\n') == line + "\n" + ([c] + rest);
    FirstOfSplit(message);
    StrippingUndoesStamping(header, message);
  }

  lemma FirstOfSplit(s: string)
    ensures Split(s, '\n')[0] != "" ==> s != "" && Split(s, '\n')[0][0] == s[0]
  {
  }

  /** Such a line begins, after white space, with one of the two names and a colon, in whatever case. */
  lemma TrustedMeans(line: string)
    ensures IsTrusted(line) <==>
            || HasPrefix(ToLower(TrimLeft(line)), "authentication-results:")
            || HasPrefix(ToLower(TrimLeft(line)), "received-spf:")
  {
    PrefixOfTrimmed(TrimLeft(line), "authentication-results:");
    PrefixOfTrimmed(TrimLeft(line), "received-spf:");
  }

  lemma {:induction false} PrefixOfTrimmed(s: string, name: string)
    requires name != "" && name[|name| - 1] == ':'
    ensures HasPrefix(ToLower(TrimRight(s)), name) <==> HasPrefix(ToLower(s), name)
  {
    if s != "" && IsSpace(s[|s| - 1]) {
      var t := s[..|s| - 1];
      PrefixOfTrimmed(t, name);
      assert ToLower(s) == ToLower(t) + [LowerChar(s[|s| - 1])];
      assert LowerChar(s[|s| - 1]) != ':';
      PrefixOfOneLess(ToLower(t), LowerChar(s[|s| - 1]), name);
    }
  }

  lemma PrefixOfOneLess(s: string, c: char, name: string)
    requires name != "" && name[|name| - 1] != c
    ensures HasPrefix(s + [c], name) <==> HasPrefix(s, name)
  {
    if HasPrefix(s + [c], name) {
      assert (s + [c])[|name| - 1] == name[|name| - 1];
      assert |name| <= |s|;
    }
  }
}
