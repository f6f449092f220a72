/** Postfix's queue listing: the parser of `postqueue -p` output and the summary of what it found. */
module Queue {
  import opened Wrappers
  import opened Folds
  import opened Text
  import opened Decimals

  datatype Status = Active | Deferred | Hold | Bounce | Corrupt | Incoming | Unknown

  /** `arrival` is in nanoseconds. */
  datatype Message = Message(id: string, size: int, arrival: int, sender: string, recipient: string, status: Status,
                             reason: string, age: string)

  /** What the parser asks of the outside: the time, time.Parse with its layout (no year, hence never the zero time),
      and the messages found in JSON lines. */
  datatype Env = Env(now: int, parseDate: string -> Option<int>, parseJSON: string -> seq<Message>)

  const EMPTY_QUEUE := "Mail queue is empty"
  const SECOND := 1_000_000_000
  const MINUTE := 60 * SECOND
  const HOUR := 60 * MINUTE
  const MAX_INT64 := 0x7FFF_FFFF_FFFF_FFFF
  const MAX_UINT64 := 0xFFFF_FFFF_FFFF_FFFF

  // ---------- Numbers and ages ----------

  function Clamp(n: int): int {
    if n > MAX_INT64 then MAX_INT64 else if n < -MAX_INT64 - 1 then -MAX_INT64 - 1 else n
  }

  /** strconv.ParseInt(s, 10, 64), without its error: 0 for malformed text, the nearest bound when out of range.
      Digits that overflow are noticed before a character after them that is no digit. */
  function ParseInt(s: string): int {
    var digits := if s != "" && (s[0] == '+' || s[0] == '-') then s[1..] else s;
    var d := DigitLen(digits);
    LeadingDigits(digits);
    var n: int := Number(digits[..d]);
    if d < |digits| && n <= MAX_UINT64 then 0 else if s != "" && s[0] == '-' then Clamp(-n) else Clamp(n)
  }

  /** time.Since saturates. */
  function Since(now: int, t: int): int { Clamp(now - t) }

  function FormatAge(now: int, t: int): string {
    var d := Since(now, t);
    if d < 0 then "0s"
    else if d < MINUTE then Decimal(d / SECOND) + "s"
    else if d < HOUR then Decimal(d / MINUTE) + "m"
    else Decimal(d / HOUR) + "h " + Decimal(d / MINUTE % 60) + "m"
  }

  // ---------- Lines ----------

  predicate Skipped(line: string) {
    HasPrefix(line, "-Queue ID-") || HasPrefix(TrimSpace(line), "-- ") || TrimSpace(line) == ""
  }

  predicate StartsEntry(line: string) {
    |Fields(line)| >= 5 && !HasPrefix(line, " ") && !HasPrefix(line, "\t") && !HasPrefix(line, "(")
  }

  /** The status an id's marker stands for. */
  function StatusOf(rawID: string): Status {
    if HasSuffix(rawID, "*") then Active else if HasSuffix(rawID, "!") then Hold else Deferred
  }

  function WithoutMarker(rawID: string): string {
    if HasSuffix(rawID, "*") || HasSuffix(rawID, "!") then rawID[..|rawID| - 1] else rawID
  }

  function Arrival(env: Env, date: seq<string>): int {
    if |date| < 3 then env.now else
      match env.parseDate(Join(date, ' '))
      case Some(t) => t
      case None => env.now
  }

  function Start(env: Env, fields: seq<string>): Message
    requires |fields| >= 5
  {
    Message(WithoutMarker(fields[0]), ParseInt(fields[1]), Arrival(env, fields[2..|fields| - 1]),
            fields[|fields| - 1], "", StatusOf(fields[0]), "", "")
  }

  /** A line below an entry's first: its reason in parentheses, or a recipient. */
  function Amend(m: Message, line: string): Message {
    var t := TrimSpace(line);
    if HasPrefix(t, "(") then
      if |t| >= 2 && HasSuffix(t, ")") then m.(reason := t[1..|t| - 1]) else m
    else m.(recipient := t)
  }

  function Flush(current: Option<Message>): seq<Message> {
    match current
    case Some(m) => [m]
    case None => []
  }

  function Messages(env: Env, lines: seq<string>, current: Option<Message>): seq<Message> {
    if lines == [] then Flush(current)
    else if Skipped(lines[0]) then Messages(env, lines[1..], current)
    else if StartsEntry(lines[0]) then Flush(current) + Messages(env, lines[1..], Some(Start(env, Fields(lines[0]))))
    else
      match current
      case Some(m) => Messages(env, lines[1..], Some(Amend(m, lines[0])))
      case None => Messages(env, lines[1..], None)
  }

  function WithAge(now: int, m: Message): Message { m.(age := FormatAge(now, m.arrival)) }

  function Aged(now: int, messages: seq<Message>): (r: seq<Message>)
    ensures |r| == |messages|
  {
    seq(|messages|, i requires 0 <= i < |messages| => WithAge(now, messages[i]))
  }

  /** The messages in a trimmed listing. */
  function Found(env: Env, text: string): seq<Message> {
    if text == "" || Contains(text, EMPTY_QUEUE) then []
    else if HasPrefix(text, "{") && env.parseJSON(text) != [] then env.parseJSON(text)
    else Messages(env, Split(text, '\n'), None)
  }

  function Parsed(env: Env, output: string): seq<Message> { Aged(env.now, Found(env, TrimSpace(output))) }

  // ---------- The summary ----------

  datatype Tallies = Tallies(active: nat, deferred: nat, hold: nat, bounce: nat, corrupt: nat, incoming: nat)

  function Add(t: Tallies, s: Status): Tallies {
    match s
    case Active => t.(active := t.active + 1)
    case Deferred => t.(deferred := t.deferred + 1)
    case Hold => t.(hold := t.hold + 1)
    case Bounce => t.(bounce := t.bounce + 1)
    case Corrupt => t.(corrupt := t.corrupt + 1)
    case Incoming => t.(incoming := t.incoming + 1)
    case Unknown => t
  }

  function Tallied(messages: seq<Message>): Tallies {
    if messages == [] then Tallies(0, 0, 0, 0, 0, 0)
    else Add(Tallied(messages[..|messages| - 1]), messages[|messages| - 1].status)
  }

  function HasStatus(s: Status): Message -> bool { (m: Message) => m.status == s }

  /** Each counter counts its own status. */
  lemma {:induction false} TalliedCounts(messages: seq<Message>)
    ensures Tallied(messages) == Tallies(Count(HasStatus(Active), messages), Count(HasStatus(Deferred), messages),
                                         Count(HasStatus(Hold), messages), Count(HasStatus(Bounce), messages),
                                         Count(HasStatus(Corrupt), messages), Count(HasStatus(Incoming), messages))
  {
    if messages != [] {
      TalliedCounts(messages[..|messages| - 1]);
    }
  }

  /** The first of the messages that arrived earliest. */
  predicate IsOldest(messages: seq<Message>, oldest: Option<nat>) {
    match oldest
    case None => messages == []
    case Some(k) =>
      && k < |messages|
      && (forall i :: 0 <= i < |messages| ==> messages[k].arrival <= messages[i].arrival)
      && (forall i :: 0 <= i < k ==> messages[k].arrival < messages[i].arrival)
  }

  /** `oldest` is the position of the message the original points to. */
  class QueueSummary {
    var active: nat
    var deferred: nat
    var hold: nat
    var bounce: nat
    var corrupt: nat
    var incoming: nat
    var total: nat
    var oldest: Option<nat>

    constructor ()
      ensures Summarizes([])
    {
      active, deferred, hold, bounce, corrupt, incoming, total, oldest := 0, 0, 0, 0, 0, 0, 0, None;
    }

    function Counters(): Tallies
      reads this
    {
      Tallies(active, deferred, hold, bounce, corrupt, incoming)
    }

    predicate Summarizes(messages: seq<Message>)
      reads this
    {
      Counters() == Tallied(messages) && total == |messages| && IsOldest(messages, oldest)
    }

    method CountStatus(s: Status)
      modifies `active, `deferred, `hold, `bounce, `corrupt, `incoming
      ensures Counters() == Add(old(Counters()), s)
    {
      match s {
        case Active => active := active + 1;
        case Deferred => deferred := deferred + 1;
        case Hold => hold := hold + 1;
        case Bounce => bounce := bounce + 1;
        case Corrupt => corrupt := corrupt + 1;
        case Incoming => incoming := incoming + 1;
        case Unknown =>
      }
    }

    /** Fills a fresh summary and writes every message's age. */
    method Populate(now: int, messages: array<Message>)
      requires Counters() == Tallied([])
      modifies this, messages
      ensures messages[..] == Aged(now, old(messages[..]))
      ensures Summarizes(old(messages[..]))
    {
      ghost var found := messages[..];
      total := messages.Length;
      oldest := None;
      for i := 0 to messages.Length
        invariant total == messages.Length == |found|
        invariant forall k :: 0 <= k < i ==> messages[k] == WithAge(now, found[k])
        invariant forall k :: i <= k < |found| ==> messages[k] == found[k]
        invariant Counters() == Tallied(found[..i])
        invariant IsOldest(found[..i], oldest)
      {
        OldestStep(found, i, oldest);
        PrefixStep(found, i);
        messages[i] := WithAge(now, messages[i]);
        CountStatus(messages[i].status);
        if oldest == None || messages[i].arrival < messages[oldest.value].arrival {
          oldest := Some(i);
        }
      }
      assert found[..|found|] == found;
    }
  }

  lemma OldestStep(messages: seq<Message>, i: nat, oldest: Option<nat>)
    requires i < |messages| && IsOldest(messages[..i], oldest)
    ensures oldest.Some? ==> oldest.value < i
    ensures oldest == None || messages[i].arrival < messages[oldest.value].arrival ==>
              IsOldest(messages[..i + 1], Some(i))
    ensures oldest.Some? && messages[i].arrival >= messages[oldest.value].arrival ==>
              IsOldest(messages[..i + 1], oldest)
  {
    var s, t := messages[..i], messages[..i + 1];
    assert forall k :: 0 <= k < i ==> s[k] == t[k];
  }

  /** What an entry's first line says. */
  method StartMessage(env: Env, fields: seq<string>) returns (m: Message)
    requires |fields| >= 5
    ensures m == Start(env, fields)
  {
    var rawID, status := fields[0], Deferred;
    if HasSuffix(rawID, "*") {
      status := Active;
      rawID := rawID[..|rawID| - 1];
    } else if HasSuffix(rawID, "!") {
      status := Hold;
      rawID := rawID[..|rawID| - 1];
    }
    var size, sender := ParseInt(fields[1]), fields[|fields| - 1];
    m := Message(rawID, size, Arrival(env, fields[2..|fields| - 1]), sender, "", status, "", "");
  }

  /** The loop over the lines of a listing. */
  method ParseLines(env: Env, lines: seq<string>) returns (messages: seq<Message>)
    ensures messages == Messages(env, lines, None)
  {
    messages := [];
    var current: Option<Message> := None;
    for i := 0 to |lines|
      invariant messages + Messages(env, lines[i..], current) == Messages(env, lines, None)
    {
      var line := lines[i];
      assert lines[i..][0] == line && lines[i..][1..] == lines[i + 1..];
      if Skipped(line) {
        continue;
      }
      if StartsEntry(line) {
        if current.Some? {
          messages := messages + [current.value];
        }
        var m := StartMessage(env, Fields(line));
        current := Some(m);
      } else if current.Some? {
        current := Some(Amend(current.value, line));
      }
    }
    messages := messages + Flush(current);
  }

  method FindMessages(env: Env, text: string) returns (found: seq<Message>)
    ensures found == Found(env, text)
  {
    found := [];
    if text == "" || Contains(text, EMPTY_QUEUE) {
      return;
    }
    if HasPrefix(text, "{") {
      found := env.parseJSON(text);
    }
    if found == [] {
      found := ParseLines(env, Split(text, '\n'));
    }
  }

  method ParseQueueOutput(env: Env, output: string) returns (messages: array<Message>, summary: QueueSummary)
    ensures fresh(messages) && fresh(summary)
    ensures messages[..] == Parsed(env, output)
    ensures summary.Summarizes(messages[..])
  {
    summary := new QueueSummary();
    var found := FindMessages(env, TrimSpace(output));
    messages := new Message[|found|](i requires 0 <= i < |found| => found[i]);
    assert messages[..] == found;
    summary.Populate(env.now, messages);
    TalliedAged(env.now, found);
    OldestAged(env.now, found, summary.oldest);
  }

  lemma OldestAged(now: int, messages: seq<Message>, oldest: Option<nat>)
    requires IsOldest(messages, oldest)
    ensures IsOldest(Aged(now, messages), oldest)
  {
  }

  /** The counters do not look at the age. */
  lemma {:induction false} TalliedAged(now: int, messages: seq<Message>)
    ensures Tallied(Aged(now, messages)) == Tallied(messages)
  {
    if messages != [] {
      var n := |messages| - 1;
      TalliedAged(now, messages[..n]);
      assert Aged(now, messages)[..n] == Aged(now, messages[..n]);
    }
  }

  function Sum(t: Tallies): nat { t.active + t.deferred + t.hold + t.bounce + t.corrupt + t.incoming }

  /** The six counters add up to the total exactly when no message has another status. */
  lemma CountersSumToTotal(summary: QueueSummary, messages: seq<Message>)
    requires summary.Summarizes(messages)
    ensures Sum(summary.Counters()) == summary.total <==> forall m :: m in messages ==> m.status != Unknown
  {
    StatusesPartition(messages);
    CountBound(HasStatus(Unknown), messages);
  }

  lemma AddOne(t: Tallies, s: Status)
    ensures Sum(Add(t, s)) == Sum(t) + if s == Unknown then 0 else 1
  {
  }

  lemma {:induction false} StatusesPartition(messages: seq<Message>)
    ensures Sum(Tallied(messages)) + Count(HasStatus(Unknown), messages) == |messages|
  {
    if messages != [] {
      var n := |messages| - 1;
      StatusesPartition(messages[..n]);
      AddOne(Tallied(messages[..n]), messages[n].status);
    }
  }

  /** The listing's parser never yields another status, so there the counters do add up. */
  lemma {:induction false} TextStatuses(env: Env, lines: seq<string>, current: Option<Message>)
    requires current.Some? ==> current.value.status != Unknown
    ensures forall m :: m in Messages(env, lines, current) ==> m.status != Unknown
  {
    if lines != [] {
      if Skipped(lines[0]) || (!StartsEntry(lines[0]) && current == None) {
        TextStatuses(env, lines[1..], current);
      } else if StartsEntry(lines[0]) {
        TextStatuses(env, lines[1..], Some(Start(env, Fields(lines[0]))));
      } else {
        TextStatuses(env, lines[1..], Some(Amend(current.value, lines[0])));
      }
    }
  }
}
