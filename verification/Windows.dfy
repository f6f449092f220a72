/**
 Sliding-window admission control: the specification both rate limiters are held against, and what it
 guarantees over every run.
 */
module Windows {

  /** `closed`: an admission exactly `width` old still counts. */
  datatype Policy = Policy(closed: bool, limit: int, width: int)

  /** One decision: who asked, when, and whether the request was let through. */
  datatype Event = Event(key: string, at: int, admitted: bool)

  predicate Recent(p: Policy, now: int, t: int) {
    if p.closed then now - t <= p.width else now - t < p.width
  }

  /** The timestamps that still count at time `now`. */
  function Prune(p: Policy, now: int, ts: seq<int>): seq<int> {
    if ts == [] then [] else
      var rest := Prune(p, now, ts[..|ts| - 1]);
      if Recent(p, now, ts[|ts| - 1]) then rest + [ts[|ts| - 1]] else rest
  }

  lemma {:induction false} PruneTwice(p: Policy, now: int, later: int, ts: seq<int>)
    requires now <= later
    ensures Prune(p, later, Prune(p, now, ts)) == Prune(p, later, ts)
  {
    if ts != [] {
      var init, t := ts[..|ts| - 1], ts[|ts| - 1];
      PruneTwice(p, now, later, init);
      if Recent(p, now, t) {
        assert (Prune(p, now, init) + [t])[..|Prune(p, now, init)|] == Prune(p, now, init);
      }
    }
  }

  // ---------- The reference: decisions from the log alone ----------

  /** The times at which `key` was let through. */
  function Admissions(log: seq<Event>, key: string): seq<int> {
    if log == [] then [] else
      var rest := Admissions(log[..|log| - 1], key);
      var e := log[|log| - 1];
      if e.key == key && e.admitted then rest + [e.at] else rest
  }

  /** `e` let `key` through no longer than `width` before `now`, or less than that if the window is half-open. */
  function LetIn(p: Policy, key: string, now: int): Event -> bool {
    (e: Event) => e.key == key && e.admitted && (e.at > now - p.width || (p.closed && e.at == now - p.width))
  }

  ghost function Positions(q: Event -> bool, log: seq<Event>): set<int> { set i | 0 <= i < |log| && q(log[i]) }

  /** The positions of the log at which `key` was let through in the trailing window. */
  ghost function InWindow(p: Policy, log: seq<Event>, key: string, now: int): set<int> {
    Positions(LetIn(p, key, now), log)
  }

  /** A request is let through exactly when fewer than `limit` admissions lie in the trailing window. */
  ghost predicate Due(p: Policy, log: seq<Event>, key: string, now: int) { |InWindow(p, log, key, now)| < p.limit }

  lemma OnePositionMore(q: Event -> bool, log: seq<Event>)
    requires log != []
    ensures var n := |log| - 1; |Positions(q, log)| == |Positions(q, log[..n])| + if q(log[n]) then 1 else 0
  {
    var n := |log| - 1;
    assert Positions(q, log) == Positions(q, log[..n]) + if q(log[n]) then {n} else {};
  }

  /** These are as many as pruning leaves of the times of all admissions. */
  lemma {:induction false} PrunedAreInWindow(p: Policy, log: seq<Event>, key: string, now: int)
    ensures |Prune(p, now, Admissions(log, key))| == |InWindow(p, log, key, now)|
  {
    if log != [] {
      var n := |log| - 1;
      var init, e := log[..n], log[n];
      PrunedAreInWindow(p, init, key, now);
      var before := Admissions(init, key);
      assert (before + [e.at])[..|before|] == before;
      OnePositionMore(LetIn(p, key, now), log);
    }
  }

  ghost predicate Exact(p: Policy, log: seq<Event>) {
    forall i :: 0 <= i < |log| ==> (log[i].admitted <==> Due(p, log[..i], log[i].key, log[i].at))
  }

  lemma ExactPrefix(p: Policy, log: seq<Event>, n: nat)
    requires Exact(p, log) && n <= |log|
    ensures Exact(p, log[..n])
  {
    var init := log[..n];
    forall i | 0 <= i < n ensures init[i].admitted <==> Due(p, init[..i], init[i].key, init[i].at) {
      assert init[..i] == log[..i] && init[i] == log[i];
    }
  }

  // ---------- The window bound ----------

  /** `t` lies in the interval of length `width` that starts at `start`. */
  predicate InSpan(p: Policy, start: int, t: int) {
    start <= t && (if p.closed then t <= start + p.width else t < start + p.width)
  }

  function CountIn(p: Policy, start: int, ts: seq<int>): nat {
    if ts == [] then 0 else
      CountIn(p, start, ts[..|ts| - 1]) + if InSpan(p, start, ts[|ts| - 1]) then 1 else 0
  }

  lemma {:induction false} SpanWithinWindow(p: Policy, start: int, now: int, ts: seq<int>)
    requires InSpan(p, start, now)
    ensures CountIn(p, start, ts) <= |Prune(p, now, ts)|
  {
    if ts != [] {
      SpanWithinWindow(p, start, now, ts[..|ts| - 1]);
    }
  }

  /** No interval of the window's length holds more than `limit` admissions of one key. */
  lemma {:induction false} WindowBound(p: Policy, log: seq<Event>, key: string, start: int)
    requires Exact(p, log)
    ensures CountIn(p, start, Admissions(log, key)) <= if p.limit > 0 then p.limit else 0
  {
    if log != [] {
      var n := |log| - 1;
      var init, e := log[..n], log[n];
      ExactPrefix(p, log, n);
      WindowBound(p, init, key, start);
      if e.key == key && e.admitted {
        var before := Admissions(init, key);
        assert (before + [e.at])[..|before|] == before;
        if InSpan(p, start, e.at) {
          SpanWithinWindow(p, start, e.at, before);
          PrunedAreInWindow(p, init, key, e.at);
        }
      }
    }
  }

  // ---------- The limiter: a table of timestamps per key ----------

  type Table = map<string, seq<int>>

  function Stored(m: Table, key: string): seq<int> { if key in m then m[key] else [] }

  predicate Allows(p: Policy, m: Table, key: string, now: int) {
    |Prune(p, now, Stored(m, key))| < p.limit
  }

  /** The table after a request; on refusal the pruned timestamps are written back or not. */
  function AfterRequest(p: Policy, writeBack: bool, m: Table, key: string, now: int): Table {
    var active := Prune(p, now, Stored(m, key));
    if |active| < p.limit then m[key := active + [now]] else if writeBack then m[key := active] else m
  }

  /** The table after an eviction: stale timestamps go, and so do keys left without any. */
  function AfterEviction(p: Policy, m: Table, now: int): Table {
    map k | k in m && Prune(p, now, m[k]) != [] :: Prune(p, now, m[k])
  }

  datatype Op = Request(key: string, at: int) | Evict(at: int)

  function TableAfter(p: Policy, writeBack: bool, ops: seq<Op>): Table {
    if ops == [] then map[] else
      var m := TableAfter(p, writeBack, ops[..|ops| - 1]);
      match ops[|ops| - 1]
      case Request(key, at) => AfterRequest(p, writeBack, m, key, at)
      case Evict(at) => AfterEviction(p, m, at)
  }

  /** The decisions the limiter takes in a run. */
  function Decisions(p: Policy, writeBack: bool, ops: seq<Op>): seq<Event> {
    if ops == [] then [] else
      var init := ops[..|ops| - 1];
      match ops[|ops| - 1]
      case Request(key, at) =>
        Decisions(p, writeBack, init) + [Event(key, at, Allows(p, TableAfter(p, writeBack, init), key, at))]
      case Evict(_) => Decisions(p, writeBack, init)
  }

  ghost predicate Chronological(ops: seq<Op>) {
    forall i, j :: 0 <= i < j < |ops| ==> ops[i].at <= ops[j].at
  }

  /** From time `now` on, the table says about every key what the whole log says. */
  ghost predicate Agrees(p: Policy, m: Table, log: seq<Event>, now: int) {
    forall k :: Prune(p, now, Stored(m, k)) == Prune(p, now, Admissions(log, k))
  }

  lemma AgreesLater(p: Policy, m: Table, log: seq<Event>, now: int, later: int)
    requires now <= later && Agrees(p, m, log, now)
    ensures Agrees(p, m, log, later)
  {
    forall k ensures Prune(p, later, Stored(m, k)) == Prune(p, later, Admissions(log, k)) {
      PruneTwice(p, now, later, Stored(m, k));
      PruneTwice(p, now, later, Admissions(log, k));
    }
  }

  lemma AllowsIsDue(p: Policy, m: Table, log: seq<Event>, key: string, now: int)
    requires Agrees(p, m, log, now)
    ensures Allows(p, m, key, now) <==> Due(p, log, key, now)
  {
    PrunedAreInWindow(p, log, key, now);
  }

  /** Lists with the same timestamps that still count agree on what is added to them, pruned or not. */
  lemma ListsAgree(p: Policy, now: int, s: seq<int>, a: seq<int>)
    requires Prune(p, now, s) == Prune(p, now, a)
    ensures Prune(p, now, Prune(p, now, s)) == Prune(p, now, a)
    ensures Prune(p, now, Prune(p, now, s) + [now]) == Prune(p, now, a + [now])
  {
    var active := Prune(p, now, s);
    PruneTwice(p, now, now, s);
    assert (active + [now])[..|active|] == active && (a + [now])[..|a|] == a;
  }

  lemma AdmissionsStep(log: seq<Event>, e: Event, key: string)
    ensures Admissions(log + [e], key) == Admissions(log, key) + if e.key == key && e.admitted then [e.at] else []
  {
    assert (log + [e])[..|log|] == log;
  }

  lemma AgreesRequest(p: Policy, writeBack: bool, m: Table, log: seq<Event>, key: string, now: int)
    requires Agrees(p, m, log, now)
    ensures Agrees(p, AfterRequest(p, writeBack, m, key, now), log + [Event(key, now, Allows(p, m, key, now))], now)
  {
    var m' := AfterRequest(p, writeBack, m, key, now);
    var e := Event(key, now, Allows(p, m, key, now));
    forall k ensures Prune(p, now, Stored(m', k)) == Prune(p, now, Admissions(log + [e], k)) {
      AdmissionsStep(log, e, k);
      if k == key {
        ListsAgree(p, now, Stored(m, k), Admissions(log, k));
      }
    }
  }

  lemma AgreesEviction(p: Policy, m: Table, log: seq<Event>, now: int)
    requires Agrees(p, m, log, now)
    ensures Agrees(p, AfterEviction(p, m, now), log, now)
  {
    forall k ensures Prune(p, now, Stored(AfterEviction(p, m, now), k)) == Prune(p, now, Admissions(log, k)) {
      PruneTwice(p, now, now, Stored(m, k));
    }
  }

  lemma {:induction false} RunAgrees(p: Policy, writeBack: bool, ops: seq<Op>, now: int)
    requires Chronological(ops) && forall i :: 0 <= i < |ops| ==> ops[i].at <= now
    ensures Agrees(p, TableAfter(p, writeBack, ops), Decisions(p, writeBack, ops), now)
    ensures Exact(p, Decisions(p, writeBack, ops))
  {
    if ops != [] {
      var init, op := ops[..|ops| - 1], ops[|ops| - 1];
      RunAgrees(p, writeBack, init, op.at);
      var m, log := TableAfter(p, writeBack, init), Decisions(p, writeBack, init);
      match op {
        case Request(key, at) =>
          AllowsIsDue(p, m, log, key, at);
          AgreesRequest(p, writeBack, m, log, key, at);
          var log' := Decisions(p, writeBack, ops);
          assert log'[..|log|] == log;
          forall i | 0 <= i < |log'| ensures log'[i].admitted <==> Due(p, log'[..i], log'[i].key, log'[i].at) {
            if i < |log| {
              assert log'[..i] == log[..i];
            }
          }
        case Evict(at) =>
          AgreesEviction(p, m, log, at);
      }
      AgreesLater(p, TableAfter(p, writeBack, ops), Decisions(p, writeBack, ops), op.at, now);
    }
  }

  // ---------- The main results ----------

  /** Over every interleaving of requests and evictions, a request is refused exactly when `limit` admissions
      lie in its trailing window, and no interval of the window's length ever holds more. */
  lemma LimiterIsExact(p: Policy, writeBack: bool, ops: seq<Op>)
    requires Chronological(ops)
    ensures Exact(p, Decisions(p, writeBack, ops))
    ensures forall key, start :: CountIn(p, start, Admissions(Decisions(p, writeBack, ops), key))
                                 <= if p.limit > 0 then p.limit else 0
  {
    if ops != [] {
      RunAgrees(p, writeBack, ops, ops[|ops| - 1].at);
    }
    forall key, start {
      WindowBound(p, Decisions(p, writeBack, ops), key, start);
    }
  }

  function Requests(ops: seq<Op>): seq<Op> {
    if ops == [] then [] else
      var op := ops[|ops| - 1];
      Requests(ops[..|ops| - 1]) + if op.Request? then [op] else []
  }

  lemma {:induction false} SameQuestions(p: Policy, writeBack: bool, ops: seq<Op>)
    ensures var log := Decisions(p, writeBack, ops);
            && |log| == |Requests(ops)|
            && forall i :: 0 <= i < |log| ==> Requests(ops)[i] == Request(log[i].key, log[i].at)
  {
    if ops != [] {
      SameQuestions(p, writeBack, ops[..|ops| - 1]);
    }
  }

  /** The decisions follow from the questions: an exact log is determined by who asked when. */
  lemma {:induction false} ExactIsUnique(p: Policy, log: seq<Event>, log': seq<Event>)
    requires Exact(p, log) && Exact(p, log') && |log| == |log'|
    requires forall i :: 0 <= i < |log| ==> log[i].key == log'[i].key && log[i].at == log'[i].at
    ensures log == log'
  {
    if log != [] {
      var n := |log| - 1;
      ExactPrefix(p, log, n);
      ExactPrefix(p, log', n);
      ExactIsUnique(p, log[..n], log'[..n]);
      assert log[n].admitted == log'[n].admitted;
      assert log == log[..n] + [log[n]] && log' == log'[..n] + [log'[n]];
    }
  }

  /** Eviction never changes a decision: runs that ask the same questions at the same times get the same
      answers, whenever and however often the evictor runs, and whether or not refusals write back. */
  lemma EvictionChangesNothing(p: Policy, writeBack: bool, writeBack': bool, ops: seq<Op>, ops': seq<Op>)
    requires Chronological(ops) && Chronological(ops')
    requires Requests(ops) == Requests(ops')
    ensures Decisions(p, writeBack, ops) == Decisions(p, writeBack', ops')
  {
    LimiterIsExact(p, writeBack, ops);
    LimiterIsExact(p, writeBack', ops');
    SameQuestions(p, writeBack, ops);
    SameQuestions(p, writeBack', ops');
    var log, log' := Decisions(p, writeBack, ops), Decisions(p, writeBack', ops');
    forall i | 0 <= i < |log| ensures log[i].key == log'[i].key && log[i].at == log'[i].at {
      assert Requests(ops)[i] == Requests(ops')[i];
    }
    ExactIsUnique(p, log, log');
  }
}
