/** What token rotation guarantees over every run. */
module TokenTheorems {
  import opened Wrappers
  import opened Tokens

  /** The table after the run `ops` from the table `t`. */
  function TableAfter(hash: string -> string, t: Table, ops: seq<Op>): Table {
    if ops == [] then t else Step(hash, TableAfter(hash, t, ops[..|ops| - 1]), ops[|ops| - 1]).0
  }

  /** What the `i`-th operation of the run answers. */
  function Answer(hash: string -> string, t: Table, ops: seq<Op>, i: nat): Outcome
    requires i < |ops|
  {
    Step(hash, TableAfter(hash, t, ops[..i]), ops[i]).1
  }

  // ---------- Rows are never lost, and never come back to life ----------

  predicate SameToken(r: Row, q: Row) {
    r.userId == q.userId && r.email == q.email && r.role == q.role && r.kind == q.kind && r.expiresAt == q.expiresAt
  }

  ghost predicate Grows(t: Table, u: Table) {
    forall h :: h in t ==> h in u && SameToken(t[h], u[h]) && (Revoked(t[h]) ==> Revoked(u[h]))
  }

  lemma IssueGrows(hash: string -> string, t: Table, userId: Option<string>, email: string, role: string,
                   now: int, at: Draw, rt: Draw)
    ensures Grows(t, Issue(hash, t, userId, email, role, now, at, rt).0)
  {
  }

  lemma HashRevocationGrows(t: Table, h: string, now: int, ok: bool)
    ensures Grows(t, if ok then RevokedByHash(t, h, now) else t)
  {
  }

  lemma EmailRevocationGrows(t: Table, email: string, now: int, ok: bool)
    ensures Grows(t, if ok then RevokedForEmail(t, email, now) else t)
  {
  }

  lemma UseGrows(t: Table, h: string, now: int, ok: bool)
    ensures Grows(t, if ok then UsedByHash(t, h, now) else t)
  {
  }

  lemma Unchanged(t: Table)
    ensures Grows(t, t)
  {
  }

  lemma GrowsOn(t: Table, u: Table, v: Table)
    requires Grows(t, u) && Grows(u, v)
    ensures Grows(t, v)
  {
  }

  lemma RotationGrows(hash: string -> string, t: Table, op: Op)
    requires op.Rotate?
    ensures Grows(t, Step(hash, t, op).0)
  {
    var h := hash(op.raw);
    if h in t {
      var t1 := if op.writeOk then RevokedByHash(t, h, op.now) else t;
      HashRevocationGrows(t, h, op.now, op.writeOk);
      EmailRevocationGrows(t, t[h].email, op.now, op.writeOk);
      IssueGrows(hash, t1, t[h].userId, t[h].email, t[h].role, op.now, op.at, op.rt);
      GrowsOn(t, t1, Issue(hash, t1, t[h].userId, t[h].email, t[h].role, op.now, op.at, op.rt).0);
    }
    Unchanged(t);
  }

  lemma OtherStepsGrow(hash: string -> string, t: Table, op: Op)
    requires op.Validate? || op.Revoke? || op.RevokeAll?
    ensures Grows(t, Step(hash, t, op).0)
  {
    Unchanged(t);
    match op
    case Validate(raw, now, writeOk) => UseGrows(t, hash(raw), now, writeOk);
    case Revoke(raw, now, writeOk) => HashRevocationGrows(t, hash(raw), now, writeOk);
    case RevokeAll(email, now, writeOk) => EmailRevocationGrows(t, email, now, writeOk);
  }

  lemma StepGrows(hash: string -> string, t: Table, op: Op)
    ensures Grows(t, Step(hash, t, op).0)
  {
    if op.Login? {
      IssueGrows(hash, t, op.userId, op.email, op.role, op.now, op.at, op.rt);
    } else if op.Rotate? {
      RotationGrows(hash, t, op);
    } else {
      OtherStepsGrow(hash, t, op);
    }
  }

  lemma {:induction false} RunGrows(hash: string -> string, t: Table, ops: seq<Op>, i: nat)
    requires i <= |ops|
    ensures Grows(TableAfter(hash, t, ops[..i]), TableAfter(hash, t, ops))
  {
    if i == |ops| {
      assert ops[..i] == ops;
    } else {
      var init := ops[..|ops| - 1];
      assert init[..i] == ops[..i];
      RunGrows(hash, t, init, i);
      StepGrows(hash, TableAfter(hash, t, init), ops[|ops| - 1]);
    }
  }

  // ---------- Single use ----------

  /** A successful exchange leaves the old token revoked exactly when the revocation was written. */
  lemma ExchangeRevokes(hash: string -> string, t: Table, op: Op)
    requires op.Rotate? && Step(hash, t, op).1.Issued?
    ensures var h := hash(op.raw);
            var u := Step(hash, t, op).0;
            && h in t && t[h].kind == Refresh && !Revoked(t[h]) && h in u && u[h].kind == Refresh
            && (Revoked(u[h]) <==> op.writeOk)
  {
  }

  /** In every run a refresh token is exchanged at most once, as long as the revocation that goes with the
      exchange is written; and presenting it again revokes whatever has been stored for its account. */
  lemma SingleUse(hash: string -> string, t: Table, ops: seq<Op>, i: nat, j: nat)
    requires i < j < |ops| && ops[i].Rotate? && ops[j].Rotate? && ops[i].raw == ops[j].raw
    requires Answer(hash, t, ops, i).Issued? && ops[i].writeOk
    ensures Answer(hash, t, ops, j) == Refused(TokenRevoked)
  {
    var h := hash(ops[i].raw);
    ExchangeRevokes(hash, TableAfter(hash, t, ops[..i]), ops[i]);
    assert ops[..i + 1][..i] == ops[..i] && ops[..i + 1][i] == ops[i];
    RunGrows(hash, t, ops[..j], i + 1);
    assert ops[..j][..i + 1] == ops[..i + 1];
    var u := TableAfter(hash, t, ops[..j]);
    assert h in u && Revoked(u[h]) && u[h].kind == Refresh;
    assert ops[i].raw != "";
  }

  /** Both new tokens can be drawn, and stored under hashes that are not taken. */
  predicate Fresh(hash: string -> string, t: Table, at: Draw, rt: Draw) {
    && at.token.Some? && at.insertOk && hash(at.token.value) !in t
    && rt.token.Some? && rt.insertOk && hash(rt.token.value) !in t && hash(rt.token.value) != hash(at.token.value)
  }

  lemma IssuesWhenFresh(hash: string -> string, t: Table, userId: Option<string>, email: string, role: string,
                        now: int, at: Draw, rt: Draw)
    ensures Issue(hash, t, userId, email, role, now, at, rt).1.Issued? <==> Fresh(hash, t, at, rt)
  {
  }

  /** After a successful exchange, the same token is exchanged once more, whenever both new tokens are fresh and it has
      not expired, if and only if the revocation was not written. */
  lemma SecondExchange(hash: string -> string, t: Table, op: Op, later: int, writeOk: bool, at: Draw, rt: Draw)
    requires op.Rotate? && Step(hash, t, op).1.Issued?
    ensures var u := Step(hash, t, op).0;
            hash(op.raw) in t && hash(op.raw) in u &&
            (Step(hash, u, Rotate(op.raw, later, writeOk, at, rt)).1.Issued? <==>
             !op.writeOk && later <= t[hash(op.raw)].expiresAt && Fresh(hash, u, at, rt))
  {
    var u, h := Step(hash, t, op).0, hash(op.raw);
    ExchangeRevokes(hash, t, op);
    StepGrows(hash, t, op);
    assert SameToken(t[h], u[h]);
    var u1 := if writeOk then RevokedByHash(u, h, later) else u;
    assert u1.Keys == u.Keys;
    IssuesWhenFresh(hash, u1, u[h].userId, u[h].email, u[h].role, later, at, rt);
  }

  // ---------- What a pair is good for ----------

  /** The account and role a pair issued by `op` stands for. */
  function ClaimsOf(hash: string -> string, t: Table, op: Op): Claims
    requires op.Login? || (op.Rotate? && hash(op.raw) in t)
  {
    if op.Login? then Claims(op.userId, op.email, RoleOr(op.role))
    else var r := t[hash(op.raw)]; Claims(r.userId, r.email, RoleOr(r.role))
  }

  /** A pair just issued does what it is for: until it expires, the access token validates with the claims it was
      issued for, and the refresh token is exchanged whenever fresh tokens can be stored; neither is accepted for the
      other. */
  lemma FreshPairWorks(hash: string -> string, t: Table, op: Op, later: int, writeOk: bool, at: Draw, rt: Draw)
    requires (op.Login? || op.Rotate?) && Step(hash, t, op).1.Issued?
    requires var pair := Step(hash, t, op).1.pair; pair.access != "" && pair.refresh != ""
    ensures op.Login? || hash(op.raw) in t
    ensures var (u, pair) := (Step(hash, t, op).0, Step(hash, t, op).1.pair);
            && Step(hash, u, Validate(pair.access, later, writeOk)).1 ==
                 (if later > op.now + ACCESS_TTL then Refused(TokenExpired) else Valid(ClaimsOf(hash, t, op)))
            && Step(hash, u, Validate(pair.refresh, later, writeOk)).1 == Refused(InvalidToken)
            && Step(hash, u, Rotate(pair.access, later, writeOk, at, rt)).1 == Refused(InvalidToken)
            && (Step(hash, u, Rotate(pair.refresh, later, writeOk, at, rt)).1 == Refused(TokenExpired)
                <==> later > op.now + REFRESH_TTL)
            && (Step(hash, u, Rotate(pair.refresh, later, writeOk, at, rt)).1.Issued?
                <==> later <= op.now + REFRESH_TTL && Fresh(hash, u, at, rt))
  {
    PairRows(hash, t, op);
    var (u, pair) := (Step(hash, t, op).0, Step(hash, t, op).1.pair);
    var h := hash(pair.refresh);
    var u1 := if writeOk then RevokedByHash(u, h, later) else u;
    assert u1.Keys == u.Keys;
    IssuesWhenFresh(hash, u1, u[h].userId, u[h].email, u[h].role, later, at, rt);
  }

  lemma PairRows(hash: string -> string, t: Table, op: Op)
    requires (op.Login? || op.Rotate?) && Step(hash, t, op).1.Issued?
    ensures op.Login? || hash(op.raw) in t
    ensures var (u, pair, c) := (Step(hash, t, op).0, Step(hash, t, op).1.pair, ClaimsOf(hash, t, op));
            && hash(pair.access) in u && u[hash(pair.access)] == NewRow(c.userId, c.email, c.role, Access, op.now)
            && hash(pair.refresh) in u && u[hash(pair.refresh)] == NewRow(c.userId, c.email, c.role, Refresh, op.now)
  {
    if op.Login? {
      IssuedRows(hash, t, op.userId, op.email, op.role, op.now, op.at, op.rt);
    } else {
      var r := t[hash(op.raw)];
      var t1 := if op.writeOk then RevokedByHash(t, hash(op.raw), op.now) else t;
      IssuedRows(hash, t1, r.userId, r.email, r.role, op.now, op.at, op.rt);
    }
  }

  lemma IssuedRows(hash: string -> string, t: Table, userId: Option<string>, email: string, role: string,
                   now: int, at: Draw, rt: Draw)
    requires Issue(hash, t, userId, email, role, now, at, rt).1.Issued?
    ensures var (u, r) := Issue(hash, t, userId, email, role, now, at, rt);
            && hash(r.pair.access) in u && u[hash(r.pair.access)] == NewRow(userId, email, RoleOr(role), Access, now)
            && hash(r.pair.refresh) in u && u[hash(r.pair.refresh)] == NewRow(userId, email, RoleOr(role), Refresh, now)
  {
    var t1 := t[hash(at.token.value) := NewRow(userId, email, RoleOr(role), Access, now)];
    assert hash(at.token.value) in t1 && hash(rt.token.value) !in t1;
    assert Issue(hash, t, userId, email, role, now, at, rt) ==
      (t1[hash(rt.token.value) := NewRow(userId, email, RoleOr(role), Refresh, now)],
       Issued(Pair(at.token.value, rt.token.value, ACCESS_TTL)));
  }

  // ---------- Family revocation ----------

  /** Presenting a revoked refresh token leaves every token stored so far for that account revoked, in that
      state and in all later ones; none of them validates or can be exchanged again. */
  lemma ReplayRevokesFamily(hash: string -> string, t: Table, ops: seq<Op>, i: nat, h: string)
    requires i < |ops| && ops[i].Rotate? && ops[i].writeOk
    requires Answer(hash, t, ops, i) == Refused(TokenRevoked)
    requires var u := TableAfter(hash, t, ops[..i]); h in u && u[h].email == u[hash(ops[i].raw)].email
    ensures forall j :: i < j <= |ops| ==>
              var u := TableAfter(hash, t, ops[..j]); h in u && Revoked(u[h])
    ensures forall j :: i < j < |ops| && (ops[j].Rotate? || ops[j].Validate?) && hash(ops[j].raw) == h ==>
              !Answer(hash, t, ops, j).Issued? && !Answer(hash, t, ops, j).Valid?
  {
    forall j | i < j <= |ops|
      ensures var u := TableAfter(hash, t, ops[..j]); h in u && Revoked(u[h])
    {
      ReplayStays(hash, t, ops, i, h, j);
    }
    forall j | i < j < |ops| && (ops[j].Rotate? || ops[j].Validate?) && hash(ops[j].raw) == h
      ensures !Answer(hash, t, ops, j).Issued? && !Answer(hash, t, ops, j).Valid?
    {
      ReplayStays(hash, t, ops, i, h, j);
      RevokedIsUseless(hash, TableAfter(hash, t, ops[..j]), ops[j]);
    }
  }

  lemma ReplayStays(hash: string -> string, t: Table, ops: seq<Op>, i: nat, h: string, j: nat)
    requires i < j <= |ops| && ops[i].Rotate? && ops[i].writeOk
    requires Answer(hash, t, ops, i) == Refused(TokenRevoked)
    requires var u := TableAfter(hash, t, ops[..i]); h in u && u[h].email == u[hash(ops[i].raw)].email
    ensures var u := TableAfter(hash, t, ops[..j]); h in u && Revoked(u[h])
  {
    assert ops[..i + 1][..i] == ops[..i] && ops[..i + 1][i] == ops[i];
    RunGrows(hash, t, ops[..j], i + 1);
    assert ops[..j][..i + 1] == ops[..i + 1];
  }

  lemma RevokedIsUseless(hash: string -> string, t: Table, op: Op)
    requires (op.Rotate? || op.Validate?) && hash(op.raw) in t && Revoked(t[hash(op.raw)])
    ensures !Step(hash, t, op).1.Issued? && !Step(hash, t, op).1.Valid?
  {
  }

  // ---------- Lineage ----------

  /** The table together with the chain every token belongs to; chain `c` was started by a login for
      `born[c]`. Chains are numbered by the login that started them. */
  datatype History = History(table: Table, chain: map<string, nat>, born: map<nat, (string, string)>)

  /** The chain the tokens stored by `op`, the `n`-th operation, go to. */
  function ChainOf(hash: string -> string, s: History, op: Op, n: nat): nat {
    if op.Rotate? && hash(op.raw) in s.chain then s.chain[hash(op.raw)] else n
  }

  /** The history once `op` has left the table `u`. */
  function ExtendTo(hash: string -> string, s: History, op: Op, n: nat, u: Table): History {
    var c := ChainOf(hash, s, op, n);
    History(u, map h | h in u :: if h in s.chain then s.chain[h] else c,
            if op.Login? then s.born[n := (op.email, RoleOr(op.role))] else s.born)
  }

  function Extend(hash: string -> string, s: History, op: Op, n: nat): History {
    ExtendTo(hash, s, op, n, Step(hash, s.table, op).0)
  }

  function HistoryAfter(hash: string -> string, ops: seq<Op>): History {
    if ops == [] then History(map[], map[], map[])
    else Extend(hash, HistoryAfter(hash, ops[..|ops| - 1]), ops[|ops| - 1], |ops| - 1)
  }

  /** Every token carries the account and role of the login that started its chain. */
  ghost predicate Descends(s: History, n: nat) {
    && s.chain.Keys == s.table.Keys
    && (forall c :: c in s.born ==> c < n && s.born[c].1 != "")
    && (forall h :: h in s.table ==> s.chain[h] in s.born && s.born[s.chain[h]] == (s.table[h].email, s.table[h].role))
  }

  predicate Live(s: History, h: string) { h in s.table && h in s.chain && s.table[h].kind == Refresh && !Revoked(s.table[h]) }

  /** A chain has at most one refresh token that is not revoked. */
  ghost predicate OneLive(s: History) {
    forall h, k :: Live(s, h) && Live(s, k) && s.chain[h] == s.chain[k] ==> h == k
  }

  lemma HistoryIsTheRun(hash: string -> string, ops: seq<Op>)
    ensures HistoryAfter(hash, ops).table == TableAfter(hash, map[], ops)
  {
  }

  predicate NewIn(t: Table, u: Table, h: string) { h in u && h !in t }

  /** The rows `op` adds to `t`: those of a login, or of the account and role of the token it rotates; at most
      one of them is a refresh token, and then a rotation whose write went through has revoked the old one. */
  ghost predicate Adds(hash: string -> string, t: Table, op: Op, u: Table) {
    && (forall h :: NewIn(t, u, h) ==> op.Login? || (op.Rotate? && hash(op.raw) in t))
    && (op.Login? ==> forall h :: NewIn(t, u, h) ==> u[h].email == op.email && u[h].role == RoleOr(op.role))
    && (op.Rotate? && hash(op.raw) in t ==>
          var r := t[hash(op.raw)];
          forall h :: NewIn(t, u, h) ==>
            && u[h].email == r.email && u[h].role == RoleOr(r.role)
            && r.kind == Refresh && !Revoked(r)
            && hash(op.raw) in u && (op.writeOk ==> Revoked(u[hash(op.raw)])))
    && (forall h, k :: NewIn(t, u, h) && NewIn(t, u, k) && u[h].kind == Refresh && u[k].kind == Refresh ==> h == k)
  }

  lemma IssueAdds(hash: string -> string, t: Table, userId: Option<string>, email: string, role: string,
                  now: int, at: Draw, rt: Draw)
    ensures var u := Issue(hash, t, userId, email, role, now, at, rt).0;
            && (forall h :: h in t ==> h in u && u[h] == t[h])
            && (forall h :: NewIn(t, u, h) ==> u[h].email == email && u[h].role == RoleOr(role))
            && (forall h, k :: NewIn(t, u, h) && NewIn(t, u, k) && u[h].kind == Refresh && u[k].kind == Refresh ==> h == k)
  {
  }

  lemma StepAdds(hash: string -> string, t: Table, op: Op)
    ensures Adds(hash, t, op, Step(hash, t, op).0)
  {
    match op
    case Login(userId, email, role, now, at, rt) =>
      IssueAdds(hash, t, userId, email, role, now, at, rt);
    case Rotate(raw, now, writeOk, at, rt) =>
      var h := hash(raw);
      if h in t {
        var t1 := if writeOk then RevokedByHash(t, h, now) else t;
        IssueAdds(hash, t1, t[h].userId, t[h].email, t[h].role, now, at, rt);
      }
    case _ =>
  }

  lemma ExtendDescends(hash: string -> string, s: History, op: Op, n: nat, u: Table)
    requires Descends(s, n) && Grows(s.table, u) && Adds(hash, s.table, op, u)
    ensures Descends(ExtendTo(hash, s, op, n, u), n + 1)
  {
    var s' := ExtendTo(hash, s, op, n, u);
    forall h | h in u ensures s'.chain[h] in s'.born && s'.born[s'.chain[h]] == (u[h].email, u[h].role) {
      if h in s.table {
        assert s'.chain[h] == s.chain[h] < n && SameToken(s.table[h], u[h]);
      } else {
        assert NewIn(s.table, u, h);
        if op.Rotate? {
          assert hash(op.raw) in s.table && s.chain[hash(op.raw)] in s.born;
        }
      }
    }
  }

  lemma ExtendOneLive(hash: string -> string, s: History, op: Op, n: nat, u: Table)
    requires Descends(s, n) && OneLive(s) && Grows(s.table, u) && Adds(hash, s.table, op, u)
    requires op.Rotate? ==> op.writeOk || forall h :: NewIn(s.table, u, h) ==> u[h].kind != Refresh
    ensures OneLive(ExtendTo(hash, s, op, n, u))
  {
    var s' := ExtendTo(hash, s, op, n, u);
    forall h, k | Live(s', h) && Live(s', k) && s'.chain[h] == s'.chain[k] ensures h == k {
      if h in s.table && k in s.table {
        assert Live(s, h) && Live(s, k);
      } else if h in s.table || k in s.table {
        // The old one of the two would be the token that was rotated away.
        var old', new' := if h in s.table then h else k, if h in s.table then k else h;
        assert NewIn(s.table, u, new') && Live(s, old');
      } else {
        assert NewIn(s.table, u, h) && NewIn(s.table, u, k);
      }
    }
  }

  /** A new refresh token is stored only along with a pair that is handed out. */
  lemma RefreshMeansIssued(hash: string -> string, t: Table, op: Op, h: string)
    requires NewIn(t, Step(hash, t, op).0, h) && Step(hash, t, op).0[h].kind == Refresh
    ensures Step(hash, t, op).1.Issued?
  {
  }

  /** An exchange without its write leaves two live refresh tokens in the chain. */
  lemma TwoLive(hash: string -> string, s: History, op: Op, n: nat)
    requires Descends(s, n) && op.Rotate? && Step(hash, s.table, op).1.Issued? && !op.writeOk
    ensures !OneLive(Extend(hash, s, op, n))
  {
    var s', old', new' := Extend(hash, s, op, n), hash(op.raw), hash(Step(hash, s.table, op).1.pair.refresh);
    ExchangeRevokes(hash, s.table, op);
    PairRows(hash, s.table, op);
    IssuesWhenFresh(hash, s.table, s.table[old'].userId, s.table[old'].email, s.table[old'].role, op.now, op.at, op.rt);
    assert new' !in s.table && old' != new';
    assert Live(s', old') && Live(s', new') && s'.chain[old'] == s'.chain[new'];
  }

  /** From a history in which every chain has at most one live refresh token, a step keeps this if and only if it is no
      successful exchange whose revocation was not written. */
  lemma StepKeepsOneLive(hash: string -> string, s: History, op: Op, n: nat)
    requires Descends(s, n) && OneLive(s)
    ensures OneLive(Extend(hash, s, op, n)) <==> (op.Rotate? && Step(hash, s.table, op).1.Issued? ==> op.writeOk)
  {
    if op.Rotate? && Step(hash, s.table, op).1.Issued? && !op.writeOk {
      TwoLive(hash, s, op, n);
    } else {
      var u := Step(hash, s.table, op).0;
      StepGrows(hash, s.table, op);
      StepAdds(hash, s.table, op);
      forall h | NewIn(s.table, u, h) && u[h].kind == Refresh ensures Step(hash, s.table, op).1.Issued? {
        RefreshMeansIssued(hash, s.table, op, h);
      }
      ExtendOneLive(hash, s, op, n, u);
    }
  }

  /** In every run from the empty table, each token carries the account and role of its chain's login. */
  lemma {:induction false} Lineage(hash: string -> string, ops: seq<Op>)
    ensures Descends(HistoryAfter(hash, ops), |ops|)
  {
    if ops != [] {
      var n := |ops| - 1;
      Lineage(hash, ops[..n]);
      var s, op := HistoryAfter(hash, ops[..n]), ops[n];
      var u := Step(hash, s.table, op).0;
      StepGrows(hash, s.table, op);
      StepAdds(hash, s.table, op);
      ExtendDescends(hash, s, op, n, u);
    }
  }

  ghost predicate AllPrefixes(p: seq<Op> -> bool, ops: seq<Op>) { forall k :: 0 <= k <= |ops| ==> p(ops[..k]) }

  lemma PrefixesStep(p: seq<Op> -> bool, ops: seq<Op>)
    requires ops != []
    ensures AllPrefixes(p, ops) <==> AllPrefixes(p, ops[..|ops| - 1]) && p(ops)
  {
    var n := |ops| - 1;
    assert ops[..|ops|] == ops;
    assert forall k :: 0 <= k <= n ==> ops[..n][..k] == ops[..k];
  }

  ghost function OneLiveAfter(hash: string -> string): seq<Op> -> bool { ops => OneLive(HistoryAfter(hash, ops)) }

  /** In every state of the run, each chain has at most one live refresh token. */
  ghost predicate AlwaysOneLive(hash: string -> string, ops: seq<Op>) { AllPrefixes(OneLiveAfter(hash), ops) }

  /** Every successful exchange of the run has its revocation written. */
  predicate ExchangesWritten(hash: string -> string, ops: seq<Op>) {
    forall i :: 0 <= i < |ops| && ops[i].Rotate? && Answer(hash, map[], ops, i).Issued? ==> ops[i].writeOk
  }

  lemma WrittenStep(hash: string -> string, ops: seq<Op>)
    requires ops != []
    ensures var n := |ops| - 1;
            ExchangesWritten(hash, ops) <==>
            ExchangesWritten(hash, ops[..n]) && (ops[n].Rotate? && Answer(hash, map[], ops, n).Issued? ==> ops[n].writeOk)
  {
    var n := |ops| - 1;
    forall i | 0 <= i < n ensures Answer(hash, map[], ops[..n], i) == Answer(hash, map[], ops, i) {
      assert ops[..n][..i] == ops[..i];
    }
    assert forall i :: 0 <= i < n ==> ops[..n][i] == ops[i];
  }

  /** Over a run from the empty table, no chain ever has two live refresh tokens if and only if every successful
      exchange has its revocation written. */
  lemma {:induction false} LineageIsExact(hash: string -> string, ops: seq<Op>)
    ensures AlwaysOneLive(hash, ops) <==> ExchangesWritten(hash, ops)
  {
    if ops == [] {
      assert ops[..0] == [];
    } else {
      var n := |ops| - 1;
      LineageIsExact(hash, ops[..n]);
      PrefixesStep(OneLiveAfter(hash), ops);
      WrittenStep(hash, ops);
      Lineage(hash, ops[..n]);
      HistoryIsTheRun(hash, ops[..n]);
      if AlwaysOneLive(hash, ops[..n]) {
        assert ops[..n][..n] == ops[..n];
        StepKeepsOneLive(hash, HistoryAfter(hash, ops[..n]), ops[n], n);
      }
    }
  }

  /** Whoever validates is who logged in: the claims of a valid access token name the account and the role of
      a login that happened earlier in the run. */
  lemma ClaimsComeFromALogin(hash: string -> string, ops: seq<Op>, i: nat)
    requires i < |ops| && Answer(hash, map[], ops, i).Valid?
    ensures var claims := Answer(hash, map[], ops, i).claims;
            exists k :: 0 <= k < i && ops[k].Login? && ops[k].email == claims.email && RoleOr(ops[k].role) == claims.role
  {
    Lineage(hash, ops[..i]);
    HistoryIsTheRun(hash, ops[..i]);
    var s := HistoryAfter(hash, ops[..i]);
    var k := s.chain[hash(ops[i].raw)];
    BornAtLogin(hash, ops[..i], k);
  }

  lemma {:induction false} BornAtLogin(hash: string -> string, ops: seq<Op>, c: nat)
    requires c in HistoryAfter(hash, ops).born
    ensures c < |ops| && ops[c].Login? && HistoryAfter(hash, ops).born[c] == (ops[c].email, RoleOr(ops[c].role))
  {
    var n := |ops| - 1;
    if ops[n].Login? && c == n {
    } else {
      BornAtLogin(hash, ops[..n], c);
    }
  }
}
