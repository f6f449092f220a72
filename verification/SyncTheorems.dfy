/** What a directory synchronisation guarantees as a whole. */
module DirectorySyncTheorems {
  import opened Wrappers
  import opened Folds
  import opened Text
  import opened DirectorySync

  // ---------- The order of the listing ----------

  lemma ClaimantPermuted(ids: seq<Identity>, jds: seq<Identity>, e: string)
    requires multiset(ids) == multiset(jds)
    ensures Claimants(ids, e) == Claimants(jds, e)
    ensures Claimants(ids, e) == 1 ==> Claimant(ids, e) == Claimant(jds, e)
  {
    CountPermuted(Claiming(e), ids, jds);
    if Claimants(ids, e) == 1 {
      var x := Claimant(jds, e);
      assert x in multiset(jds) && x in multiset(ids);
      var i :| 0 <= i < |ids| && ids[i] == x;
      SoleClaimant(ids, e, i, i);
    }
  }

  /** The listing may come in any order: the table ends up the same, and so do the counters and, up to
      their order, the errors. */
  lemma OrderIndependence(w: World, o: Options, ids: seq<Identity>, jds: seq<Identity>, t: Table)
    requires multiset(ids) == multiset(jds)
    ensures Synced(w, o, ids, t) == Synced(w, o, jds, t)
    ensures var r, q := ReportOn(w, o, ids, t), ReportOn(w, o, jds, t);
            r.(errors := []) == q.(errors := []) && multiset(r.errors) == multiset(q.errors)
  {
    forall e ensures Lookup(Synced(w, o, ids, t), e) == Lookup(Synced(w, o, jds, t), e) {
      ClaimantPermuted(ids, jds, e);
      SyncedAt(w, o, ids, t, e);
      SyncedAt(w, o, jds, t, e);
    }
    SameTable(Synced(w, o, ids, t), Synced(w, o, jds, t));
    var f, g := Judging(w, o, ids, t), Judging(w, o, jds, t);
    forall x ensures f(x) == g(x) {
      ClaimantPermuted(ids, jds, Canonical(x.email));
    }
    assert |ids| == |multiset(ids)| == |multiset(jds)| == |jds|;
    SameReport(f, g, ids, jds);
  }

  lemma SameReport(f: Identity -> Verdict, g: Identity -> Verdict, ids: seq<Identity>, jds: seq<Identity>)
    requires multiset(ids) == multiset(jds) && forall x :: x in ids ==> f(x) == g(x)
    ensures forall k :: Count(IsKind(f, k), ids) == Count(IsKind(g, k), jds)
    ensures multiset(FlatMap(Complaints(f), ids)) == multiset(FlatMap(Complaints(g), jds))
  {
    forall k ensures Count(IsKind(f, k), ids) == Count(IsKind(g, k), jds) {
      CountAgrees(IsKind(f, k), IsKind(g, k), ids);
      CountPermuted(IsKind(g, k), ids, jds);
    }
    FlatMapPermuted(Complaints(f), Complaints(g), ids, jds);
  }

  // ---------- Which entries pass, and what becomes of them ----------

  /** The address is `local@domain.tld`, of the right characters. */
  lemma ValidEmailOf(local: string, domain: string, tld: string)
    requires local != "" && domain != "" && |tld| >= 2
    requires (forall c :: c in local ==> IsLetter(c) || IsDigit(c) || c in "._%+-")
    requires forall c :: c in domain ==> IsLetter(c) || IsDigit(c) || c in ".-"
    requires forall c :: c in tld ==> IsLetter(c)
    ensures ValidEmail(local + "@" + domain + "." + tld)
  {
    var e := local + "@" + domain + "." + tld;
    assert EmailShape(e, |local|, |local| + 1 + |domain|);
  }

  /** Every valid address is. */
  lemma ValidEmailParts(e: string) returns (local: string, domain: string, tld: string)
    requires ValidEmail(e)
    ensures e == local + "@" + domain + "." + tld && local != "" && domain != "" && |tld| >= 2
    ensures (forall c :: c in local ==> IsLetter(c) || IsDigit(c) || c in "._%+-")
    ensures forall c :: c in domain ==> IsLetter(c) || IsDigit(c) || c in ".-"
    ensures forall c :: c in tld ==> IsLetter(c)
  {
    var at, dot :| 0 <= at < |e| && 0 <= dot < |e| && EmailShape(e, at, dot);
    local, domain, tld := e[..at], e[at + 1..dot], e[dot + 1..];
  }

  /** The domain asked for, if any is. */
  predicate IsAsked(o: Options, domain: string) { o.domainName == "" || EqualFold(domain, o.domainName) }

  /** Registered, if there is a table of domains. */
  predicate IsKnown(w: World, domain: string) { w.domains.Some? ==> domain in w.domains.value }

  predicate IsActive(w: World, domain: string)
    requires IsKnown(w, domain)
  {
    w.domains.Some? ==> w.domains.value[domain] == "active"
  }

  /** The entry alone claims its address, in which `domain` follows the '@'. */
  ghost predicate ClaimsAlone(ids: seq<Identity>, x: Identity, domain: string) {
    var e := Canonical(x.email);
    && x in ids && Claims(x, e) && Claimants(ids, e) == 1
    && exists at :: 0 <= at < |e| && e[at] == '@' && domain == e[at + 1..]
  }

  /** It does, and the domain is the one asked for, registered and active. */
  ghost predicate Passes(w: World, o: Options, ids: seq<Identity>, x: Identity, domain: string) {
    ClaimsAlone(ids, x, domain) && IsAsked(o, domain) && IsKnown(w, domain) && IsActive(w, domain)
  }

  lemma ClaimedDomain(ids: seq<Identity>, x: Identity, domain: string)
    requires ClaimsAlone(ids, x, domain)
    ensures var e := Canonical(x.email); '@' in e && DomainOf(e) == domain
  {
    var e := Canonical(x.email);
    ValidEmailSplit(e);
    var i :| 0 < i < |e| && Split(e, '@') == [e[..i], e[i + 1..]];
    var at :| 0 <= at < |e| && e[at] == '@' && domain == e[at + 1..];
    assert '@' !in Split(e, '@')[0] && '@' !in Split(e, '@')[1];
    OnlyThere(e, '@', i, at);
  }

  lemma OnlyThere(s: string, c: char, i: nat, at: nat)
    requires i < |s| && c !in s[..i] && c !in s[i + 1..] && at < |s| && s[at] == c
    ensures at == i
  {
    assert forall j :: 0 <= j < i ==> s[j] == s[..i][j];
    assert forall j :: i < j < |s| ==> s[j] == s[i + 1..][j - i - 1];
  }

  /** Every entry that alone claims its address does so in one domain. */
  lemma HasDomain(ids: seq<Identity>, x: Identity) returns (domain: string)
    requires var e := Canonical(x.email); x in ids && Claims(x, e) && Claimants(ids, e) == 1
    ensures ClaimsAlone(ids, x, domain)
  {
    var e := Canonical(x.email);
    ValidEmailSplit(e);
    var at :| 0 < at < |e| && Split(e, '@') == [e[..at], e[at + 1..]];
    domain := e[at + 1..];
    EmailSplitsAt(e, at);
  }

  lemma EmailSplitsAt(e: string, at: nat)
    requires at < |e| && Split(e, '@') == [e[..at], e[at + 1..]]
    ensures e[at] == '@'
  {
    JoinOfSplit(e, '@');
    assert [e[..at], e[at + 1..]][1..] == [e[at + 1..]];
    assert Join([e[..at], e[at + 1..]], '@') == e[..at] + ['@'] + e[at + 1..];
  }

  /** What an entry with an address of its own comes to, exactly. */
  lemma VerdictIsExact(w: World, o: Options, ids: seq<Identity>, t: Table, x: Identity, domain: string)
    requires ClaimsAlone(ids, x, domain)
    ensures var e, v := Canonical(x.email), VerdictOn(w, o, ids, t, x);
            var creates: bool := o.autoCreate && !o.dryRun && w.hasMailboxService;
            var passes := Passes(w, o, ids, x, domain);
            && (v == Created <==> passes && e !in t && creates && w.create(e).Made?)
            && (v == Failed(CreateFailed(e)) <==> passes && e !in t && creates && !w.create(e).Made?)
            && (v == Skipped([Takeover(e, x.id)]) <==> passes && e in t && t[e].provider == "local")
            && (v == Suspended <==>
                passes && e in t && t[e].provider != "local" && x.status == "disabled" && t[e].status == "active")
            && (v == Updated <==>
                passes && e in t && t[e].provider != "local" && !(x.status == "disabled" && t[e].status == "active"))
            && (v == Skipped([UnknownDomain(e)]) <==> IsAsked(o, domain) && !IsKnown(w, domain))
            && (v == Skipped([InactiveDomain(e)]) <==>
                IsAsked(o, domain) && IsKnown(w, domain) && !IsActive(w, domain))
            && (v == Skipped([]) <==> !IsAsked(o, domain) || (passes && e !in t && !creates))
  {
    ClaimedDomain(ids, x, domain);
  }

  /** The other entries are passed over: those without an address silently, the others with their complaint. */
  lemma OthersArePassedOver(w: World, o: Options, ids: seq<Identity>, t: Table, x: Identity)
    requires x in ids && (Claims(x, Canonical(x.email)) ==> Claimants(ids, Canonical(x.email)) != 1)
    ensures var e, v := Canonical(x.email), VerdictOn(w, o, ids, t, x);
            v == Skipped(if e == "" then [] else if ValidEmail(e) then [Collision(e, x.id)] else [BadFormat(e)])
  {
    var e := Canonical(x.email);
    CountBound(Claiming(e), ids);
    assert Claims(x, e) ==> Claiming(e)(x);
  }

  /** An error is reported if and only if some entry gave rise to it. */
  lemma ErrorsReported(w: World, o: Options, ids: seq<Identity>, t: Table, err: SyncError)
    ensures err in ReportOn(w, o, ids, t).errors <==>
            exists x: Identity :: x in ids && (VerdictOn(w, o, ids, t, x) == Skipped([err]) || VerdictOn(w, o, ids, t, x) == Failed(err))
  {
    var f := Judging(w, o, ids, t);
    InFlatMap(Complaints(f), ids, err);
    forall x: Identity ensures err in Complaints(f)(x) <==> f(x) == Skipped([err]) || f(x) == Failed(err) {
      OneComplaint(w, o, Claimants(ids, Canonical(x.email)), x, Lookup(t, Canonical(x.email)));
    }
  }

  lemma OneComplaint(w: World, o: Options, claimants: nat, x: Identity, row: Option<Row>)
    ensures var v := Judge(w, o, claimants, x, row);
            |ErrorsOf(v)| <= 1 && (v.Skipped? ==> ErrorsOf(v) == v.why) && (v.Failed? ==> ErrorsOf(v) == [v.error])
  {
  }

  /** The row a run leaves at the address of an entry that passes: an LDAP-managed active mailbox of a disabled
      identity is suspended, a missing mailbox is created, and nothing else changes. */
  lemma PassedRow(w: World, o: Options, ids: seq<Identity>, t: Table, x: Identity, domain: string)
    requires Passes(w, o, ids, x, domain)
    ensures var e := Canonical(x.email);
            Lookup(Synced(w, o, ids, t), e) ==
              if e in t then
                Some(if t[e].provider != "local" && t[e].status == "active" && x.status == "disabled"
                        && !o.dryRun && w.statusWrite(e) then t[e].(status := "suspended") else t[e])
              else if !o.autoCreate || o.dryRun || !w.hasMailboxService || w.create(e).Refused? then None
              else Some(Row("active", if w.create(e).Made? && w.providerWrite(e) then "ldap" else "local",
                            w.create(e).provisioning))
  {
    var e := Canonical(x.email);
    ClaimedDomain(ids, x, domain);
    var i :| 0 <= i < |ids| && ids[i] == x;
    SoleClaimant(ids, e, i, i);
    SyncedAt(w, o, ids, t, e);
  }

  /** All other rows stay as they are. */
  lemma OtherRowsStay(w: World, o: Options, ids: seq<Identity>, t: Table, e: string)
    requires forall x: Identity, domain: string :: Canonical(x.email) == e ==> !Passes(w, o, ids, x, domain)
    ensures Lookup(Synced(w, o, ids, t), e) == Lookup(t, e)
  {
    SyncedAt(w, o, ids, t, e);
    if Claimants(ids, e) == 1 {
      var x := Claimant(ids, e);
      var domain := HasDomain(ids, x);
      assert !Passes(w, o, ids, x, domain);
      VerdictIsExact(w, o, ids, t, x, domain);
      ClaimedDomain(ids, x, domain);
    }
  }

  // ---------- Convergence ----------

  /** The entry passes the checks and has no mailbox; the run creates one for this disabled identity, marks it
      LDAP-managed, and could suspend it. */
  ghost predicate CreatesDisabled(w: World, o: Options, ids: seq<Identity>, t: Table, x: Identity) {
    var e := Canonical(x.email);
    && (exists domain :: Passes(w, o, ids, x, domain))
    && e !in t && o.autoCreate && !o.dryRun && w.hasMailboxService && w.create(e).Made?
    && x.status == "disabled" && w.providerWrite(e) && w.statusWrite(e)
  }

  /** That is what passing the screening comes to. */
  lemma PassesScreen(w: World, o: Options, ids: seq<Identity>, x: Identity)
    requires var e := Canonical(x.email); x in ids && Claims(x, e) && Claimants(ids, e) == 1
    ensures Screen(w, o, 1, x) == None <==> exists domain :: Passes(w, o, ids, x, domain)
  {
    var domain := HasDomain(ids, x);
    ClaimedDomain(ids, x, domain);
    assert Screen(w, o, 1, x) == None <==> Passes(w, o, ids, x, domain);
    forall d | Passes(w, o, ids, x, d) ensures d == domain {
      ClaimedDomain(ids, x, d);
    }
  }

  /** A second verdict changes the row the first one left only by suspending a mailbox just created. */
  lemma RowTwice(w: World, o: Options, e: string, x: Identity, row: Option<Row>)
    ensures var v := JudgeRow(w, o, e, x, row);
            var row1 := Settle(w, o, e, v, row);
            (Settle(w, o, e, JudgeRow(w, o, e, x, row1), row1) != row1)
            <==> (v == Created && x.status == "disabled" && w.providerWrite(e) && w.statusWrite(e))
  {
  }

  lemma TwiceAt(w: World, o: Options, ids: seq<Identity>, t: Table, e: string)
    ensures var t1 := Synced(w, o, ids, t);
            (Target(w, o, ids, t1, e) != Lookup(t1, e))
            <==> (Claimants(ids, e) == 1 && CreatesDisabled(w, o, ids, t, Claimant(ids, e)))
  {
    SyncedAt(w, o, ids, t, e);
    if Claimants(ids, e) == 1 {
      RowTwice(w, o, e, Claimant(ids, e), Lookup(t, e));
      PassesScreen(w, o, ids, Claimant(ids, e));
    }
  }

  /** One run reaches a fixpoint unless it created a mailbox for a disabled identity. */
  lemma ConvergesAfterOneRun(w: World, o: Options, ids: seq<Identity>, t: Table)
    ensures var t1 := Synced(w, o, ids, t);
            Synced(w, o, ids, t1) == t1 <==> forall x :: !CreatesDisabled(w, o, ids, t, x)
  {
    var t1 := Synced(w, o, ids, t);
    var t2 := Synced(w, o, ids, t1);
    if t2 == t1 {
      forall x ensures !CreatesDisabled(w, o, ids, t, x) {
        var e := Canonical(x.email);
        TwiceAt(w, o, ids, t, e);
        SyncedAt(w, o, ids, t1, e);
        if x in ids && Claims(x, e) && Claimants(ids, e) == 1 {
          var i :| 0 <= i < |ids| && ids[i] == x;
          SoleClaimant(ids, e, i, i);
        }
      }
    }
    if forall x :: !CreatesDisabled(w, o, ids, t, x) {
      forall e ensures Lookup(t2, e) == Lookup(t1, e) {
        TwiceAt(w, o, ids, t, e);
        SyncedAt(w, o, ids, t1, e);
      }
      SameTable(t2, t1);
    }
  }

  /** Two runs always do. */
  lemma ConvergesAfterTwoRuns(w: World, o: Options, ids: seq<Identity>, t: Table)
    ensures var t2 := Synced(w, o, ids, Synced(w, o, ids, t)); Synced(w, o, ids, t2) == t2
  {
    ConvergesAfterOneRun(w, o, ids, Synced(w, o, ids, t));
    forall x {
      NothingCreatedTwice(w, o, ids, t, x);
    }
  }

  lemma NothingCreatedTwice(w: World, o: Options, ids: seq<Identity>, t: Table, x: Identity)
    ensures !CreatesDisabled(w, o, ids, Synced(w, o, ids, t), x)
  {
    var t1 := Synced(w, o, ids, t);
    if CreatesDisabled(w, o, ids, t1, x) {
      var domain :| Passes(w, o, ids, x, domain);
      PassedRow(w, o, ids, t, x, domain);
    }
  }

  // ---------- What a synchronisation achieves ----------

  lemma RowAchieved(w: World, o: Options, e: string, x: Identity, row: Option<Row>)
    requires !o.dryRun && o.autoCreate && w.hasMailboxService && w.create(e).Made? && w.providerWrite(e) && w.statusWrite(e)
    ensures var row1 := Settle(w, o, e, JudgeRow(w, o, e, x, row), row);
            var row2 := Settle(w, o, e, JudgeRow(w, o, e, x, row1), row1);
            && row2.Some?
            && (row2.value.provider != "local" && x.status == "disabled" ==> row2.value.status != "active")
            && (row.None? ==> row2.value.provider == "ldap" && (row2.value.status == "active" <==> x.status != "disabled"))
  {
  }

  /** After two runs in which everything goes through, an address claimed by exactly one entry, in a domain that is the
      one asked for, registered and active, has a mailbox; one made by the runs is LDAP-managed and active exactly when the identity is not
      disabled; and no LDAP-managed mailbox of a disabled identity is active. */
  lemma SyncAchieves(w: World, o: Options, ids: seq<Identity>, t: Table, x: Identity, domain: string)
    requires Passes(w, o, ids, x, domain)
    requires var e := Canonical(x.email);
             !o.dryRun && o.autoCreate && w.hasMailboxService && w.create(e).Made? && w.providerWrite(e) && w.statusWrite(e)
    ensures var e := Canonical(x.email);
            var t2 := Synced(w, o, ids, Synced(w, o, ids, t));
            && e in t2
            && (t2[e].provider != "local" && x.status == "disabled" ==> t2[e].status != "active")
            && (e !in t ==> t2[e].provider == "ldap" && (t2[e].status == "active" <==> x.status != "disabled"))
  {
    var e := Canonical(x.email);
    var t1 := Synced(w, o, ids, t);
    var i :| 0 <= i < |ids| && ids[i] == x;
    SoleClaimant(ids, e, i, i);
    SyncedAt(w, o, ids, t, e);
    SyncedAt(w, o, ids, t1, e);
    ClaimedDomain(ids, x, domain);
    RowAchieved(w, o, e, x, Lookup(t, e));
  }

  // ---------- Accounting and frame ----------

  predicate IsCreateFailure(err: SyncError) { err.CreateFailed? }

  /** Every entry is counted exactly once: in a counter, or as a failed creation among the errors. */
  lemma {:induction false} Accounting(total: nat, f: Identity -> Verdict, ids: seq<Identity>)
    requires forall x :: x in ids ==> forall err :: err in ErrorsOf(f(x)) ==> (err.CreateFailed? <==> f(x).Failed?)
    ensures var r := ReportOf(total, f, ids);
            && r.created + r.updated + r.suspended + r.skipped + Count(IsCreateFailure, r.errors) == |ids|
            && Count(IsCreateFailure, r.errors) == Count(IsKind(f, KFailed), ids)
  {
    if ids != [] {
      var n := |ids| - 1;
      assert ids == ids[..n] + [ids[n]];
      Accounting(total, f, ids[..n]);
      CountAppend(IsCreateFailure, FlatMap(Complaints(f), ids[..n]), ErrorsOf(f(ids[n])));
      AccountingOne(f(ids[n]));
    }
  }

  lemma AccountingOne(v: Verdict)
    requires forall err :: err in ErrorsOf(v) ==> (err.CreateFailed? <==> v.Failed?)
    ensures Count(IsCreateFailure, ErrorsOf(v)) == if v.Failed? then 1 else 0
  {
    if v.Failed? {
      assert ErrorsOf(v) == [v.error] && [v.error][..0] == [];
    } else {
      CountBound(IsCreateFailure, ErrorsOf(v));
    }
  }

  lemma OnlyFailuresComplainOfCreation(w: World, o: Options, claimants: nat, x: Identity, row: Option<Row>)
    ensures var v := Judge(w, o, claimants, x, row);
            forall err :: err in ErrorsOf(v) ==> (err.CreateFailed? <==> v.Failed?)
  {
  }

  lemma SyncAccounting(w: World, o: Options, ids: seq<Identity>, t: Table)
    ensures var r := ReportOn(w, o, ids, t);
            && r.total == |ids|
            && r.created + r.updated + r.suspended + r.skipped + Count(IsCreateFailure, r.errors) == r.total
            && Count(IsCreateFailure, r.errors) == Count(IsKind(Judging(w, o, ids, t), KFailed), ids)
  {
    var f := Judging(w, o, ids, t);
    forall x ensures forall err :: err in ErrorsOf(f(x)) ==> (err.CreateFailed? <==> f(x).Failed?) {
      OnlyFailuresComplainOfCreation(w, o, Claimants(ids, Canonical(x.email)), x, Lookup(t, Canonical(x.email)));
    }
    Accounting(|ids|, f, ids);
  }

  /** Rows of local mailboxes, rows that are not claimed by exactly one valid entry, and in a dry run all
      rows, stay as they are; no row is ever removed. */
  lemma SyncFrame(w: World, o: Options, ids: seq<Identity>, t: Table, e: string)
    ensures var row := Lookup(Synced(w, o, ids, t), e);
            && (e in t ==> row.Some?)
            && ((e in t && t[e].provider == "local") || Claimants(ids, e) != 1 || o.dryRun ==> row == Lookup(t, e))
            && (e in t && row != Lookup(t, e) ==> row == Some(t[e].(status := "suspended")))
  {
    SyncedAt(w, o, ids, t, e);
  }

  /** No row is created or changed for an address that is not valid, lies outside the domain asked for, or belongs to
      a domain that is not registered or not active. */
  lemma SyncStaysInDomains(w: World, o: Options, ids: seq<Identity>, t: Table, e: string)
    requires Lookup(Synced(w, o, ids, t), e) != Lookup(t, e)
    ensures ValidEmail(e) && '@' in e
    ensures o.domainName == "" || EqualFold(DomainOf(e), o.domainName)
    ensures w.domains.Some? ==> DomainOf(e) in w.domains.value && w.domains.value[DomainOf(e)] == "active"
  {
    SyncedAt(w, o, ids, t, e);
    var x := Claimant(ids, e);
    assert Screen(w, o, 1, x) == None;
    ValidEmailSplit(e);
  }

  /** A dry run reports the suspensions and updates of the real run, and counts as skipped what the real
      run would have created or failed to create. */
  lemma {:induction false} DryRunPredicts(f: Identity -> Verdict, g: Identity -> Verdict, ids: seq<Identity>)
    requires forall x :: x in ids ==> KindOf(g(x)) == if f(x).Created? || f(x).Failed? then KSkipped else KindOf(f(x))
    ensures Count(IsKind(g, KSuspended), ids) == Count(IsKind(f, KSuspended), ids)
    ensures Count(IsKind(g, KUpdated), ids) == Count(IsKind(f, KUpdated), ids)
    ensures Count(IsKind(g, KSkipped), ids) ==
            Count(IsKind(f, KSkipped), ids) + Count(IsKind(f, KCreated), ids) + Count(IsKind(f, KFailed), ids)
  {
    if ids != [] {
      DryRunPredicts(f, g, ids[..|ids| - 1]);
    }
  }

  lemma DryVerdict(w: World, o: Options, claimants: nat, x: Identity, row: Option<Row>)
    requires !o.dryRun
    ensures var v, d := Judge(w, o, claimants, x, row), Judge(w, o.(dryRun := true), claimants, x, row);
            KindOf(d) == if v.Created? || v.Failed? then KSkipped else KindOf(v)
  {
  }

  lemma SyncDryRun(w: World, o: Options, ids: seq<Identity>, t: Table)
    requires !o.dryRun
    ensures var dry := o.(dryRun := true);
            var q, r := ReportOn(w, dry, ids, t), ReportOn(w, o, ids, t);
            && Synced(w, dry, ids, t) == t
            && q.created == 0 && q.suspended == r.suspended && q.updated == r.updated
            && q.skipped == r.skipped + r.created + Count(IsCreateFailure, r.errors)
  {
    var dry := o.(dryRun := true);
    forall e ensures Lookup(Synced(w, dry, ids, t), e) == Lookup(t, e) {
      SyncFrame(w, dry, ids, t, e);
    }
    SameTable(Synced(w, dry, ids, t), t);
    SyncAccounting(w, o, ids, t);
    DryCounts(w, o, ids, t);
  }

  lemma DryCounts(w: World, o: Options, ids: seq<Identity>, t: Table)
    requires !o.dryRun
    ensures var q, r := ReportOn(w, o.(dryRun := true), ids, t), ReportOn(w, o, ids, t);
            && q.created == 0 && q.suspended == r.suspended && q.updated == r.updated
            && q.skipped == r.skipped + r.created + Count(IsKind(Judging(w, o, ids, t), KFailed), ids)
  {
    var dry := o.(dryRun := true);
    var f, g := Judging(w, o, ids, t), Judging(w, dry, ids, t);
    forall x ensures KindOf(g(x)) == if f(x).Created? || f(x).Failed? then KSkipped else KindOf(f(x)) {
      DryVerdict(w, o, Claimants(ids, Canonical(x.email)), x, Lookup(t, Canonical(x.email)));
    }
    DryRunPredicts(f, g, ids);
    CountBound(IsKind(g, KCreated), ids);
  }
}
