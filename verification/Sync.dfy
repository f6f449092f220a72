/**
 Directory synchronisation: every entry of the LDAP listing is held against the mailbox table, which is
 created, suspended or left alone row by row.
 */
module DirectorySync {
  import opened Wrappers
  import opened Folds
  import opened Text

  datatype Identity = Identity(id: string, email: string, status: string)

  datatype Row = Row(status: string, provider: string, provisioning: string)

  type Table = map<string, Row>

  datatype Options = Options(domainName: string, autoCreate: bool, dryRun: bool)

  /** What creating a mailbox comes to for one address: no row; a row that was inserted but whose
      provisioning failed; or a mailbox, with the provisioning status it has after Provision. */
  datatype CreateOutcome = Refused | Unprovisioned(provisioning: string) | Made(provisioning: string)

  /** The collaborators of one run: registered domains with their status (None: no domain repository),
      whether a mailbox service is configured, and how creation and the two row updates turn out. */
  datatype World = World(
    domains: Option<map<string, string>>,
    hasMailboxService: bool,
    create: string -> CreateOutcome,
    providerWrite: string -> bool,
    statusWrite: string -> bool)

  datatype SyncError =
    | BadFormat(email: string)
    | Collision(email: string, id: string)
    | UnknownDomain(email: string)
    | InactiveDomain(email: string)
    | CreateFailed(email: string)
    | Takeover(email: string, id: string)

  datatype Report = Report(total: nat, created: nat, updated: nat, suspended: nat, skipped: nat, errors: seq<SyncError>)

  // ---------- Addresses ----------

  predicate LocalChar(c: char) { IsLetter(c) || IsDigit(c) || c == '.' || c == '_' || c == '%' || c == '+' || c == '-' }

  predicate DomainChar(c: char) { IsLetter(c) || IsDigit(c) || c == '.' || c == '-' }

  /** `e` is a local part up to `at`, then a domain up to `dot`, then a top-level domain. */
  predicate EmailShape(e: string, at: int, dot: int) {
    && 0 < at && at + 1 < dot && dot + 2 < |e|
    && e[at] == '@' && e[dot] == '.'
    && (forall i :: 0 <= i < at ==> LocalChar(e[i]))
    && (forall i :: at < i < dot ==> DomainChar(e[i]))
    && (forall i :: dot < i < |e| ==> IsLetter(e[i]))
  }

  predicate ValidEmail(e: string) {
    exists at, dot :: 0 <= at < |e| && 0 <= dot < |e| && EmailShape(e, at, dot)
  }

  /** The part of a valid address that is looked up as its domain. */
  function DomainOf(e: string): string
    requires '@' in e
  {
    SplitTwo(e);
    Split(e, '@')[1]
  }

  lemma SplitTwo(e: string)
    requires '@' in e
    ensures |Split(e, '@')| >= 2
  {
    var i :| 0 <= i < |e| && e[i] == '@';
    assert e == e[..i] + ['@'] + e[i + 1..];
    SplitConcat(e[..i], e[i + 1..], '@');
  }

  /** A valid address has exactly one '@', so the domain is all that follows it. */
  lemma ValidEmailSplit(e: string)
    requires ValidEmail(e)
    ensures '@' in e && exists at :: 0 < at < |e| && Split(e, '@') == [e[..at], e[at + 1..]] && DomainOf(e) == e[at + 1..]
  {
    var at, dot :| 0 <= at < |e| && 0 <= dot < |e| && EmailShape(e, at, dot);
    EmailShapeSplit(e, at, dot);
  }

  lemma EmailShapeSplit(e: string, at: int, dot: int)
    requires EmailShape(e, at, dot)
    ensures '@' in e && Split(e, '@') == [e[..at], e[at + 1..]]
  {
    forall j | 0 <= j < |e| && j != at ensures e[j] != '@' {
      assert if j < at then LocalChar(e[j]) else if j < dot then DomainChar(e[j]) else e[j] == '.' || IsLetter(e[j]);
    }
    SplitPair(e, at, '@');
  }

  // ---------- What one entry comes to ----------

  predicate Claims(x: Identity, e: string) { Canonical(x.email) == e && e != "" && ValidEmail(e) }

  function Claiming(e: string): Identity -> bool { x => Claims(x, e) }

  function Claimants(ids: seq<Identity>, e: string): nat { Count(Claiming(e), ids) }

  datatype Verdict = Skipped(why: seq<SyncError>) | Failed(error: SyncError) | Created | Suspended | Updated

  /** Why an entry whose address has this many claimants is passed over without looking at its mailbox. */
  function Screen(w: World, o: Options, claimants: nat, x: Identity): Option<seq<SyncError>> {
    var e := Canonical(x.email);
    if e == "" then Some([])
    else if !ValidEmail(e) then Some([BadFormat(e)])
    else if claimants > 1 then Some([Collision(e, x.id)])
    else
      ValidEmailSplit(e);
      var domain := DomainOf(e);
      if o.domainName != "" && !EqualFold(domain, o.domainName) then Some([])
      else if w.domains.Some? && domain !in w.domains.value then Some([UnknownDomain(e)])
      else if w.domains.Some? && w.domains.value[domain] != "active" then Some([InactiveDomain(e)])
      else None
  }

  /** The verdict on an entry that passed the screening, given the row of its address. */
  function JudgeRow(w: World, o: Options, e: string, x: Identity, row: Option<Row>): Verdict {
    match row
    case None =>
      if !(o.autoCreate && !o.dryRun && w.hasMailboxService) then Skipped([])
      else if w.create(e).Made? then Created
      else Failed(CreateFailed(e))
    case Some(r) =>
      if r.provider == "local" then Skipped([Takeover(e, x.id)])
      else if x.status == "disabled" && r.status == "active" then Suspended
      else Updated
  }

  function Judge(w: World, o: Options, claimants: nat, x: Identity, row: Option<Row>): Verdict {
    match Screen(w, o, claimants, x)
    case Some(why) => Skipped(why)
    case None => JudgeRow(w, o, Canonical(x.email), x, row)
  }

  /** The row of address `e` once verdict `v` has been carried out. */
  function Settle(w: World, o: Options, e: string, v: Verdict, row: Option<Row>): Option<Row> {
    match v
    case Skipped(_) => row
    case Updated => row
    case Failed(_) => if w.create(e).Unprovisioned? then Some(Row("active", "local", w.create(e).provisioning)) else row
    case Created => if w.create(e).Made?
      then Some(Row("active", if w.providerWrite(e) then "ldap" else "local", w.create(e).provisioning)) else row
    case Suspended => if row.Some? && !o.dryRun && w.statusWrite(e) then Some(row.value.(status := "suspended")) else row
  }

  function Lookup(t: Table, e: string): Option<Row> { if e in t then Some(t[e]) else None }

  // ---------- The whole run, address by address ----------

  /** The verdict on `x` as if it were the only entry processed against the table `t`. */
  function VerdictOn(w: World, o: Options, ids: seq<Identity>, t: Table, x: Identity): Verdict {
    Judge(w, o, Claimants(ids, Canonical(x.email)), x, Lookup(t, Canonical(x.email)))
  }

  /** The entry that alone claims `e`. */
  ghost function Claimant(ids: seq<Identity>, e: string): (x: Identity)
    requires Claimants(ids, e) == 1
    ensures x in ids && Claims(x, e)
  {
    CountBound(Claiming(e), ids);
    var x :| x in ids && Claiming(e)(x);
    x
  }

  /** Where the run takes the row of `e`: only a sole claimant can change it. */
  ghost function Target(w: World, o: Options, ids: seq<Identity>, t: Table, e: string): Option<Row> {
    if Claimants(ids, e) != 1 then Lookup(t, e)
    else Settle(w, o, e, VerdictOn(w, o, ids, t, Claimant(ids, e)), Lookup(t, e))
  }

  ghost function Synced(w: World, o: Options, ids: seq<Identity>, t: Table): Table {
    var es := t.Keys + set x | x in ids :: Canonical(x.email);
    map e | e in es && Target(w, o, ids, t, e).Some? :: Target(w, o, ids, t, e).value
  }

  lemma SyncedAt(w: World, o: Options, ids: seq<Identity>, t: Table, e: string)
    ensures Lookup(Synced(w, o, ids, t), e) == Target(w, o, ids, t, e)
  {
    if e !in t && Claimants(ids, e) == 1 {
      assert Claimant(ids, e) in ids;
    }
  }

  lemma SameTable(s: Table, t: Table)
    requires forall e :: Lookup(s, e) == Lookup(t, e)
    ensures s == t
  {
    forall e ensures e in s <==> e in t {
      assert Lookup(s, e) == Lookup(t, e);
    }
    forall e | e in s ensures s[e] == t[e] {
      assert Lookup(s, e) == Lookup(t, e);
    }
  }

  /** Two entries at different places cannot both claim an address with one claimant. */
  lemma SoleClaimant(ids: seq<Identity>, e: string, i: nat, j: nat)
    requires i < |ids| && j < |ids| && Claims(ids[i], e) && Claims(ids[j], e)
    requires Claimants(ids, e) <= 1
    ensures i == j && Claimants(ids, e) == 1 && Claimant(ids, e) == ids[i]
  {
    CountOne(Claiming(e), ids, i, ids[j]);
    CountOne(Claiming(e), ids, i, Claimant(ids, e));
  }

  // ---------- Reports ----------

  function Judging(w: World, o: Options, ids: seq<Identity>, t: Table): Identity -> Verdict {
    x => VerdictOn(w, o, ids, t, x)
  }

  datatype Kind = KSkipped | KFailed | KCreated | KSuspended | KUpdated

  function KindOf(v: Verdict): Kind {
    match v
    case Skipped(_) => KSkipped
    case Failed(_) => KFailed
    case Created => KCreated
    case Suspended => KSuspended
    case Updated => KUpdated
  }

  function IsKind(f: Identity -> Verdict, k: Kind): Identity -> bool { x => KindOf(f(x)) == k }

  function ErrorsOf(v: Verdict): seq<SyncError> {
    match v
    case Skipped(why) => why
    case Failed(error) => [error]
    case _ => []
  }

  function Complaints(f: Identity -> Verdict): Identity -> seq<SyncError> { x => ErrorsOf(f(x)) }

  function ReportOf(total: nat, f: Identity -> Verdict, ids: seq<Identity>): Report {
    Report(total, Count(IsKind(f, KCreated), ids), Count(IsKind(f, KUpdated), ids),
           Count(IsKind(f, KSuspended), ids), Count(IsKind(f, KSkipped), ids), FlatMap(Complaints(f), ids))
  }

  /** The report of a run over `ids` against the table `t`. */
  function ReportOn(w: World, o: Options, ids: seq<Identity>, t: Table): Report {
    ReportOf(|ids|, Judging(w, o, ids, t), ids)
  }

  // ---------- The loop, entry by entry ----------

  /** The row of `e` after the first `i` entries. */
  ghost function Progress(w: World, o: Options, ids: seq<Identity>, t: Table, i: nat, e: string): Option<Row>
    requires i <= |ids|
  {
    if Claimants(ids[..i], e) == 0 then Lookup(t, e) else Target(w, o, ids, t, e)
  }

  lemma ClaimantsStep(ids: seq<Identity>, i: nat, e: string)
    requires i < |ids|
    ensures Claimants(ids[..i + 1], e) == Claimants(ids[..i], e) + if Claims(ids[i], e) then 1 else 0
    ensures Claimants(ids[..i + 1], e) <= Claimants(ids, e)
  {
    PrefixStep(ids, i);
    assert ids == ids[..i + 1] + ids[i + 1..];
    CountAppend(Claiming(e), ids[..i + 1], ids[i + 1..]);
  }

  lemma ProgressElsewhere(w: World, o: Options, ids: seq<Identity>, t: Table, i: nat, e: string)
    requires i < |ids| && e != Canonical(ids[i].email)
    ensures Progress(w, o, ids, t, i + 1, e) == Progress(w, o, ids, t, i, e)
  {
    ClaimantsStep(ids, i, e);
  }

  /** Because duplicates were counted beforehand, judging an entry against the table as it now stands is
      judging it against the table as it was. */
  lemma ProgressHere(w: World, o: Options, ids: seq<Identity>, t: Table, i: nat)
    requires i < |ids|
    ensures var e := Canonical(ids[i].email);
            var row := Progress(w, o, ids, t, i, e);
            var v := Judge(w, o, Claimants(ids, e), ids[i], row);
            v == VerdictOn(w, o, ids, t, ids[i]) && Progress(w, o, ids, t, i + 1, e) == Settle(w, o, e, v, row)
  {
    var x := ids[i];
    var e := Canonical(x.email);
    ClaimantsStep(ids, i, e);
    if Claims(x, e) {
      if Claimants(ids, e) == 1 {
        SoleClaimant(ids, e, i, i);
      }
    }
  }

  ghost predicate Tracks(w: World, o: Options, ids: seq<Identity>, t: Table, i: nat, now: Table)
    requires i <= |ids|
  {
    forall e :: Lookup(now, e) == Progress(w, o, ids, t, i, e)
  }

  lemma TracksStart(w: World, o: Options, ids: seq<Identity>, t: Table)
    ensures Tracks(w, o, ids, t, 0, t)
  {
    assert ids[..0] == [];
  }

  lemma TracksStep(w: World, o: Options, ids: seq<Identity>, t: Table, i: nat, now: Table, claimants: nat, v: Verdict)
    requires i < |ids| && Tracks(w, o, ids, t, i, now)
    requires claimants == Claimants(ids, Canonical(ids[i].email))
    requires v == Judge(w, o, claimants, ids[i], Lookup(now, Canonical(ids[i].email)))
    ensures v == VerdictOn(w, o, ids, t, ids[i])
    ensures var e := Canonical(ids[i].email);
            Tracks(w, o, ids, t, i + 1, Put(now, e, Settle(w, o, e, v, Lookup(now, e))))
  {
    ProgressHere(w, o, ids, t, i);
    var e := Canonical(ids[i].email);
    var after := Put(now, e, Settle(w, o, e, v, Lookup(now, e)));
    forall e' ensures Lookup(after, e') == Progress(w, o, ids, t, i + 1, e') {
      if e' != e {
        ProgressElsewhere(w, o, ids, t, i, e');
        assert Lookup(after, e') == Lookup(now, e');
      }
    }
  }

  lemma TracksEnd(w: World, o: Options, ids: seq<Identity>, t: Table, now: Table)
    requires Tracks(w, o, ids, t, |ids|, now)
    ensures now == Synced(w, o, ids, t)
  {
    assert ids[..|ids|] == ids;
    forall e ensures Lookup(now, e) == Lookup(Synced(w, o, ids, t), e) {
      SyncedAt(w, o, ids, t, e);
    }
    SameTable(now, Synced(w, o, ids, t));
  }

  function Bump(r: Report, v: Verdict): Report {
    var q := r.(errors := r.errors + ErrorsOf(v));
    match v
    case Skipped(_) => q.(skipped := r.skipped + 1)
    case Failed(_) => q
    case Created => q.(created := r.created + 1)
    case Suspended => q.(suspended := r.suspended + 1)
    case Updated => q.(updated := r.updated + 1)
  }

  function Seen(emailCounts: map<string, int>, e: string): nat
    requires forall e :: e in emailCounts ==> emailCounts[e] >= 0
  {
    if e in emailCounts then emailCounts[e] else 0
  }

  function Put(t: Table, e: string, row: Option<Row>): Table { if row.Some? then t[e := row.value] else t }

  lemma ReportStep(total: nat, f: Identity -> Verdict, ids: seq<Identity>, i: nat)
    requires i < |ids|
    ensures ReportOf(total, f, ids[..i + 1]) == Bump(ReportOf(total, f, ids[..i]), f(ids[i]))
  {
    PrefixStep(ids, i);
  }

  class Service {
    var table: Table

    /** Sync. `listing` is None when there is no LDAP provider or its directory cannot be listed. */
    method Sync(w: World, o: Options, listing: Option<seq<Identity>>) returns (result: Option<Report>)
      modifies this
      ensures listing.None? ==> result.None? && table == old(table)
      ensures listing.Some? ==>
        && table == Synced(w, o, listing.value, old(table))
        && result == Some(ReportOn(w, o, listing.value, old(table)))
    {
      if listing.None? {
        return None;
      }
      var ids := listing.value;
      ghost var t0 := table;
      ghost var f := Judging(w, o, ids, t0);
      var emailCounts := CountEmails(ids);

      var report := Report(|ids|, 0, 0, 0, 0, []);
      TracksStart(w, o, ids, t0);
      for i := 0 to |ids|
        invariant Tracks(w, o, ids, t0, i, table)
        invariant report == ReportOf(|ids|, f, ids[..i])
      {
        ghost var n := Seen(emailCounts, Canonical(ids[i].email));
        ghost var v := Judge(w, o, n, ids[i], Lookup(table, Canonical(ids[i].email)));
        TracksStep(w, o, ids, t0, i, table, n, v);
        ReportStep(|ids|, f, ids, i);
        report := Handle(w, o, emailCounts, ids[i], report);
      }
      TracksEnd(w, o, ids, t0, table);
      assert ids[..|ids|] == ids;
      result := Some(report);
    }

    /** The pre-scan. */
    method CountEmails(ids: seq<Identity>) returns (emailCounts: map<string, int>)
      ensures forall e :: e in emailCounts ==> emailCounts[e] >= 0
      ensures forall e :: Seen(emailCounts, e) == Claimants(ids, e)
    {
      emailCounts := map[];
      for i := 0 to |ids|
        invariant forall e :: e in emailCounts ==> emailCounts[e] >= 0
        invariant forall e :: Seen(emailCounts, e) == Claimants(ids[..i], e)
      {
        var em := Canonical(ids[i].email);
        forall e { ClaimantsStep(ids, i, e); }
        if em != "" && ValidEmail(em) {
          emailCounts := emailCounts[em := (if em in emailCounts then emailCounts[em] else 0) + 1];
        }
      }
      assert ids[..|ids|] == ids;
    }

    /** The first half of the per-identity loop: the checks that look at no mailbox. */
    method Check(w: World, o: Options, emailCounts: map<string, int>, x: Identity) returns (r: Option<seq<SyncError>>)
      requires forall e :: e in emailCounts ==> emailCounts[e] >= 0
      ensures r == Screen(w, o, Seen(emailCounts, Canonical(x.email)), x)
    {
      var email := Canonical(x.email);
      if email == "" {
        return Some([]);
      }
      if !ValidEmail(email) {
        return Some([BadFormat(email)]);
      }
      if email in emailCounts && emailCounts[email] > 1 {
        return Some([Collision(email, x.id)]);
      }
      ValidEmailSplit(email);
      var domainPart := Split(email, '@')[1];
      if o.domainName != "" && !EqualFold(domainPart, o.domainName) {
        return Some([]);
      }
      if w.domains.Some? {
        if domainPart !in w.domains.value {
          return Some([UnknownDomain(email)]);
        }
        if w.domains.value[domainPart] != "active" {
          return Some([InactiveDomain(email)]);
        }
      }
      r := None;
    }

    /** One turn of the per-identity loop. */
    method Handle(w: World, o: Options, emailCounts: map<string, int>, x: Identity, report: Report)
      returns (after: Report)
      requires forall e :: e in emailCounts ==> emailCounts[e] >= 0
      modifies this
      ensures var e := Canonical(x.email);
              var row := Lookup(old(table), e);
              var v := Judge(w, o, Seen(emailCounts, e), x, row);
              after == Bump(report, v) && table == Put(old(table), e, Settle(w, o, e, v, row))
    {
      var refusal := Check(w, o, emailCounts, x);
      if refusal.Some? {
        after := report.(errors := report.errors + refusal.value, skipped := report.skipped + 1);
      } else {
        after := Reconcile(w, o, Canonical(x.email), x, report);
      }
    }

    /** The second half of the loop: create, suspend or leave the mailbox of `email`. */
    method Reconcile(w: World, o: Options, email: string, x: Identity, report: Report) returns (after: Report)
      modifies this
      ensures var row := Lookup(old(table), email);
              var v := JudgeRow(w, o, email, x, row);
              after == Bump(report, v) && table == Put(old(table), email, Settle(w, o, email, v, row))
    {
      after := report;
      if email !in table {
        if o.autoCreate && !o.dryRun && w.hasMailboxService {
          match w.create(email) {
            case Refused =>
              after := after.(errors := after.errors + [CreateFailed(email)]);
            case Unprovisioned(p) =>
              table := table[email := Row("active", "local", p)];
              after := after.(errors := after.errors + [CreateFailed(email)]);
            case Made(p) =>
              table := table[email := Row("active", "local", p)];
              if w.providerWrite(email) {
                table := table[email := table[email].(provider := "ldap")];
              }
              after := after.(created := after.created + 1);
          }
        } else {
          after := after.(skipped := after.skipped + 1);
        }
      } else {
        var existing := table[email];
        if existing.provider == "local" {
          after := after.(errors := after.errors + [Takeover(email, x.id)], skipped := after.skipped + 1);
        } else if x.status == "disabled" && existing.status == "active" {
          if !o.dryRun && w.statusWrite(email) {
            table := table[email := existing.(status := "suspended")];
          }
          after := after.(suspended := after.suspended + 1);
        } else {
          after := after.(updated := after.updated + 1);
        }
      }
    }
  }
}
