/** What each mailbox operation answers and leaves behind, exactly. */
module LifecycleSteps {
  import opened Wrappers
  import opened Text
  import opened Provisioning
  import opened MailboxLifecycle

  /** The address is `local@domain`, short enough, and parses. */
  predicate IsAddress(c: Config, e: string, local: string, domain: string) {
    && e == local + "@" + domain && '@' !in local && '@' !in domain
    && local != "" && domain != "" && |e| <= 254 && c.parses(e)
  }

  lemma AddressIsValid(c: Config, e: string, local: string, domain: string)
    requires IsAddress(c, e, local, domain)
    ensures ValidAddress(c, e) && Split(e, '@') == [local, domain]
  {
    SplitConcat(local, domain, '@');
    SplitPlain(local, '@');
    SplitPlain(domain, '@');
  }

  /** Making the mailbox's directories goes through. */
  predicate Provisions(c: Config, e: string, fault: Fault) { CalculatePath(c.root, e).Ok? && Goes(fault) }

  /** The directories once provisioning has been tried. */
  function TriedDirs(c: Config, dirs: set<Path>, e: string, fault: Fault): set<Path> {
    match CalculatePath(c.root, e)
    case Ok(maildir) => AfterProvision(dirs, maildir, fault)
    case Err(_) => dirs
  }

  /** The status of a row once provisioning has been tried: the last that could be written. */
  function TriedStatus(before: string, done: bool, inProgressOk: bool, finalOk: bool): string {
    if finalOk then (if done then "ready" else "failed") else if inProgressOk then "provisioning" else before
  }

  lemma ProvisionerLeaves(c: Config, s: State, e: string, inProgressOk: bool, finalOk: bool, fault: Fault)
    requires e in s.rows
    ensures var (s', done) := RunProvisioner(c, s, e, inProgressOk, finalOk, fault);
            var row := s.rows[e];
            && (done <==> Provisions(c, e, fault))
            && s'.rows == s.rows[e := Row(row.status, TriedStatus(row.provisioning, done, inProgressOk, finalOk))]
            && s'.dirs == TriedDirs(c, s.dirs, e, fault)
  {
    StatusTwice(s.rows, e, "provisioning", if Provisions(c, e, fault) then "ready" else "failed", inProgressOk, finalOk);
  }

  lemma StatusTwice(rows: map<string, Row>, e: string, a: string, b: string, okA: bool, okB: bool)
    requires e in rows
    ensures WithProvisioning(WithProvisioning(rows, e, a, okA), e, b, okB) ==
            rows[e := Row(rows[e].status, if okB then b else if okA then a else rows[e].provisioning)]
  {
    assert rows[e := rows[e]] == rows;
  }

  // ---------- Creation ----------

  /** Without a valid address nothing is created. */
  lemma NoAddressNoMailbox(c: Config, s: State, op: Op)
    requires op.Create? && forall local, domain :: !IsAddress(c, Canonical(op.email), local, domain)
    ensures Step(c, s, op) == (s, Err(InvalidEmail))
  {
    var e := Canonical(op.email);
    var parts := Split(e, '@');
    if ValidAddress(c, e) {
      TwoParts(e);
      assert IsAddress(c, e, parts[0], parts[1]);
    }
  }

  /** With one, a mailbox is created if and only if the password has at least 8 characters, the domain is registered,
      there is no such mailbox, the insert goes through and, given a provisioner, provisioning does; each refusal has
      its own reason, in this order. */
  lemma CreationIsExact(c: Config, s: State, op: Op, local: string, domain: string)
    requires op.Create? && IsAddress(c, Canonical(op.email), local, domain)
    ensures var (e, r) := (Canonical(op.email), Step(c, s, op).1);
            var longEnough := op.passwordLength >= 8;
            var free := longEnough && domain in c.domains && e !in s.rows;
            var provisions := c.hasProvisioner ==> Provisions(c, e, op.fault);
            && (r == Ok(()) <==> free && op.insertOk && provisions)
            && (r == Err(InvalidPassword) <==> !longEnough)
            && (r == Err(DomainNotFound) <==> longEnough && domain !in c.domains)
            && (r == Err(MailboxExists) <==> longEnough && domain in c.domains && e in s.rows)
            && (r == Err(WriteFailed) <==> free && !op.insertOk)
            && (r == Err(ProvisioningFailed) <==> free && op.insertOk && !provisions)
  {
    AddressIsValid(c, Canonical(op.email), local, domain);
  }

  /** A creation that gets as far as the insert leaves an active mailbox, with the provisioning status that was last
      written, and what provisioning made; any other leaves everything as it was. */
  lemma CreationLeaves(c: Config, s: State, op: Op)
    requires op.Create?
    ensures var (e, s', r) := (Canonical(op.email), Step(c, s, op).0, Step(c, s, op).1);
            if r != Ok(()) && r != Err(ProvisioningFailed) then s' == s
            else if !c.hasProvisioner then s' == State(s.rows[e := Row("active", "pending")], s.dirs)
            else
              && s'.rows == s.rows[e := Row("active", TriedStatus("pending", r.Ok?, op.inProgressOk, op.finalOk))]
              && s'.dirs == TriedDirs(c, s.dirs, e, op.fault)
  {
    var e := Canonical(op.email);
    var s1 := s.(rows := s.rows[e := Row("active", "pending")]);
    ProvisionerLeaves(c, s1, e, op.inProgressOk, op.finalOk, op.fault);
  }

  // ---------- Provisioning, deletion, suspension ----------

  /** Provisioning reports success if and only if the mailbox is ready already, or it goes through. */
  lemma ProvisioningIsExact(c: Config, s: State, op: Op)
    requires op.Provision?
    ensures var (e, r) := (Canonical(op.email), Step(c, s, op).1);
            var open := e in s.rows && s.rows[e].provisioning != "ready";
            && (r == Ok(()) <==> e in s.rows && (open ==> c.hasProvisioner && Provisions(c, e, op.fault)))
            && (r == Err(MailboxNotFound) <==> e !in s.rows)
            && (r == Err(NoProvisioner) <==> open && !c.hasProvisioner)
            && (r == Err(ProvisioningFailed) <==> open && c.hasProvisioner && !Provisions(c, e, op.fault))
  {
  }

  /** It changes the provisioning status of a mailbox that is not ready, and makes directories; nothing else. */
  lemma ProvisioningLeaves(c: Config, s: State, op: Op)
    requires op.Provision?
    ensures var (e, s', r) := (Canonical(op.email), Step(c, s, op).0, Step(c, s, op).1);
            if e !in s.rows || s.rows[e].provisioning == "ready" || !c.hasProvisioner then s' == s
            else
              var row := s.rows[e];
              && s'.rows == s.rows[e := Row(row.status, TriedStatus(row.provisioning, r.Ok?, op.inProgressOk, op.finalOk))]
              && s'.dirs == TriedDirs(c, s.dirs, e, op.fault)
  {
    var e := Canonical(op.email);
    if e in s.rows {
      ProvisionerLeaves(c, s, e, op.inProgressOk, op.finalOk, op.fault);
    }
  }

  /** A deletion reports success if and only if there is such a mailbox and its row can be removed; what becomes of the
      files does not matter. */
  lemma DeletionIsExact(c: Config, s: State, op: Op)
    requires op.Delete?
    ensures var (e, r) := (Canonical(op.email), Step(c, s, op).1);
            && (r == Ok(()) <==> e != "" && e in s.rows && op.rowOk)
            && (r == Err(InvalidEmail) <==> e == "")
            && (r == Err(MailboxNotFound) <==> e != "" && e !in s.rows)
            && (r == Err(WriteFailed) <==> e != "" && e in s.rows && !op.rowOk)
            && (e == "" || e !in s.rows ==> Step(c, s, op).0 == s)
  {
  }

  /** The row with the marks that were written. */
  function Marked(row: Row, op: Op): Row
    requires op.Delete?
  {
    Row(if op.statusOk then "deleting" else row.status, if op.deprovisioningOk then "deprovisioning" else row.provisioning)
  }

  /** It removes the row, or else leaves it with the marks that were written, and removes the user's directories but for
      those that cannot be removed; the other rows stay. */
  lemma DeletionLeaves(c: Config, s: State, op: Op)
    requires op.Delete? && Canonical(op.email) != "" && Canonical(op.email) in s.rows
    ensures var (e, s', path) := (Canonical(op.email), Step(c, s, op).0, CalculatePath(c.root, Canonical(op.email)));
            && s'.rows - {e} == s.rows - {e}
            && (e in s'.rows <==> !op.rowOk)
            && (e in s'.rows ==> s'.rows[e] == Marked(s.rows[e], op))
            && forall p :: p in s'.dirs <==>
                 p in s.dirs && (c.hasProvisioner && path.Ok? && UserDir(path.value) <= p ==> p in op.left)
  {
  }

  /** Suspending and resuming change the status of that mailbox and nothing else. */
  lemma StatusChangeIsExact(c: Config, s: State, op: Op)
    requires op.SetStatus?
    ensures var (s', r) := Step(c, s, op);
            && r == (if !op.ok then Err(WriteFailed) else if op.email !in s.rows then Err(MailboxNotFound) else Ok(()))
            && s' == (if r.Ok? then State(s.rows[op.email := Row(op.status, s.rows[op.email].provisioning)], s.dirs) else s)
  {
  }
}
