/**
 Mailboxes from creation to deletion: rows in the database and directories on disk, kept in step while any
 call on the way may fail.
 */
module MailboxLifecycle {
  import opened Wrappers
  import opened Text
  import opened Provisioning

  datatype Row = Row(status: string, provisioning: string)

  datatype State = State(rows: map<string, Row>, dirs: set<Path>)

  /** `parses`: mail.ParseAddress accepts; `domains`: the registered domains. */
  datatype Config = Config(root: Path, hasProvisioner: bool, parses: string -> bool, domains: set<string>)

  datatype MailboxError =
    | InvalidEmail | InvalidPassword | DomainNotFound | MailboxExists | MailboxNotFound | NoProvisioner
    | ProvisioningFailed | WriteFailed

  predicate ValidAddress(c: Config, email: string) {
    var parts := Split(email, '@');
    0 < |email| <= 254 && c.parses(email) && |parts| == 2 && parts[0] != "" && parts[1] != ""
  }

  // ---------- The operations as one step each ----------

  /** The flags say which writes go through; the errors of the status writes are discarded by the original. */
  datatype Op =
    | Create(email: string, passwordLength: nat, insertOk: bool, inProgressOk: bool, finalOk: bool, fault: Fault)
    | Provision(email: string, inProgressOk: bool, finalOk: bool, fault: Fault)
    | Delete(email: string, statusOk: bool, deprovisioningOk: bool, left: set<Path>, rowOk: bool)
    | SetStatus(email: string, status: string, ok: bool)

  function WithStatus(rows: map<string, Row>, e: string, status: string, ok: bool): map<string, Row> {
    if ok && e in rows then rows[e := rows[e].(status := status)] else rows
  }

  function WithProvisioning(rows: map<string, Row>, e: string, p: string, ok: bool): map<string, Row> {
    if ok && e in rows then rows[e := rows[e].(provisioning := p)] else rows
  }

  /** The provisioner at work on the row of `e`. */
  function RunProvisioner(c: Config, s: State, e: string, inProgressOk: bool, finalOk: bool, fault: Fault): (State, bool) {
    var rows := WithProvisioning(s.rows, e, "provisioning", inProgressOk);
    match CalculatePath(c.root, e)
    case Err(_) => (State(WithProvisioning(rows, e, "failed", finalOk), s.dirs), false)
    case Ok(maildir) =>
      (State(WithProvisioning(rows, e, if Goes(fault) then "ready" else "failed", finalOk),
             AfterProvision(s.dirs, maildir, fault)), Goes(fault))
  }

  function Deprovisioned(c: Config, dirs: set<Path>, e: string, left: set<Path>): set<Path> {
    match CalculatePath(c.root, e)
    case Err(_) => dirs
    case Ok(maildir) => Removed(dirs, UserDir(maildir), left)
  }

  /** The state, and whether the call reports success. */
  function Step(c: Config, s: State, op: Op): (State, Result<(), MailboxError>) {
    var e := Canonical(op.email);
    match op
    case Create(_, passwordLength, insertOk, inProgressOk, finalOk, fault) =>
      if !ValidAddress(c, e) then (s, Err(InvalidEmail))
      else if passwordLength < 8 then (s, Err(InvalidPassword))
      else if Split(e, '@')[1] !in c.domains then (s, Err(DomainNotFound))
      else if e in s.rows then (s, Err(MailboxExists))
      else if !insertOk then (s, Err(WriteFailed))
      else
        var s1 := s.(rows := s.rows[e := Row("active", "pending")]);
        if !c.hasProvisioner then (s1, Ok(())) else
          var (s2, ok) := RunProvisioner(c, s1, e, inProgressOk, finalOk, fault);
          (s2, if ok then Ok(()) else Err(ProvisioningFailed))
    case Provision(_, inProgressOk, finalOk, fault) =>
      if e !in s.rows then (s, Err(MailboxNotFound))
      else if s.rows[e].provisioning == "ready" then (s, Ok(()))
      else if !c.hasProvisioner then (s, Err(NoProvisioner))
      else
        var (s1, ok) := RunProvisioner(c, s, e, inProgressOk, finalOk, fault);
        (s1, if ok then Ok(()) else Err(ProvisioningFailed))
    case Delete(_, statusOk, deprovisioningOk, left, rowOk) =>
      if e == "" then (s, Err(InvalidEmail))
      else if e !in s.rows then (s, Err(MailboxNotFound))
      else
        var rows := WithProvisioning(WithStatus(s.rows, e, "deleting", statusOk), e, "deprovisioning", deprovisioningOk);
        var dirs := if c.hasProvisioner then Deprovisioned(c, s.dirs, e, left) else s.dirs;
        (State(if rowOk then rows - {e} else rows, dirs), if rowOk then Ok(()) else Err(WriteFailed))
    case SetStatus(_, status, ok) =>
      if !ok then (s, Err(WriteFailed))
      else if op.email !in s.rows then (s, Err(MailboxNotFound))
      else (s.(rows := WithStatus(s.rows, op.email, status, true)), Ok(()))
  }

  // ---------- The service ----------

  class MailboxService {
    const config: Config
    const provisioner: FilesystemProvisioner
    var rows: map<string, Row>

    ghost function View(): State
      reads this, provisioner
    {
      State(rows, provisioner.dirs)
    }

    constructor (config: Config, provisioner: FilesystemProvisioner)
      requires provisioner.root == config.root
      ensures this.config == config && this.provisioner == provisioner && rows == map[]
    {
      this.config := config;
      this.provisioner := provisioner;
      rows := map[];
    }

    method UpdateProvisioningStatus(e: string, p: string, ok: bool)
      modifies this
      ensures rows == WithProvisioning(old(rows), e, p, ok)
    {
      if ok && e in rows {
        rows := rows[e := rows[e].(provisioning := p)];
      }
    }

    method UpdateStatus(e: string, status: string, ok: bool)
      modifies this
      ensures rows == WithStatus(old(rows), e, status, ok)
    {
      if ok && e in rows {
        rows := rows[e := rows[e].(status := status)];
      }
    }

    /** The part Create and Provision have in common. */
    method Run(e: string, inProgressOk: bool, finalOk: bool, fault: Fault) returns (ok: bool)
      requires provisioner.root == config.root
      modifies this, provisioner
      ensures (View(), ok) == RunProvisioner(config, old(View()), e, inProgressOk, finalOk, fault)
    {
      UpdateProvisioningStatus(e, "provisioning", inProgressOk);
      var done := provisioner.Provision(e, fault);
      if done.Err? {
        UpdateProvisioningStatus(e, "failed", finalOk);
        return false;
      }
      UpdateProvisioningStatus(e, "ready", finalOk);
      ok := true;
    }

    method CreateMailbox(op: Op) returns (r: Result<(), MailboxError>)
      requires op.Create? && provisioner.root == config.root
      modifies this, provisioner
      ensures (View(), r) == Step(config, old(View()), op)
    {
      var email := Canonical(op.email);
      if !ValidAddress(config, email) {
        return Err(InvalidEmail);
      }
      if op.passwordLength < 8 {
        return Err(InvalidPassword);
      }
      var domainName := Split(email, '@')[1];
      if domainName !in config.domains {
        return Err(DomainNotFound);
      }
      if email in rows {
        return Err(MailboxExists);
      }
      if !op.insertOk {
        return Err(WriteFailed);
      }
      rows := rows[email := Row("active", "pending")];
      if config.hasProvisioner {
        var ok := Run(email, op.inProgressOk, op.finalOk, op.fault);
        if !ok {
          return Err(ProvisioningFailed);
        }
      }
      r := Ok(());
    }

    method ProvisionMailbox(op: Op) returns (r: Result<(), MailboxError>)
      requires op.Provision? && provisioner.root == config.root
      modifies this, provisioner
      ensures (View(), r) == Step(config, old(View()), op)
    {
      var email := Canonical(op.email);
      if email !in rows {
        return Err(MailboxNotFound);
      }
      if rows[email].provisioning == "ready" {
        return Ok(());
      }
      if !config.hasProvisioner {
        return Err(NoProvisioner);
      }
      var ok := Run(email, op.inProgressOk, op.finalOk, op.fault);
      r := if ok then Ok(()) else Err(ProvisioningFailed);
    }

    method DeleteMailbox(op: Op) returns (r: Result<(), MailboxError>)
      requires op.Delete? && provisioner.root == config.root
      modifies this, provisioner
      ensures (View(), r) == Step(config, old(View()), op)
    {
      var email := Canonical(op.email);
      if email == "" {
        return Err(InvalidEmail);
      }
      if email !in rows {
        return Err(MailboxNotFound);
      }
      UpdateStatus(email, "deleting", op.statusOk);
      UpdateProvisioningStatus(email, "deprovisioning", op.deprovisioningOk);
      if config.hasProvisioner {
        var _ := provisioner.Deprovision(email, op.left);
      }
      if !op.rowOk {
        return Err(WriteFailed);
      }
      rows := rows - {email};
      r := Ok(());
    }

    /** Suspend and Resume. */
    method ChangeStatus(op: Op) returns (r: Result<(), MailboxError>)
      requires op.SetStatus?
      modifies this
      ensures (View(), r) == Step(config, old(View()), op)
    {
      if !op.ok {
        return Err(WriteFailed);
      }
      if op.email !in rows {
        return Err(MailboxNotFound);
      }
      UpdateStatus(op.email, op.status, true);
      r := Ok(());
    }
  }

  // ---------- Ready means present ----------

  predicate IsPresent(c: Config, dirs: set<Path>, e: string) {
    CalculatePath(c.root, e).Ok? && Complete(dirs, CalculatePath(c.root, e).value)
  }

  /** Every mailbox marked ready has its Maildir with `cur`, `new` and `tmp` on disk. */
  ghost predicate ReadyMeansPresent(c: Config, s: State) {
    forall e :: e in s.rows && s.rows[e].provisioning == "ready" ==> IsPresent(c, s.dirs, e)
  }

  ghost predicate CanonicalKeys(s: State) { forall e :: e in s.rows ==> Canonical(e) == e }

  lemma KeysStayCanonical(c: Config, s: State, op: Op)
    requires CanonicalKeys(s)
    ensures CanonicalKeys(Step(c, s, op).0)
  {
    CanonicalIsCanonical(op.email);
  }

  lemma PresentAfterProvisioning(c: Config, s: State, e: string, inProgressOk: bool, finalOk: bool, fault: Fault)
    requires ReadyMeansPresent(c, s)
    requires e in s.rows && s.rows[e].provisioning != "ready"
    ensures ReadyMeansPresent(c, RunProvisioner(c, s, e, inProgressOk, finalOk, fault).0)
  {
    var s' := RunProvisioner(c, s, e, inProgressOk, finalOk, fault).0;
    match CalculatePath(c.root, e) {
      case Err(_) =>
      case Ok(maildir) => ProvisionCompletes(s.dirs, maildir, fault);
    }
    assert s.dirs <= s'.dirs;
    forall k | k in s'.rows && s'.rows[k].provisioning == "ready" ensures IsPresent(c, s'.dirs, k) {
      if k != e {
        assert s'.rows[k] == s.rows[k];
      }
    }
  }

  /** What keeps a deletion from breaking the rule: the mailbox was not ready, or it is marked or its row goes, or
      its Maildir with `cur`, `new` and `tmp` is among what cannot be removed. */
  predicate DeletionSafe(c: Config, s: State, op: Op)
    requires op.Delete?
  {
    var e := Canonical(op.email);
    e in s.rows && e != "" && s.rows[e].provisioning == "ready" && !op.deprovisioningOk && !op.rowOk && c.hasProvisioner
    ==> CalculatePath(c.root, e).Ok? ==> AllLeft(CalculatePath(c.root, e).value, op.left)
  }

  predicate AllLeft(maildir: Path, left: set<Path>) { forall i :: 0 <= i < 4 ==> SubDirs(maildir)[i] in left }

  /** All four directories of a Maildir lie below the user's own. */
  lemma SubDirsBelow(maildir: Path, i: nat)
    requires maildir != [] && i < 4
    ensures Within(SubDirs(maildir)[i], UserDir(maildir))
  {
    var p := SubDirs(maildir)[i];
    assert p[..|maildir| - 1] == UserDir(maildir);
  }

  lemma RemovedMaildir(dirs: set<Path>, maildir: Path, left: set<Path>)
    requires maildir != [] && Complete(dirs, maildir)
    ensures Complete(Removed(dirs, UserDir(maildir), left), maildir) <==> AllLeft(maildir, left)
  {
    forall i | 0 <= i < 4 ensures SubDirs(maildir)[i] in Removed(dirs, UserDir(maildir), left) <==> SubDirs(maildir)[i] in left {
      SubDirsBelow(maildir, i);
    }
  }

  predicate ReadyAndPresent(c: Config, s: State, e: string) {
    e in s.rows && s.rows[e].provisioning == "ready" ==> IsPresent(c, s.dirs, e)
  }

  lemma DeletedMailbox(c: Config, s: State, op: Op)
    requires op.Delete? && ReadyAndPresent(c, s, Canonical(op.email))
    ensures ReadyAndPresent(c, Step(c, s, op).0, Canonical(op.email)) <==> DeletionSafe(c, s, op)
  {
    var e := Canonical(op.email);
    if e in s.rows && s.rows[e].provisioning == "ready" {
      RemovedMaildir(s.dirs, CalculatePath(c.root, e).value, op.left);
    }
  }

  lemma OtherMailbox(c: Config, s: State, op: Op, k: string)
    requires op.Delete? && ReadyAndPresent(c, s, k) && Canonical(k) == k && k != Canonical(op.email)
    ensures ReadyAndPresent(c, Step(c, s, op).0, k)
  {
    var e := Canonical(op.email);
    if k in s.rows && s.rows[k].provisioning == "ready" && CalculatePath(c.root, e).Ok? {
      CanonicalIsCanonical(op.email);
      OthersSurvive(c.root, s.dirs, e, k, op.left);
    }
  }

  lemma PresentAfterDeletion(c: Config, s: State, op: Op)
    requires ReadyMeansPresent(c, s) && CanonicalKeys(s) && op.Delete?
    ensures ReadyMeansPresent(c, Step(c, s, op).0) <==> DeletionSafe(c, s, op)
  {
    var e, s' := Canonical(op.email), Step(c, s, op).0;
    DeletedMailbox(c, s, op);
    forall k | k in s'.rows && k != e ensures ReadyAndPresent(c, s', k) {
      assert ReadyAndPresent(c, s, k);
      OtherMailbox(c, s, op, k);
    }
    assert ReadyMeansPresent(c, s') <==> forall k :: k in s'.rows ==> ReadyAndPresent(c, s', k);
  }

  /** Exactly when a step keeps the rule: always, but for a deletion that is not safe. */
  lemma StepKeepsPresence(c: Config, s: State, op: Op)
    requires ReadyMeansPresent(c, s) && CanonicalKeys(s)
    ensures ReadyMeansPresent(c, Step(c, s, op).0) <==> (op.Delete? ==> DeletionSafe(c, s, op))
  {
    var e := Canonical(op.email);
    match op {
      case Create(_, _, _, inProgressOk, finalOk, fault) =>
        if e !in s.rows && c.hasProvisioner {
          PresentAfterProvisioning(c, s.(rows := s.rows[e := Row("active", "pending")]), e, inProgressOk, finalOk, fault);
        }
      case Provision(_, inProgressOk, finalOk, fault) =>
        if e in s.rows && s.rows[e].provisioning != "ready" {
          PresentAfterProvisioning(c, s, e, inProgressOk, finalOk, fault);
        }
      case Delete(_, _, _, _, _) => PresentAfterDeletion(c, s, op);
      case SetStatus(_, _, _) =>
    }
  }

  /** The state after a run that starts without mailboxes, with these directories on disk. */
  function StateAfter(c: Config, dirs: set<Path>, ops: seq<Op>): State {
    if ops == [] then State(map[], dirs) else Step(c, StateAfter(c, dirs, ops[..|ops| - 1]), ops[|ops| - 1]).0
  }

  /** In every run that starts without mailboxes, whatever fails in provisioning and whichever other mailboxes
      are deleted, a mailbox marked ready is present; of all writes, a deletion needs one: its mark, or else the
      removal of the row. */
  lemma {:induction false} ReadyIsAlwaysPresent(c: Config, dirs: set<Path>, ops: seq<Op>)
    requires forall i :: 0 <= i < |ops| && ops[i].Delete? ==> ops[i].deprovisioningOk || ops[i].rowOk
    ensures ReadyMeansPresent(c, StateAfter(c, dirs, ops)) && CanonicalKeys(StateAfter(c, dirs, ops))
  {
    if ops != [] {
      var init, op := ops[..|ops| - 1], ops[|ops| - 1];
      ReadyIsAlwaysPresent(c, dirs, init);
      StepKeepsPresence(c, StateAfter(c, dirs, init), op);
      KeysStayCanonical(c, StateAfter(c, dirs, init), op);
    }
  }

  // ---------- Creating and deleting ----------

  /** A creation or provisioning that succeeds, with its last status write, leaves the mailbox ready and present. */
  lemma SuccessIsReady(c: Config, s: State, op: Op)
    requires (op.Create? || op.Provision?) && op.finalOk && c.hasProvisioner
    requires ReadyMeansPresent(c, s) && CanonicalKeys(s) && Step(c, s, op).1.Ok?
    ensures var (s', e) := (Step(c, s, op).0, Canonical(op.email));
            e in s'.rows && s'.rows[e].provisioning == "ready" && IsPresent(c, s'.dirs, e)
  {
    StepKeepsPresence(c, s, op);
  }

  /** What provisioning makes lies below the user's directory or leads to it. */
  lemma {:induction false} MadeForUser(dirs: set<Path>, maildir: Path, n: nat)
    requires n <= 4 && maildir != []
    ensures forall p :: p in MadeUpTo(dirs, maildir, n) ==>
              p in dirs || Within(p, UserDir(maildir)) || Within(UserDir(maildir), p)
  {
    if n > 0 {
      MadeForUser(dirs, maildir, n - 1);
      LeadsTo(maildir, SubDirs(maildir)[n - 1]);
    }
  }

  lemma LeadsTo(maildir: Path, p: Path)
    requires maildir != [] && maildir <= p
    ensures forall q :: q in PathAndParents(p, |p|) ==> Within(q, UserDir(maildir)) || Within(UserDir(maildir), q)
  {
    var d := UserDir(maildir);
    assert p[..|d|] == d;
    forall k | 0 <= k <= |p| ensures Within(p[..k], d) || Within(d, p[..k]) {
      if k <= |d| {
        assert p[..k] == d[..k];
      } else {
        assert p[..k][..|d|] == d;
      }
    }
  }

  lemma DirsBack(dirs: set<Path>, maildir: Path, fault: Fault)
    requires maildir != [] && Goes(fault)
    ensures var after := Removed(AfterProvision(dirs, maildir, fault), UserDir(maildir), {});
            && (forall p :: p in after ==> !Within(p, UserDir(maildir)) && (p in dirs || Within(UserDir(maildir), p)))
            && (forall p :: p in dirs && !Within(p, UserDir(maildir)) ==> p in after)
  {
    MadeForUser(dirs, maildir, 4);
    ProvisionCompletes(dirs, maildir, fault);
    assert AfterProvision(dirs, maildir, fault) == MadeUpTo(dirs, maildir, 4);
  }

  lemma CreatedState(c: Config, s: State, op: Op)
    requires op.Create? && c.hasProvisioner && Goes(op.fault) && CalculatePath(c.root, Canonical(op.email)).Ok?
    requires Step(c, s, op).1.Ok?
    ensures var (s', e) := (Step(c, s, op).0, Canonical(op.email));
            && e !in s.rows && e in s'.rows && s'.rows - {e} == s.rows
            && s'.dirs == AfterProvision(s.dirs, CalculatePath(c.root, e).value, op.fault)
  {
  }

  lemma DeletedState(c: Config, s: State, op: Op)
    requires op.Delete? && c.hasProvisioner && CalculatePath(c.root, Canonical(op.email)).Ok? && Step(c, s, op).1.Ok?
    ensures var (s', e) := (Step(c, s, op).0, Canonical(op.email));
            && s'.rows == s.rows - {e}
            && s'.dirs == Removed(s.dirs, UserDir(CalculatePath(c.root, e).value), op.left)
  {
  }

  /** Deleting undoes creating: when nothing fails, the rows are as before, and of the directories made at most
      those above the user's own are left. */
  lemma DeleteUndoesCreate(c: Config, s: State, create: Op, delete: Op)
    requires create.Create? && delete.Delete? && Canonical(create.email) == Canonical(delete.email)
    requires c.hasProvisioner && Goes(create.fault) && CalculatePath(c.root, Canonical(create.email)).Ok?
    requires delete.left == {} && Step(c, s, create).1.Ok?
    requires var s1 := Step(c, s, create).0; Step(c, s1, delete).1.Ok?
    ensures var s2 := Step(c, Step(c, s, create).0, delete).0;
            var userDir := UserDir(CalculatePath(c.root, Canonical(create.email)).value);
            && s2.rows == s.rows
            && (forall p :: p in s2.dirs ==> !Within(p, userDir) && (p in s.dirs || Within(userDir, p)))
            && (forall p :: p in s.dirs && !Within(p, userDir) ==> p in s2.dirs)
  {
    CreatedState(c, s, create);
    DeletedState(c, Step(c, s, create).0, delete);
    DirsBack(s.dirs, CalculatePath(c.root, Canonical(create.email)).value, create.fault);
  }
}
