/** Where a mailbox lives on disk, and making and removing its directories. */
module Provisioning {
  import opened Wrappers
  import opened Text

  /** A clean absolute path, element by element. */
  type Path = seq<string>

  datatype ProvisionError = InvalidMailbox | PathTraversal | SystemError

  // ---------- Valid local parts and domains ----------

  predicate IsAlnum(c: char) { IsLower(c) || IsDigit(c) }

  predicate IsLocalChar(c: char) { IsAlnum(c) || c == '_' || c == '.' || c == '+' || c == '-' }

  predicate IsLocalPart(s: string) {
    s != "" && IsAlnum(s[0]) && IsAlnum(s[|s| - 1]) && forall i :: 0 <= i < |s| ==> IsLocalChar(s[i])
  }

  predicate IsLabel(s: string) {
    && 1 <= |s| <= 63 && IsAlnum(s[0]) && IsAlnum(s[|s| - 1])
    && forall i :: 0 <= i < |s| ==> IsAlnum(s[i]) || s[i] == '-'
  }

  predicate IsDomainName(s: string) {
    var labels := Split(s, '.');
    |labels| >= 2 && forall i :: 0 <= i < |labels| ==> IsLabel(labels[i])
  }

  // ---------- The path of a mailbox ----------

  predicate Escapes(s: string) { Contains(s, "..") || '/' in s || '\\' in s }

  function CalculatePath(root: Path, email: string): Result<Path, ProvisionError> {
    var parts := Split(Canonical(email), '@');
    if |parts| != 2 || parts[0] == "" || parts[1] == "" then Err(InvalidMailbox)
    else if Escapes(parts[0]) || Escapes(parts[1]) then Err(PathTraversal)
    else if !IsLocalPart(parts[0]) || !IsDomainName(parts[1]) then Err(InvalidMailbox)
    else if HasPrefix(Join([parts[1], parts[0], "Maildir"], '/'), "..") then Err(PathTraversal)
    else Ok(root + [parts[1], parts[0], "Maildir"])
  }

  /** The directory above the Maildir, which holds everything of one user. */
  function UserDir(maildir: Path): Path
    requires maildir != []
  {
    maildir[..|maildir| - 1]
  }

  /** `q` is `p` or lies below it. */
  predicate Within(q: Path, p: Path) { p <= q }

  // ---------- The directories ----------

  /** Which call fails, if any: MkdirAll of the `step`-th directory after making the first `depth` elements of
      its path, or Chmod of it. */
  datatype Fault = NoFault | MkdirFails(step: nat, depth: nat) | ChmodFails(step: nat)

  function PathAndParents(p: Path, depth: nat): set<Path> { set k | 0 <= k <= |p| && k <= depth :: p[..k] }

  function SubDirs(maildir: Path): seq<Path> {
    [maildir, maildir + ["cur"], maildir + ["new"], maildir + ["tmp"]]
  }

  /** The Maildir is there, with its three subdirectories. */
  predicate Complete(dirs: set<Path>, maildir: Path) { forall i :: 0 <= i < 4 ==> SubDirs(maildir)[i] in dirs }

  /** The directories once the first `n` steps are done. */
  function MadeUpTo(dirs: set<Path>, maildir: Path, n: nat): set<Path>
    requires n <= 4
  {
    if n == 0 then dirs else
      var p := SubDirs(maildir)[n - 1];
      MadeUpTo(dirs, maildir, n - 1) + PathAndParents(p, |p|)
  }

  function AfterProvision(dirs: set<Path>, maildir: Path, fault: Fault): set<Path> {
    match fault
    case MkdirFails(step, depth) =>
      if step < 4 then MadeUpTo(dirs, maildir, step) + PathAndParents(SubDirs(maildir)[step], depth)
      else MadeUpTo(dirs, maildir, 4)
    case ChmodFails(step) => MadeUpTo(dirs, maildir, if step < 4 then step + 1 else 4)
    case NoFault => MadeUpTo(dirs, maildir, 4)
  }

  predicate Goes(fault: Fault) { fault.NoFault? || fault.step >= 4 }

  class FilesystemProvisioner {
    const root: Path
    var dirs: set<Path>

    constructor (root: Path)
      ensures this.root == root && dirs == PathAndParents(root, |root|)
    {
      this.root := root;
      dirs := PathAndParents(root, |root|);
    }

    method Provision(email: string, fault: Fault) returns (r: Result<(), ProvisionError>)
      modifies this
      ensures match CalculatePath(root, email)
              case Err(e) => r == Err(e) && dirs == old(dirs)
              case Ok(maildir) =>
                (r.Ok? <==> Goes(fault)) && dirs == AfterProvision(old(dirs), maildir, fault)
    {
      var maildir := CalculatePath(root, email);
      if maildir.Err? {
        return Err(maildir.error);
      }
      var steps := SubDirs(maildir.value);
      for i := 0 to 4
        invariant dirs == MadeUpTo(old(dirs), maildir.value, i)
        invariant fault.NoFault? || fault.step >= i
      {
        if fault.MkdirFails? && fault.step == i {
          dirs := dirs + PathAndParents(steps[i], fault.depth);
          return Err(SystemError);
        }
        dirs := dirs + PathAndParents(steps[i], |steps[i]|);
        if fault.ChmodFails? && fault.step == i {
          return Err(SystemError);
        }
      }
      r := Ok(());
    }

    /** `left`: what RemoveAll cannot remove. */
    method Deprovision(email: string, left: set<Path>) returns (r: Result<(), ProvisionError>)
      modifies this
      ensures match CalculatePath(root, email)
              case Err(e) => r == Err(e) && dirs == old(dirs)
              case Ok(maildir) =>
                && dirs == Removed(old(dirs), UserDir(maildir), left)
                && (r.Ok? <==> forall p :: p in dirs ==> !Within(p, UserDir(maildir)))
    {
      var maildir := CalculatePath(root, email);
      if maildir.Err? {
        return Err(maildir.error);
      }
      var userDir := UserDir(maildir.value);
      var gone := set p | p in dirs && Within(p, userDir) && p !in left;
      dirs := dirs - gone;
      r := if exists p :: p in dirs && Within(p, userDir) then Err(SystemError) else Ok(());
    }
  }

  function Removed(dirs: set<Path>, userDir: Path, left: set<Path>): set<Path> {
    set p | p in dirs && (!Within(p, userDir) || p in left)
  }

  // ---------- What the paths guarantee ----------

  lemma PathParts(root: Path, email: string)
    requires CalculatePath(root, email).Ok?
    ensures var parts := Split(Canonical(email), '@');
            && |parts| == 2 && Canonical(email) == parts[0] + "@" + parts[1]
            && IsElement(parts[0]) && IsElement(parts[1])
            && CalculatePath(root, email).value == root + [parts[1], parts[0], "Maildir"]
  {
    TwoParts(Canonical(email));
    FirstOfLabels(Split(Canonical(email), '@')[1]);
  }

  lemma FirstOfLabels(s: string)
    requires IsDomainName(s)
    ensures s != "" && s[0] != '.'
  {
    var labels := Split(s, '.');
    JoinOfSplit(s, '.');
    assert IsLabel(labels[0]);
    assert s[0] == labels[0][0];
  }

  /** The path stays under the root: it is the root followed by three plain elements. */
  lemma PathStaysUnderRoot(root: Path, email: string)
    requires CalculatePath(root, email).Ok?
    ensures var p := CalculatePath(root, email).value;
            root <= p && |p| == |root| + 3 && forall i :: |root| <= i < |p| ==> IsElement(p[i])
  {
    PathParts(root, email);
    assert IsElement("Maildir");
  }

  /** The final check against leaving the root can never fail. */
  lemma RootCheckIsRedundant(root: Path, email: string)
    requires var parts := Split(Canonical(email), '@');
             |parts| == 2 && IsLocalPart(parts[0]) && IsDomainName(parts[1]) && !Escapes(parts[0]) && !Escapes(parts[1])
    ensures CalculatePath(root, email).Ok?
  {
    var parts := Split(Canonical(email), '@');
    FirstOfLabels(parts[1]);
    assert Join([parts[1], parts[0], "Maildir"], '/')[0] == parts[1][0];
  }

  /** Distinct addresses live in directories neither of which contains the other. */
  lemma UserDirsAreApart(root: Path, e1: string, e2: string)
    requires CalculatePath(root, e1).Ok? && CalculatePath(root, e2).Ok?
    ensures var d1, d2 := UserDir(CalculatePath(root, e1).value), UserDir(CalculatePath(root, e2).value);
            Within(d1, d2) || Within(d2, d1) ==> Canonical(e1) == Canonical(e2)
    ensures CalculatePath(root, e1) == CalculatePath(root, e2) <==> Canonical(e1) == Canonical(e2)
  {
    PathParts(root, e1);
    PathParts(root, e2);
    var p1, p2 := CalculatePath(root, e1).value, CalculatePath(root, e2).value;
    var d1, d2 := UserDir(p1), UserDir(p2);
    var n := |root|;
    if Within(d1, d2) || Within(d2, d1) {
      assert d1 == d2;
      assert p1[n] == d1[n] == d2[n] == p2[n] && p1[n + 1] == d1[n + 1] == d2[n + 1] == p2[n + 1];
    }
    if p1 == p2 {
      assert p1[n] == p2[n] && p1[n + 1] == p2[n + 1];
    }
  }

  /** As text, too, paths of plain elements determine their elements. */
  lemma PathTextIsInjective(p: Path, q: Path)
    requires p != [] && q != [] && (forall i :: 0 <= i < |p| ==> IsElement(p[i])) && (forall i :: 0 <= i < |q| ==> IsElement(q[i]))
    requires Join(p, '/') == Join(q, '/')
    ensures p == q
  {
    SplitOfJoin(p, '/');
    SplitOfJoin(q, '/');
  }

  lemma ProvisionCompletes(dirs: set<Path>, maildir: Path, fault: Fault)
    ensures dirs <= AfterProvision(dirs, maildir, fault)
    ensures Goes(fault) ==> Complete(AfterProvision(dirs, maildir, fault), maildir)
  {
    MadeGrows(dirs, maildir, 0, 4);
    match fault {
      case MkdirFails(step, _) => if step < 4 { MadeGrows(dirs, maildir, 0, step); }
      case ChmodFails(step) => if step < 4 { MadeGrows(dirs, maildir, 0, step + 1); }
      case NoFault =>
    }
    forall i | 0 <= i < 4 ensures SubDirs(maildir)[i] in MadeUpTo(dirs, maildir, 4) {
      var p := SubDirs(maildir)[i];
      assert p == p[..|p|] && p in PathAndParents(p, |p|);
      MadeGrows(dirs, maildir, i + 1, 4);
    }
  }

  lemma {:induction false} MadeGrows(dirs: set<Path>, maildir: Path, m: nat, n: nat)
    requires m <= n <= 4
    ensures MadeUpTo(dirs, maildir, m) <= MadeUpTo(dirs, maildir, n)
  {
    if m < n {
      MadeGrows(dirs, maildir, m, n - 1);
    }
  }

  lemma OthersSurvive(root: Path, dirs: set<Path>, e: string, other: string, left: set<Path>)
    requires CalculatePath(root, e).Ok? && CalculatePath(root, other).Ok? && Canonical(e) != Canonical(other)
    requires Complete(dirs, CalculatePath(root, other).value)
    ensures Complete(Removed(dirs, UserDir(CalculatePath(root, e).value), left), CalculatePath(root, other).value)
  {
    var maildir := CalculatePath(root, other).value;
    var gone := UserDir(CalculatePath(root, e).value);
    PathStaysUnderRoot(root, e);
    PathStaysUnderRoot(root, other);
    UserDirsAreApart(root, e, other);
    assert Within(gone, gone) && gone != UserDir(maildir);
    forall i | 0 <= i < 4 ensures !Within(SubDirs(maildir)[i], gone) {
      BelowItsOwn(maildir, gone, i);
    }
  }

  lemma BelowItsOwn(maildir: Path, other: Path, i: nat)
    requires i < 4 && |other| + 1 == |maildir| && other != UserDir(maildir)
    ensures !Within(SubDirs(maildir)[i], other)
  {
    assert SubDirs(maildir)[i][..|other|] == UserDir(maildir);
  }

  // ---------- Which mailboxes have a path ----------

  lemma {:induction false} NotInText(s: string, c: char, d: char)
    requires c != d && forall i :: 0 <= i < |Split(s, c)| ==> d !in Split(s, c)[i]
    ensures d !in s
  {
    if s != "" {
      var r := Split(s[1..], c);
      var all := Split(s, c);
      if s[0] == c {
        assert forall i :: 0 <= i < |r| ==> r[i] == all[i + 1];
      } else {
        assert all[0] == [s[0]] + r[0] && s[0] in all[0] && forall i :: 1 <= i < |r| ==> r[i] == all[i];
        assert forall k :: 0 <= k < |r[0]| ==> r[0][k] == all[0][k + 1];
      }
      NotInText(s[1..], c, d);
      assert s == [s[0]] + s[1..];
    }
  }

  lemma EmptyLabel(a: string, b: string)
    ensures exists i :: 0 <= i < |Split(a + ".." + b, '.')| && Split(a + ".." + b, '.')[i] == ""
  {
    SplitConcat(a, "." + b, '.');
    SplitConcat("", b, '.');
    assert a + ".." + b == a + ['.'] + ("." + b) && "." + b == "" + ['.'] + b;
    var all := Split(a, '.') + ([""] + Split(b, '.'));
    assert all[|Split(a, '.')|] == "";
  }

  /** A domain name cannot lead anywhere. */
  lemma DomainNameIsSafe(domain: string)
    requires IsDomainName(domain)
    ensures !Escapes(domain)
  {
    var labels := Split(domain, '.');
    assert forall i :: 0 <= i < |labels| ==> IsLabel(labels[i]);
    NotInText(domain, '.', '/');
    NotInText(domain, '.', '\\');
    ContainsMeans(domain, "..");
    if Contains(domain, "..") {
      var k :| At(domain, "..", k);
      assert domain == domain[..k] + ".." + domain[k + 2..];
      EmptyLabel(domain[..k], domain[k + 2..]);
    }
  }

  /** An address of two parts has a path if and only if the parts are a local part without ".." and a domain name; it is
      taken for an attempt to leave the root if a part has "..", a slash or a backslash in it. */
  lemma PathIsExact(root: Path, email: string, local: string, domain: string)
    requires Canonical(email) == local + "@" + domain && '@' !in local && '@' !in domain
    ensures CalculatePath(root, email) ==
              if IsLocalPart(local) && IsDomainName(domain) && !Contains(local, "..") then
                Ok(root + [domain, local, "Maildir"])
              else if local != "" && domain != "" && (Escapes(local) || Escapes(domain)) then Err(PathTraversal)
              else Err(InvalidMailbox)
  {
    SplitConcat(local, domain, '@');
    SplitPlain(local, '@');
    SplitPlain(domain, '@');
    assert Split(Canonical(email), '@') == [local, domain];
    if IsLocalPart(local) && IsDomainName(domain) && !Contains(local, "..") {
      DomainNameIsSafe(domain);
      RootCheckIsRedundant(root, email);
    }
  }

  /** Any other address has none. */
  lemma NoPathWithoutParts(root: Path, email: string)
    requires forall local, domain :: '@' !in local && '@' !in domain ==> Canonical(email) != local + "@" + domain
    ensures CalculatePath(root, email) == Err(InvalidMailbox)
  {
    if |Split(Canonical(email), '@')| == 2 {
      TwoParts(Canonical(email));
    }
  }

  lemma TwoParts(s: string)
    requires |Split(s, '@')| == 2
    ensures var parts := Split(s, '@'); s == parts[0] + "@" + parts[1] && '@' !in parts[0] && '@' !in parts[1]
  {
    var parts := Split(s, '@');
    JoinOfSplit(s, '@');
    assert Join(parts, '@') == parts[0] + ['@'] + Join(parts[1..], '@');
  }

  /** Of 1 to 63 small letters, digits and hyphens, with no hyphen at either end. */
  predicate IsHostLabel(s: string) {
    && 1 <= |s| <= 63 && s[0] != '-' && s[|s| - 1] != '-'
    && forall c :: c in s ==> 'a' <= c <= 'z' || '0' <= c <= '9' || c == '-'
  }

  /** A domain name is two such labels or more with dots between them. */
  lemma DomainNameMeans(labels: seq<string>)
    requires labels != [] && forall i :: 0 <= i < |labels| ==> '.' !in labels[i]
    ensures IsDomainName(Join(labels, '.')) <==>
            |labels| >= 2 && forall i :: 0 <= i < |labels| ==> IsHostLabel(labels[i])
  {
    SplitOfJoin(labels, '.');
    forall i | 0 <= i < |labels| ensures IsLabel(labels[i]) <==> IsHostLabel(labels[i]) {
      if labels[i] != "" {
        LabelMeans(labels[i]);
      }
    }
  }

  lemma LabelMeans(s: string)
    requires s != ""
    ensures IsLabel(s) <==> IsHostLabel(s)
  {
    assert s[0] in s && s[|s| - 1] in s && forall i :: 0 <= i < |s| ==> s[i] in s;
  }

  // ---------- What a failure leaves behind ----------

  lemma PrefixesUpTo(p: Path, depth: nat, q: Path)
    ensures q in PathAndParents(p, depth) <==> q <= p && |q| <= depth
  {
    assert q <= p ==> q == p[..|q|];
  }

  ghost predicate LeadsToFirst(maildir: Path, n: int, q: Path) {
    exists i :: 0 <= i < n && i < 4 && q <= SubDirs(maildir)[i]
  }

  lemma {:induction false} MadeAre(dirs: set<Path>, maildir: Path, n: nat, q: Path)
    requires n <= 4
    ensures q in MadeUpTo(dirs, maildir, n) <==> q in dirs || LeadsToFirst(maildir, n, q)
  {
    if n > 0 {
      MadeAre(dirs, maildir, n - 1, q);
      var p := SubDirs(maildir)[n - 1];
      PrefixesUpTo(p, |p|, q);
      assert q <= p ==> |q| <= |p|;
      assert LeadsToFirst(maildir, n, q) <==> LeadsToFirst(maildir, n - 1, q) || q <= p;
    }
  }

  /** After provisioning there is what was there, the directories made so far with all above them, and, when making one
      fails on the way, the part of the way to it; a directory whose mode cannot be set has been made. */
  lemma ProvisionLeaves(dirs: set<Path>, maildir: Path, fault: Fault, q: Path)
    ensures var made := if fault.NoFault? then 4 else if fault.ChmodFails? then fault.step + 1 else fault.step;
            q in AfterProvision(dirs, maildir, fault) <==>
            || q in dirs || LeadsToFirst(maildir, made, q)
            || (fault.MkdirFails? && fault.step < 4 && q <= SubDirs(maildir)[fault.step] && |q| <= fault.depth)
  {
    var made: nat := if fault.NoFault? then 4 else if fault.ChmodFails? then fault.step + 1 else fault.step;
    MadeAre(dirs, maildir, if made < 4 then made else 4, q);
    assert LeadsToFirst(maildir, made, q) <==> LeadsToFirst(maildir, if made < 4 then made else 4, q);
    if fault.MkdirFails? && fault.step < 4 {
      PrefixesUpTo(SubDirs(maildir)[fault.step], fault.depth, q);
    }
  }

  /** Whatever failed, provisioning once more without a failure leaves what it would have left at once. */
  lemma RetryCompletes(dirs: set<Path>, maildir: Path, fault: Fault)
    ensures AfterProvision(AfterProvision(dirs, maildir, fault), maildir, NoFault) == AfterProvision(dirs, maildir, NoFault)
  {
    var once := AfterProvision(dirs, maildir, fault);
    forall q ensures q in AfterProvision(once, maildir, NoFault) <==> q in AfterProvision(dirs, maildir, NoFault) {
      ProvisionLeaves(dirs, maildir, fault, q);
      ProvisionLeaves(dirs, maildir, NoFault, q);
      ProvisionLeaves(once, maildir, NoFault, q);
    }
  }
}
