/** Where a marking, a move or a removal leaves the message that it finds, place by place. */
module MaildirSteps {
  import opened Wrappers
  import opened Text
  import opened MaildirNames
  import opened Maildir
  import opened MaildirTheorems
  import opened MaildirFolders
  import opened MaildirListing

  /** As in a file system: the Maildir is there, and everything below it is in a directory. */
  ghost predicate Sound(t: Tree) {
    Rooted(t) && forall p :: p in t && p != [] ==> Parent(p) in t && t[Parent(p)].isDir
  }

  predicate IsFile(t: Tree, p: Path) { p in t && !t[p].isDir }

  predicate IsDir(t: Tree, p: Path) { p in t && t[p].isDir }

  lemma {:induction false} AboveIsDir(t: Tree, p: Path, q: Path)
    requires Sound(t) && q in t && p < q
    ensures IsDir(t, p)
    decreases |q|
  {
    assert p <= Parent(q);
    if p != Parent(q) {
      AboveIsDir(t, p, Parent(q));
    }
  }

  lemma FileGoes(t: Tree, p: Path, q: Path, ok: bool)
    requires Sound(t) && IsFile(t, p) && q != []
    ensures Goes(t, p, q, ok) <==> p != q && ok && IsDir(t, Parent(q)) && !IsDir(t, q)
  {
    if IsDir(t, Parent(q)) && p <= q && p != q {
      assert p <= Parent(q);
      if p != Parent(q) {
        AboveIsDir(t, p, Parent(q));
      }
    }
    if !IsDir(t, q) {
      forall x | x in t ensures !(q < x) {
        if q < x {
          AboveIsDir(t, q, x);
        }
      }
    }
  }

  /** Nothing is below a file, before or after it is renamed. */
  lemma OnlyTheFile(t: Tree, p: Path, q: Path, ok: bool, x: Path)
    requires Sound(t) && IsFile(t, p) && Goes(t, p, q, ok)
    ensures p <= x && x in t ==> x == p
    ensures q <= x && Origin(p, q, x) in t ==> x == q
    ensures Origin(p, q, q) == p
  {
    var y := Origin(p, q, x);
    if p < x && x in t {
      AboveIsDir(t, p, x);
    }
    if q <= x && x != q && y in t {
      assert p < y;
      AboveIsDir(t, p, y);
    }
  }

  lemma FileRenamedAt(t: Tree, p: Path, q: Path, ok: bool, x: Path)
    requires Sound(t) && IsFile(t, p) && Goes(t, p, q, ok)
    ensures var t' := Renamed(t, p, q, ok);
            && (x in t' <==> x == q || (x in t && x != p))
            && (x in t' ==> t'[x] == if x == q then t[p] else t[x])
  {
    RenamedAt(t, p, q, ok, x);
    OnlyTheFile(t, p, q, ok, x);
  }

  lemma FileRenamed(t: Tree, p: Path, q: Path, ok: bool)
    requires Sound(t) && IsFile(t, p) && Goes(t, p, q, ok)
    ensures Renamed(t, p, q, ok) == (t - {p})[q := t[p]]
  {
    forall x {
      FileRenamedAt(t, p, q, ok, x);
    }
    MovedInMap(t, Renamed(t, p, q, ok), p, q);
  }

  lemma MovedInMap<K, V>(m: map<K, V>, m': map<K, V>, p: K, q: K)
    requires p in m && p != q
    requires forall x :: x in m' <==> x == q || (x in m && x != p)
    requires forall x :: x in m' ==> m'[x] == if x == q then m[p] else m[x]
    ensures m' == (m - {p})[q := m[p]]
  {
    assert m'.Keys == (m - {p})[q := m[p]].Keys;
  }

  lemma FileEffect(t: Tree, p: Path, q: Path, ok: bool)
    requires Sound(t) && IsFile(t, p) && q != []
    ensures Renamed(t, p, q, ok) ==
              if p != q && ok && IsDir(t, Parent(q)) && !IsDir(t, q) then (t - {p})[q := t[p]] else t
  {
    FileGoes(t, p, q, ok);
    if Goes(t, p, q, ok) {
      FileRenamed(t, p, q, ok);
    }
  }

  lemma ReadInCur(dir: Path, name: string, read: bool)
    ensures ReadAt(Slot(dir, Cur, Flagged(name, read))) <==> read || 'S' in CleanName(name)
  {
    var q := Slot(dir, Cur, Flagged(name, read));
    assert q[|q| - 2] == "cur";
    MarkingSetsRead(name, read);
  }

  /** A marking puts the message that it finds, with its contents, into the folder's `cur`, under its name with the new
      flags; it shows as read there if and only if it was marked read, or the name before the flags contains an 'S'.
      Nothing changes when it is there already, when there is no `cur`, or when a directory has that name. */
  lemma MarkingLands(t: Tree, op: Op, p: Path)
    requires Sound(t) && op.Mark? && IsFile(t, p) && Finds(t, FolderPath(op.dir), CleanId(op.id), Some(p))
    ensures var cur := FolderPath(op.dir) + ["cur"];
            var q := cur + [CleanName(Name(p)) + if op.read then ":2,S" else ":2,"];
            && Effect(t, op, Some(p)) ==
                 (if p != q && op.ok && IsDir(t, cur) && !IsDir(t, q) then (t - {p})[q := t[p]] else t)
            && (ReadAt(q) <==> op.read || 'S' in CleanName(Name(p)))
  {
    var cur := FolderPath(op.dir) + ["cur"];
    var q := cur + [CleanName(Name(p)) + if op.read then ":2,S" else ":2,"];
    assert q == Slot(FolderPath(op.dir), Cur, Flagged(Name(p), op.read)) && Parent(q) == cur;
    ReadInCur(FolderPath(op.dir), Name(p), op.read);
    FileEffect(t, p, q, op.ok);
  }

  /** The directories that a move makes. */
  function NewDirs(t: Tree, dir: Path): Tree { map d | d in {dir, dir + ["cur"]} && d !in t :: DIRECTORY }

  lemma TargetMade(t: Tree, dst: string)
    requires Sound(t)
    ensures var dir := FolderPath(dst);
            WithTarget(t, dst) == if IsFile(t, dir) || IsFile(t, dir + ["cur"]) then t else t + NewDirs(t, dir)
  {
    PrefixesOfCur(FolderPath(dst));
  }

  lemma NewDirsAreSound(t: Tree, dir: Path)
    requires Sound(t) && |dir| <= 1 && !IsFile(t, dir) && !IsFile(t, dir + ["cur"])
    ensures Sound(t + NewDirs(t, dir)) && IsDir(t + NewDirs(t, dir), dir + ["cur"])
    ensures forall q :: q in t ==> q in t + NewDirs(t, dir) && (t + NewDirs(t, dir))[q] == t[q]
    ensures forall q :: |q| == |dir| + 2 ==> (q in t + NewDirs(t, dir) <==> q in t)
  {
    var cur := dir + ["cur"];
    assert Parent(cur) == dir && (dir != [] ==> Parent(dir) == []);
  }

  lemma PrefixesOfCur(dir: Path)
    requires |dir| <= 1
    ensures Prefixes(dir + ["cur"]) == {[], dir, dir + ["cur"]}
  {
    var cur := dir + ["cur"];
    forall k | 0 <= k <= |cur| ensures cur[..k] == [] || cur[..k] == dir || cur[..k] == cur {
      if k == |dir| {
        assert cur[..k] == dir;
      }
    }
    assert cur[..0] == [] && cur[..|dir|] == dir && cur[..|cur|] == cur;
  }

  /** A move puts the message that it finds, with its contents, into the `cur` of the target, under the same name, and
      answers that it did, unless a file is in the way of that directory or a directory has that name; nothing else
      changes but for the directories made. */
  lemma MoveLands(t: Tree, op: Op, p: Path)
    requires Sound(t) && op.Move? && IsFile(t, p) && Finds(t, FolderPath(op.src), CleanId(op.id), Some(p))
    ensures var dir := FolderPath(op.dst);
            var q := dir + ["cur", Name(p)];
            var blocked := IsFile(t, dir) || IsFile(t, dir + ["cur"]);
            var t1 := if blocked then t else t + NewDirs(t, dir);
            var goes := op.ok && !blocked && !IsDir(t, q);
            && Effect(t, op, Some(p)) == (if goes && p != q then (t1 - {p})[q := t[p]] else t1)
            && Answer(t, op, Some(p)) == (if goes then Ok(()) else Err(SystemError))
  {
    var dir, t1 := FolderPath(op.dst), WithTarget(t, op.dst);
    var cur, q := dir + ["cur"], dir + ["cur", Name(p)];
    TargetMade(t, op.dst);
    assert q == MovedTo(op.dst, p) && Parent(q) == cur;
    if p == q {
      assert cur < q && dir < q;
      AboveIsDir(t, cur, q);
      AboveIsDir(t, dir, q);
    }
    if IsFile(t, dir) || IsFile(t, cur) {
      NoCur(t, dir);
    } else {
      NewDirsAreSound(t, dir);
    }
    FileEffect(t1, p, q, op.ok);
    FileGoes(t1, p, q, op.ok);
  }

  lemma NoCur(t: Tree, dir: Path)
    requires Sound(t) && (IsFile(t, dir) || IsFile(t, dir + ["cur"]))
    ensures !IsDir(t, dir + ["cur"])
  {
    if dir + ["cur"] in t {
      AboveIsDir(t, dir, dir + ["cur"]);
    }
  }

  /** A removal removes the message that it finds, and nothing else, unless the system refuses. */
  lemma RemovalLands(t: Tree, op: Op, p: Path)
    requires Sound(t) && op.Remove? && IsFile(t, p) && Finds(t, FolderPath(op.dir), CleanId(op.id), Some(p))
    ensures Effect(t, op, Some(p)) == (if op.ok then t - {p} else t)
    ensures Answer(t, op, Some(p)) == (if op.ok then Ok(()) else Err(SystemError))
  {
    forall x | x in t ensures !(p < x) {
      if p < x {
        AboveIsDir(t, p, x);
      }
    }
  }

  /** The ids "." and "/" find the folder's `cur`, and ".." the folder. */
  lemma DirectoryIds(t: Tree, dir: Path)
    requires Sound(t) && dir + ["cur"] in t
    ensures Finds(t, dir, ".", Some(dir + ["cur"])) && Finds(t, dir, "/", Some(dir + ["cur"])) && Finds(t, dir, "..", Some(dir))
  {
    AboveIsDir(t, dir, dir + ["cur"]);
  }

  // ---------- A sound tree stays sound ----------

  lemma AboveOrAtParent(p: Path, x: Path)
    requires x != []
    ensures p <= Parent(x) <==> p < x
  {
    assert p < x ==> Parent(x)[..|p|] == x[..|p|];
  }

  lemma ParentOfMoved(src: Path, dst: Path, x: Path)
    requires dst < x
    ensures Origin(src, dst, x) != [] && Parent(Origin(src, dst, x)) == Origin(src, dst, Parent(x))
  {
    AboveOrAtParent(dst, x);
    var rest := x[|dst|..];
    assert rest[..|rest| - 1] == Parent(x)[|dst|..];
    assert src + rest == src + rest[..|rest| - 1] + [rest[|rest| - 1]];
  }

  /** After the rename, `q` holds what was at its origin. */
  predicate TakenFrom(t: Tree, t': Tree, src: Path, dst: Path, q: Path) {
    var p := Origin(src, dst, q);
    (q in t' <==> p in t && (dst <= q || !(src <= q))) && (q in t' ==> t'[q] == t[p])
  }

  lemma ParentTaken(t: Tree, t': Tree, src: Path, dst: Path, x: Path)
    requires Sound(t) && x != [] && TakenFrom(t, t', src, dst, x) && TakenFrom(t, t', src, dst, Parent(x))
    requires dst != [] && !(src <= dst) && IsDir(t, Parent(dst))
    ensures x in t' ==> IsDir(t', Parent(x))
  {
    AboveOrAtParent(src, x);
    AboveOrAtParent(dst, x);
    if dst < x {
      ParentOfMoved(src, dst, x);
    } else if dst == x {
      assert Origin(src, dst, Parent(x)) == Parent(x);
    } else {
      assert Origin(src, dst, x) == x && Origin(src, dst, Parent(x)) == Parent(x);
    }
  }

  lemma RenamedStaysSoundAt(t: Tree, src: Path, dst: Path, ok: bool, x: Path)
    requires Sound(t) && Goes(t, src, dst, ok) && x in Renamed(t, src, dst, ok) && x != []
    ensures IsDir(Renamed(t, src, dst, ok), Parent(x))
  {
    RenamedAt(t, src, dst, ok, x);
    RenamedAt(t, src, dst, ok, Parent(x));
    ParentTaken(t, Renamed(t, src, dst, ok), src, dst, x);
  }

  lemma RenamedStaysSound(t: Tree, src: Path, dst: Path, ok: bool)
    requires Sound(t)
    ensures Sound(Renamed(t, src, dst, ok))
  {
    if Goes(t, src, dst, ok) {
      forall x | x in Renamed(t, src, dst, ok) && x != [] ensures IsDir(Renamed(t, src, dst, ok), Parent(x)) {
        RenamedStaysSoundAt(t, src, dst, ok, x);
      }
      RenamedAt(t, src, dst, ok, []);
    }
  }

  lemma RemovedStaysSound(t: Tree, p: Path, ok: bool)
    requires Sound(t) && p != []
    ensures Sound(Removed(t, p, ok))
  {
    forall x | x in Removed(t, p, ok) && x != [] ensures Parent(x) in Removed(t, p, ok) {
      assert Parent(x) < x;
    }
  }

  /** Every step, with whatever id, leaves a sound tree sound, but for the removal of an empty Maildir itself. */
  lemma StepStaysSound(t: Tree, op: Op, t': Tree)
    requires Sound(t) && Next(t, op, t')
    ensures Sound(t') || (op.Remove? && t' == t - {[]})
  {
    var found :| Finds(t, SourceOf(op), CleanId(op.id), found) && t' == Effect(t, op, found);
    if found.Some? {
      match op {
        case Mark(dir, _, read, ok) => RenamedStaysSound(t, found.value, Marked(FolderPath(dir), found.value, read), ok);
        case Move(_, dst, _, ok) =>
          TargetMade(t, dst);
          if !IsFile(t, FolderPath(dst)) && !IsFile(t, FolderPath(dst) + ["cur"]) {
            NewDirsAreSound(t, FolderPath(dst));
          }
          RenamedStaysSound(WithTarget(t, dst), found.value, MovedTo(dst, found.value), ok);
        case Remove(_, _, ok) => if found.value != [] { RemovedStaysSound(t, found.value, ok); }
      }
    }
  }
}
