/** What the webmail operations do to messages, over single steps and over every run. */
module MaildirTheorems {
  import opened Wrappers
  import opened Folds
  import opened Text
  import opened MaildirNames
  import opened Maildir

  // ---------- Messages in folders ----------

  predicate IsSub(name: string) { name == "cur" || name == "new" }

  predicate IsDotName(name: string) { name != "" && name[0] == '.' }

  /** The Maildir itself, for the inbox, or a directory in it whose name starts with a dot. */
  predicate IsFolder(dir: Path) { dir == [] || (|dir| == 1 && IsDotName(dir[0])) }

  /** An entry of the `cur` or `new` of a folder. */
  predicate InFolder(p: Path) { (|p| == 2 && IsSub(p[0])) || (|p| == 3 && IsDotName(p[0]) && IsSub(p[1])) }

  function FolderOf(p: Path): (dir: Path)
    requires InFolder(p)
    ensures IsFolder(dir)
  {
    p[..|p| - 2]
  }

  /** Everything in the folders. */
  function Entries(t: Tree): map<Path, Entry> { map p | p in t && InFolder(p) :: t[p] }

  /** No entry of a folder lies below another one. */
  lemma EntriesApart(p: Path, q: Path)
    requires InFolder(p) && InFolder(q) && p <= q
    ensures p == q
  {
    assert p[0] == q[0];
  }

  /** `p` is where an entry of `dir` is: two elements below it, in its `cur` or `new`. */
  predicate IsSlot(dir: Path, p: Path) { |p| == |dir| + 2 && p[..|dir|] == dir && IsSub(p[|dir|]) }

  lemma SlotIsSlot(dir: Path, s: Sub, name: string)
    ensures IsSlot(dir, Slot(dir, s, name)) && Name(Slot(dir, s, name)) == name
  {
  }

  lemma ListedIsSlot(t: Tree, dir: Path, s: Sub, p: Path)
    requires Listed(t, dir, s, p)
    ensures IsSlot(dir, p)
  {
    assert p == Parent(p) + [Name(p)];
  }

  lemma SlotOfFolder(dir: Path, p: Path)
    requires IsSlot(dir, p) && IsFolder(dir)
    ensures InFolder(p) && FolderOf(p) == dir
  {
    assert dir != [] ==> p[0] == p[..|dir|][0] == dir[0];
  }

  // ---------- What a lookup finds ----------

  predicate IsEntryName(cleanId: string) { cleanId != "." && cleanId != ".." && cleanId != "/" }

  /** The id asks for an entry, not for a directory that the path to it goes through. */
  predicate NamesEntry(id: string) { IsEntryName(CleanId(id)) }

  /** A lookup finds an entry of the folder, or else the folder itself, its `cur`, or its `new` if there is no `cur`. */
  lemma FoundWhere(t: Tree, dir: Path, cleanId: string, p: Path)
    requires Finds(t, dir, cleanId, Some(p))
    ensures p in t
    ensures IsSlot(dir, p) || (!IsEntryName(cleanId) &&
              (p == dir || p == dir + ["cur"] || (p == dir + ["new"] && dir + ["cur"] !in t)))
  {
    var s := if FindsIn(t, dir, Cur, cleanId, None) then New else Cur;
    if Joined(dir, s, cleanId) in t {
      SlotIsSlot(dir, s, cleanId);
    } else {
      ListedIsSlot(t, dir, s, p);
    }
  }

  // ---------- Steps on the entries of folders ----------

  lemma MadeDirKeepsEntries(t: Tree, dir: Path)
    requires IsFolder(dir)
    ensures Entries(MadeDir(t, dir + ["cur"])) == Entries(t)
  {
    var cur := dir + ["cur"];
    forall q | q in Prefixes(cur) ensures !InFolder(q) {
      assert q != [] ==> q[0] == cur[0];
    }
  }

  /** A rename from one place in a folder to another. */
  lemma RenamedEntries(t: Tree, src: Path, dst: Path, ok: bool)
    requires Goes(t, src, dst, ok) && InFolder(src) && InFolder(dst)
    ensures src != dst && Entries(Renamed(t, src, dst, ok)) == (Entries(t) - {src})[dst := t[src]]
  {
    var before, after := (Entries(t) - {src})[dst := t[src]], Entries(Renamed(t, src, dst, ok));
    forall q | InFolder(q) ensures (q in after <==> q in before) && (q in after ==> after[q] == before[q]) {
      RenamedAt(t, src, dst, ok, q);
      if dst <= q {
        EntriesApart(dst, q);
        assert src + q[|dst|..] == src;
      } else if src <= q {
        EntriesApart(src, q);
      }
    }
    assert after.Keys == before.Keys;
  }

  /** A rename outside all folders. */
  lemma RenamedElsewhere(t: Tree, src: Path, dst: Path, ok: bool)
    requires forall q :: InFolder(q) ==> !(src <= q) && !(dst <= q)
    ensures Entries(Renamed(t, src, dst, ok)) == Entries(t)
  {
    if Goes(t, src, dst, ok) {
      var after := Entries(Renamed(t, src, dst, ok));
      forall q | InFolder(q) ensures (q in after <==> q in Entries(t)) && (q in after ==> after[q] == Entries(t)[q]) {
        RenamedAt(t, src, dst, ok, q);
      }
      assert after.Keys == Entries(t).Keys;
    }
  }

  /** The name a step gives: the same, or with other flags. */
  predicate NamedLike(name: string, name': string) {
    name' == name || name' == Flagged(name, true) || name' == Flagged(name, false)
  }

  /** The step renames one entry of a folder. */
  predicate RenamesEntry(e: map<Path, Entry>, src: Path, dst: Path, e': map<Path, Entry>) {
    && src in e && InFolder(src) && InFolder(dst) && dst != src && NamedLike(Name(src), Name(dst))
    && (dst in e ==> !e[dst].isDir && !e[src].isDir)
    && e' == (e - {src})[dst := e[src]]
  }

  /** A move between folders that does not take a directory for a message, or is refused. */
  predicate Orderly(op: Op) {
    op.Move? ==>
      && IsFolder(FolderPath(op.src)) && IsFolder(FolderPath(op.dst))
      && (NamesEntry(op.id) || !op.ok)
  }

  lemma MarkOnEntries(t: Tree, dir: Path, cleanId: string, p: Path, read: bool, ok: bool)
    requires Finds(t, dir, cleanId, Some(p)) && |dir| <= 1
    ensures var t', dst := Renamed(t, p, Marked(dir, p, read), ok), Marked(dir, p, read);
            Entries(t') == Entries(t) || RenamesEntry(Entries(t), p, dst, Entries(t'))
  {
    var dst := Marked(dir, p, read);
    FoundWhere(t, dir, cleanId, p);
    SlotIsSlot(dir, Cur, Flagged(BaseOf(p), read));
    if Goes(t, p, dst, ok) {
      assert Parent(dst) == dir + ["cur"] && dir <= dst && dir + ["cur"] <= dst;
      assert IsSlot(dir, p);
      if IsFolder(dir) {
        SlotOfFolder(dir, p);
        SlotOfFolder(dir, dst);
        RenamedEntries(t, p, dst, ok);
      } else {
        forall q | InFolder(q) ensures !(p <= q) && !(dst <= q) {
          assert p[0] == p[..1][0] == dir[0] && dst[0] == dir[0];
        }
        RenamedElsewhere(t, p, dst, ok);
      }
    }
  }

  lemma MoveOnEntries(t: Tree, op: Op, p: Path)
    requires op.Move? && Orderly(op) && Finds(t, SourceOf(op), CleanId(op.id), Some(p))
    ensures var t' := Effect(t, op, Some(p));
            Entries(t') == Entries(t) || RenamesEntry(Entries(t), p, MovedTo(op.dst, p), Entries(t'))
  {
    var t1, dir, dst := WithTarget(t, op.dst), FolderPath(op.dst), MovedTo(op.dst, p);
    MadeDirKeepsEntries(t, dir);
    FoundWhere(t, SourceOf(op), CleanId(op.id), p);
    if Goes(t1, p, dst, op.ok) {
      SlotOfFolder(SourceOf(op), p);
      SlotIsSlot(dir, Cur, BaseOf(p));
      SlotOfFolder(dir, dst);
      RenamedEntries(t1, p, dst, op.ok);
      assert p in Entries(t1) && p in Entries(t);
    }
  }

  /** Apart from removals, a step leaves the entries of the folders alone or renames one of them. */
  lemma StepOnEntries(t: Tree, op: Op, t': Tree) returns (src: Path, dst: Path)
    requires Next(t, op, t') && Orderly(op) && !op.Remove? && Entries(t') != Entries(t)
    ensures RenamesEntry(Entries(t), src, dst, Entries(t'))
  {
    var found :| Finds(t, SourceOf(op), CleanId(op.id), found) && t' == Effect(t, op, found);
    src := found.value;
    if op.Mark? {
      MarkOnEntries(t, SourceOf(op), CleanId(op.id), src, op.read, op.ok);
      dst := Marked(SourceOf(op), src, op.read);
    } else {
      MoveOnEntries(t, op, src);
      dst := MovedTo(op.dst, src);
    }
  }

  // ---------- One message ----------

  lemma KeyIsPlain(name: string)
    ensures ':' !in BaseKey(name)
  {
    var s := Before(CleanName(name), ",U=");
    IndexFromIsFirst(s, ":", 0);
    var key := BaseKey(name);
    assert forall i :: 0 <= i < |key| ==> key[i] == s[i] && (s[i] == ':' ==> At(s, ":", i));
  }

  /** Whatever key the new name starts with, the old one does, too; and its own key stays. */
  lemma NamedLikeKeys(name: string, name': string, other: string)
    requires NamedLike(name, name')
    ensures BaseKey(name') == BaseKey(name)
    ensures BaseKey(other) <= name' ==> BaseKey(other) <= name
  {
    FlaggingKeepsKey(name, true);
    FlaggingKeepsKey(name, false);
    if name' != name {
      KeyIsPlain(other);
      KeyBeforeFlags(BaseKey(other), CleanName(name), name');
    }
  }

  lemma KeyBeforeFlags(key: string, clean: string, name: string)
    requires ':' !in key && clean + ":2," <= name
    ensures key <= name ==> key <= clean
  {
    assert (clean + ":2,")[|clean|] == ':';
    if key <= name && |key| <= |clean| {
      assert key == name[..|key|] == clean[..|key|];
    }
  }

  /** No other entry of a folder has a name that starts with the key of `p`. */
  ghost predicate Unshadowed(e: map<Path, Entry>, p: Path)
    requires p != []
  {
    forall q :: q in e && q != [] && BaseKey(Name(p)) <= Name(q) ==> q == p
  }

  /** `p'` is the same message after a step or a run. */
  predicate SameMessage(e: map<Path, Entry>, e': map<Path, Entry>, p: Path, p': Path) {
    && p in e && p' in e' && InFolder(p) && InFolder(p')
    && e'[p'] == e[p] && BaseKey(Name(p')) == BaseKey(Name(p))
  }

  lemma RenameKeepsMessage(e: map<Path, Entry>, src: Path, dst: Path, e': map<Path, Entry>, p: Path) returns (p': Path)
    requires RenamesEntry(e, src, dst, e') && p in e && InFolder(p) && Unshadowed(e, p)
    ensures p' == if p == src then dst else p
    ensures SameMessage(e, e', p, p') && Unshadowed(e', p')
  {
    p' := if p == src then dst else p;
    KeyIsPrefix(Name(p));
    NamedLikeKeys(Name(src), Name(dst), Name(p));
    forall q | q in e' && q != [] && BaseKey(Name(p')) <= Name(q) ensures q == p' {
      if q == dst {
        assert BaseKey(Name(p)) <= Name(src);
      } else {
        assert q in e;
      }
    }
  }

  /** An orderly step other than a removal carries a message along, with its contents and its key, and no other entry
      gets a name that starts with this key. */
  lemma StepKeepsMessage(t: Tree, op: Op, t': Tree, p: Path) returns (p': Path)
    requires Next(t, op, t') && Orderly(op) && !op.Remove?
    requires p in Entries(t) && Unshadowed(Entries(t), p)
    ensures SameMessage(Entries(t), Entries(t'), p, p') && Unshadowed(Entries(t'), p')
  {
    if Entries(t') == Entries(t) {
      p' := p;
    } else {
      var src, dst := StepOnEntries(t, op, t');
      p' := RenameKeepsMessage(Entries(t), src, dst, Entries(t'), p);
    }
  }

  // ---------- Runs ----------

  /** Some run of `ops` leads from `t` to `t'`. */
  ghost predicate Reaches(t: Tree, ops: seq<Op>, t': Tree)
    decreases |ops|
  {
    if ops == [] then t' == t else exists mid :: Next(t, ops[0], mid) && Reaches(mid, ops[1..], t')
  }

  predicate AllOrderly(ops: seq<Op>) { forall i :: 0 <= i < |ops| ==> Orderly(ops[i]) }

  predicate NoRemoval(ops: seq<Op>) { forall i :: 0 <= i < |ops| ==> !ops[i].Remove? }

  lemma SameOn(e: map<Path, Entry>, e': map<Path, Entry>, e'': map<Path, Entry>, p: Path, q: Path, r: Path)
    requires SameMessage(e, e', p, q) && SameMessage(e', e'', q, r)
    ensures SameMessage(e, e'', p, r)
  {
  }

  lemma {:induction false} RunKeepsMessage(t: Tree, ops: seq<Op>, t': Tree, p: Path) returns (p': Path)
    requires Reaches(t, ops, t') && AllOrderly(ops) && NoRemoval(ops)
    requires p in Entries(t) && Unshadowed(Entries(t), p)
    ensures SameMessage(Entries(t), Entries(t'), p, p') && Unshadowed(Entries(t'), p')
    decreases |ops|
  {
    if ops == [] {
      p' := p;
    } else {
      var mid :| Next(t, ops[0], mid) && Reaches(mid, ops[1..], t');
      var q := StepKeepsMessage(t, ops[0], mid, p);
      p' := RunKeepsMessage(mid, ops[1..], t', q);
      SameOn(Entries(t), Entries(mid), Entries(t'), p, q, p');
    }
  }

  // ---------- Identity ----------

  /** In every folder the id finds exactly what `now` says: that message in its folder, nothing elsewhere. */
  ghost predicate FindsOnly(t: Tree, id: string, now: Path)
    requires InFolder(now)
  {
    forall dir, r :: IsFolder(dir) && Finds(t, dir, CleanId(id), r) ==> r == if dir == FolderOf(now) then Some(now) else None
  }

  lemma EntryIsListed(t: Tree, p: Path)
    requires p in t && InFolder(p)
    ensures Listed(t, FolderOf(p), Cur, p) || Listed(t, FolderOf(p), New, p)
  {
    assert Parent(p) == FolderOf(p) + [p[|p| - 2]];
  }

  /** For an entry's name, what is found is an entry that answers. */
  lemma FoundAnswers(t: Tree, dir: Path, cleanId: string, p: Path)
    requires Finds(t, dir, cleanId, Some(p)) && IsEntryName(cleanId)
    ensures p in t && IsSlot(dir, p) && AnswersTo(Name(p), cleanId)
  {
    FoundWhere(t, dir, cleanId, p);
    KeyIsPrefix(cleanId);
    SlotIsSlot(dir, Cur, cleanId);
    SlotIsSlot(dir, New, cleanId);
  }

  lemma FoundIsNow(t: Tree, dir: Path, id: string, now: Path, p: Path)
    requires now in Entries(t) && Unshadowed(Entries(t), now) && BaseKey(id) == BaseKey(Name(now))
    requires IsFolder(dir) && IsEntryName(id) && Finds(t, dir, id, Some(p))
    ensures p == now && dir == FolderOf(now)
  {
    FoundAnswers(t, dir, id, p);
    SlotOfFolder(dir, p);
    assert p in Entries(t);
  }

  lemma AnswerIsFound(t: Tree, id: string, p: Path)
    requires p in t && InFolder(p) && AnswersTo(Name(p), id)
    ensures !Finds(t, FolderOf(p), id, None)
  {
    EntryIsListed(t, p);
    assert Answers(t, FolderOf(p), Cur, id, p) || Answers(t, FolderOf(p), New, id, p);
  }

  /** The id asks for an entry, under the key of `p`. */
  predicate IsIdOf(id: string, p: Path)
    requires p != []
  {
    NamesEntry(id) && BaseKey(CleanId(id)) == BaseKey(Name(p))
  }

  /** A plain name is an id for its entry. */
  lemma PlainNameIsId(p: Path)
    requires p != [] && PlainId(Name(p))
    ensures IsIdOf(Name(p), p)
  {
    PlainIdIsName(Name(p));
  }

  lemma UnshadowedIsFound(t: Tree, id: string, now: Path)
    requires now in Entries(t) && Unshadowed(Entries(t), now) && IsIdOf(id, now)
    ensures FindsOnly(t, id, now)
  {
    KeyIsPrefix(Name(now));
    AnswerIsFound(t, CleanId(id), now);
    forall dir, r | IsFolder(dir) && Finds(t, dir, CleanId(id), r)
      ensures r == if dir == FolderOf(now) then Some(now) else None
    {
      if r.Some? {
        FoundIsNow(t, dir, CleanId(id), now, r.value);
      }
    }
  }

  /** Stable identity: as long as no other entry's name starts with the key of a message, every id of it (above all the
      name it was first listed under, if plain) stays one after any orderly run of markings and moves, in whatever
      folder it is by then; the id finds that same message there, and nothing in any other folder. */
  lemma StableIdentity(t: Tree, ops: seq<Op>, t': Tree, p: Path, id: string) returns (now: Path)
    requires Reaches(t, ops, t') && AllOrderly(ops) && NoRemoval(ops)
    requires p in Entries(t) && Unshadowed(Entries(t), p) && IsIdOf(id, p)
    ensures now in Entries(t') && t'[now] == t[p] && FindsOnly(t', id, now)
  {
    now := RunKeepsMessage(t, ops, t', p);
    UnshadowedIsFound(t', id, now);
  }

  /** Two places, and what an id finds there. */
  datatype Clash = Clash(dir: Path, dir': Path, found: Path, found': Path)

  /** The id finds different things in different folders. */
  ghost predicate Clashes(t: Tree, id: string, c: Clash) {
    && IsFolder(c.dir) && IsFolder(c.dir') && c.found != c.found'
    && Finds(t, c.dir, CleanId(id), Some(c.found)) && Finds(t, c.dir', CleanId(id), Some(c.found'))
  }

  lemma SomethingFound(t: Tree, dir: Path, s: Sub, cleanId: string, p: Path) returns (found: Path)
    requires Answers(t, dir, s, cleanId, p)
    ensures Finds(t, dir, cleanId, Some(found))
  {
    if FindsIn(t, dir, Cur, cleanId, None) {
      found := if Joined(dir, New, cleanId) in t then Joined(dir, New, cleanId) else p;
      assert s == New;
      assert FindsIn(t, dir, New, cleanId, Some(found));
    } else if Joined(dir, Cur, cleanId) in t {
      found := Joined(dir, Cur, cleanId);
    } else {
      found :| Answers(t, dir, Cur, cleanId, found);
    }
  }

  /** Two entries in different folders that both answer to the id. */
  lemma TwoFolders(t: Tree, id: string, p: Path, q: Path) returns (c: Clash)
    requires p in Entries(t) && q in Entries(t) && FolderOf(p) != FolderOf(q) && NamesEntry(id)
    requires AnswersTo(Name(p), CleanId(id)) && AnswersTo(Name(q), CleanId(id))
    ensures Clashes(t, id, c)
  {
    EntryIsListed(t, p);
    EntryIsListed(t, q);
    var sp := if Listed(t, FolderOf(p), Cur, p) then Cur else New;
    var sq := if Listed(t, FolderOf(q), Cur, q) then Cur else New;
    var p1 := SomethingFound(t, FolderOf(p), sp, CleanId(id), p);
    var q1 := SomethingFound(t, FolderOf(q), sq, CleanId(id), q);
    FoundAnswers(t, FolderOf(p), CleanId(id), p1);
    FoundAnswers(t, FolderOf(q), CleanId(id), q1);
    SlotOfFolder(FolderOf(p), p1);
    SlotOfFolder(FolderOf(q), q1);
    c := Clash(FolderOf(p), FolderOf(q), p1, q1);
  }

  lemma {:induction false} FirstElements(places: set<Path>) returns (n: nat)
    ensures forall p :: p in places && p != [] ==> |p[0]| <= n
  {
    if places == {} {
      n := 0;
    } else {
      var p := AnyOf(places);
      var m := FirstElements(places - {p});
      n := if p != [] && |p[0]| > m then |p[0]| else m;
    }
  }

  /** The Maildir is there. */
  predicate Rooted(t: Tree) { [] in t && t[[]].isDir }

  /** Nothing is or lies below the folder `d`. */
  ghost predicate Unused(t: Tree, d: string) { IsDotName(d) && forall p :: p in t ==> !([d] <= p) }

  lemma UnusedFolder(t: Tree) returns (d: string)
    ensures Unused(t, d)
  {
    var n := FirstElements(t.Keys);
    d := "." + seq(n, i => 'x');
    forall p | p in t ensures !([d] <= p) {
      assert p != [] ==> |p[0]| < |d|;
    }
  }

  /** Into a folder not used so far every entry can be moved. */
  lemma MoveToUnused(t: Tree, d: string, p: Path)
    requires Rooted(t) && Unused(t, d) && p in t && InFolder(p)
    ensures Goes(WithTarget(t, d), p, MovedTo(d, p), true) && WithTarget(t, d)[p] == t[p]
  {
    var t1, dst, cur := WithTarget(t, d), MovedTo(d, p), [d, "cur"];
    assert FolderPath(d) + ["cur"] == cur && Parent(dst) == cur;
    forall q | q in Prefixes(cur) ensures q in t ==> q == [] {
      assert q != [] ==> [d] <= q;
    }
    assert cur == cur[..2] && cur in Prefixes(cur);
    assert p <= dst ==> [d] <= p;
    forall q | q in t1 ensures !(dst <= q) {
      assert dst <= q && q in t ==> [d] <= q;
    }
  }

  /** The folder's name in an operation. */
  function NameOf(dir: Path): string
    requires IsFolder(dir)
  {
    if dir == [] then "" else dir[0]
  }

  function Away(p: Path, d: string, id: string): Op
    requires InFolder(p)
  {
    Move(NameOf(FolderOf(p)), d, id, true)
  }

  /** Moving what the id finds to a folder not used so far. */
  lemma MoveFoundAway(t: Tree, id: string, p: Path, d: string) returns (found: Path, t': Tree)
    requires Rooted(t) && Unused(t, d) && NamesEntry(id) && p in Entries(t) && AnswersTo(Name(p), CleanId(id))
    ensures Next(t, Away(p, d, id), t') && AnswersTo(BaseOf(found), CleanId(id))
    ensures found in Entries(t) && Entries(t') == (Entries(t) - {found})[MovedTo(d, found) := t[found]]
  {
    var dir, op := FolderOf(p), Away(p, d, id);
    assert SourceOf(op) == dir;
    EntryIsListed(t, p);
    found := SomethingFound(t, dir, if Listed(t, dir, Cur, p) then Cur else New, CleanId(id), p);
    FoundAnswers(t, dir, CleanId(id), found);
    SlotOfFolder(dir, found);
    MoveToUnused(t, d, found);
    MadeDirKeepsEntries(t, [d]);
    SlotIsSlot([d], Cur, Name(found));
    SlotOfFolder([d], MovedTo(d, found));
    RenamedEntries(WithTarget(t, d), found, MovedTo(d, found), true);
    t' := Effect(t, op, Some(found));
  }

  /** Once one of two entries of a folder that answer to an id has been moved away, the id finds one in each folder. */
  lemma MovedApart(t: Tree, id: string, p: Path, q: Path, d: string) returns (t': Tree, c: Clash)
    requires Rooted(t) && Unused(t, d) && NamesEntry(id)
    requires p in Entries(t) && q in Entries(t) && p != q && FolderOf(p) == FolderOf(q)
    requires AnswersTo(Name(p), CleanId(id)) && AnswersTo(Name(q), CleanId(id))
    ensures Next(t, Away(p, d, id), t') && Clashes(t', id, c)
  {
    var found;
    found, t' := MoveFoundAway(t, id, p, d);
    var dst, other := MovedTo(d, found), if found == p then q else p;
    SlotIsSlot([d], Cur, BaseOf(found));
    SlotOfFolder([d], dst);
    assert FolderOf(other) == [d] ==> [d] <= other;
    c := TwoFolders(t', id, other, dst);
  }

  lemma OneStep(t: Tree, op: Op, t': Tree)
    requires Next(t, op, t')
    ensures Reaches(t, [op], t')
  {
    assert [op][1..] == [] && Reaches(t', [op][1..], t');
  }

  /** The condition of StableIdentity is needed: when another entry's name starts with the key of `p`, at most one move
      leads to a state in which the id of `p` finds two different entries. */
  lemma ShadowBreaksIdentity(t: Tree, p: Path, q: Path, id: string) returns (ops: seq<Op>, t': Tree, c: Clash)
    requires Rooted(t) && p in Entries(t) && q in Entries(t) && p != q && IsIdOf(id, p)
    requires BaseKey(Name(p)) <= Name(q)
    ensures |ops| <= 1 && AllOrderly(ops) && NoRemoval(ops) && Reaches(t, ops, t') && Clashes(t', id, c)
  {
    KeyIsPrefix(Name(p));
    if FolderOf(p) != FolderOf(q) {
      c := TwoFolders(t, id, p, q);
      ops, t' := [], t;
    } else {
      var d := UnusedFolder(t);
      t', c := MovedApart(t, id, p, q, d);
      ops := [Away(p, d, id)];
      OneStep(t, ops[0], t');
    }
  }

  /** Some orderly run of markings and moves makes the id ambiguous. */
  ghost predicate ReachesClash(t: Tree, id: string, ops: seq<Op>) {
    AllOrderly(ops) && NoRemoval(ops) && exists t', c :: Reaches(t, ops, t') && Clashes(t', id, c)
  }

  lemma NoClash(t: Tree, p: Path, id: string, ops: seq<Op>)
    requires p in Entries(t) && Unshadowed(Entries(t), p) && IsIdOf(id, p)
    ensures !ReachesClash(t, id, ops)
  {
    if AllOrderly(ops) && NoRemoval(ops) {
      forall t', c | Reaches(t, ops, t') ensures !Clashes(t', id, c) {
        var now := StableIdentity(t, ops, t', p, id);
      }
    }
  }

  lemma SomeClash(t: Tree, p: Path, id: string) returns (ops: seq<Op>)
    requires Rooted(t) && p in Entries(t) && !Unshadowed(Entries(t), p) && IsIdOf(id, p)
    ensures ReachesClash(t, id, ops)
  {
    var q :| q in Entries(t) && q != [] && BaseKey(Name(p)) <= Name(q) && q != p;
    var t', c;
    ops, t', c := ShadowBreaksIdentity(t, p, q, id);
  }

  /** Identity, exactly: an id of `p` stays unambiguous over all orderly runs of markings and moves if and only if no
      other entry's name starts with the key of `p`. */
  lemma IdentityIsExact(t: Tree, p: Path, id: string)
    requires Rooted(t) && p in Entries(t) && IsIdOf(id, p)
    ensures Unshadowed(Entries(t), p) <==> forall ops :: !ReachesClash(t, id, ops)
  {
    if Unshadowed(Entries(t), p) {
      forall ops {
        NoClash(t, p, id, ops);
      }
    } else {
      var ops := SomeClash(t, p, id);
    }
  }

  // ---------- Ids that name a directory ----------

  predicate IsMessage(t: Tree, p: Path) { p in t && InFolder(p) && !t[p].isDir }

  /** At most one message is not where it was. */
  ghost predicate AtMostOneLeaves(t: Tree, t': Tree) {
    forall p, q :: IsMessage(t, p) && IsMessage(t, q) && p !in t' && q !in t' ==> p == q
  }

  /** At most one message is at or below `p`. */
  ghost predicate AtMostOneBelow(t: Tree, p: Path) {
    forall q, r :: IsMessage(t, q) && IsMessage(t, r) && p <= q && p <= r ==> q == r
  }

  /** What a move takes along is exactly what is at or below what it found. */
  lemma MoveTakesAllBelow(t: Tree, op: Op, p: Path, q: Path)
    requires op.Move? && q in t && InFolder(q)
    ensures q !in Effect(t, op, Some(p)) <==> Goes(WithTarget(t, op.dst), p, MovedTo(op.dst, p), op.ok) && p <= q
  {
    var t1, dst := WithTarget(t, op.dst), MovedTo(op.dst, p);
    if Goes(t1, p, dst, op.ok) {
      RenamedAt(t1, p, dst, op.ok, q);
      if dst <= q {
        assert q[0] == dst[0];
        assert q == dst;
        assert p + q[|dst|..] == p;
      }
    }
  }

  lemma SlotTakesOne(dir: Path, p: Path, q: Path)
    requires |dir| <= 1 && IsSlot(dir, p) && InFolder(q) && p <= q
    ensures q == p
  {
    assert p[0] == q[0];
  }

  /** A move takes at most one message from its place if and only if the id names an entry, or the rename is refused, or
      the directory that it finds holds at most one message. */
  lemma MoveTakesAtMostOne(t: Tree, op: Op, p: Path)
    requires op.Move? && Finds(t, SourceOf(op), CleanId(op.id), Some(p))
    ensures NamesEntry(op.id) ==> AtMostOneBelow(t, p)
    ensures AtMostOneLeaves(t, Effect(t, op, Some(p))) <==>
            (!Goes(WithTarget(t, op.dst), p, MovedTo(op.dst, p), op.ok) || AtMostOneBelow(t, p))
  {
    FoundWhere(t, SourceOf(op), CleanId(op.id), p);
    forall q | InFolder(q) && p <= q && NamesEntry(op.id) ensures q == p {
      SlotTakesOne(SourceOf(op), p, q);
    }
    forall q | q in t && InFolder(q)
      ensures q !in Effect(t, op, Some(p)) <==> Goes(WithTarget(t, op.dst), p, MovedTo(op.dst, p), op.ok) && p <= q
    {
      MoveTakesAllBelow(t, op, p, q);
    }
  }

  /** Every message is still in some folder, with its contents and its key. */
  ghost predicate AllKept(t: Tree, t': Tree) {
    forall p :: IsMessage(t, p) ==> exists p' :: SameMessage(Entries(t), Entries(t'), p, p')
  }

  /** No message's key starts another entry's name. */
  ghost predicate DistinctIn(e: map<Path, Entry>) { forall p :: p in e && p != [] && !e[p].isDir ==> Unshadowed(e, p) }

  ghost predicate Distinct(t: Tree) { DistinctIn(Entries(t)) }

  lemma PlaceInCur(dst: Path, q: Path)
    requires |dst| >= 2 && dst[|dst| - 2] == "cur" && InFolder(q) && dst <= q
    ensures q == dst
  {
    assert q[|dst| - 2] == "cur";
  }

  lemma TargetAddsDirectories(t: Tree, d: string, q: Path)
    ensures q in t ==> q in WithTarget(t, d) && WithTarget(t, d)[q] == t[q]
    ensures q in WithTarget(t, d) && !WithTarget(t, d)[q].isDir ==> q in t
  {
  }

  /** Where a message can be after a move: where it was, or at the place that what was found goes to. */
  lemma TwoPlaces(t: Tree, op: Op, p: Path, q: Path, q': Path)
    requires op.Move? && Goes(WithTarget(t, op.dst), p, MovedTo(op.dst, p), op.ok)
    requires IsMessage(t, q) && Unshadowed(Entries(t), q)
    requires SameMessage(Entries(t), Entries(Effect(t, op, Some(p))), q, q')
    ensures q' == MovedTo(op.dst, p) || (q' == q && !(p <= q))
  {
    var t1, dst := WithTarget(t, op.dst), MovedTo(op.dst, p);
    RenamedAt(t1, p, dst, op.ok, q');
    if dst <= q' {
      PlaceInCur(dst, q');
    } else {
      TargetAddsDirectories(t, op.dst, q');
      KeyIsPrefix(Name(q'));
      assert q' in Entries(t);
    }
  }

  /** What lies at the place that what was found goes to. */
  lemma AtTarget(t: Tree, op: Op, p: Path)
    requires op.Move? && p in t && Goes(WithTarget(t, op.dst), p, MovedTo(op.dst, p), op.ok)
    ensures var t', dst := Effect(t, op, Some(p)), MovedTo(op.dst, p); dst in t' && t'[dst] == t[p]
    ensures InFolder(MovedTo(op.dst, p)) <==> IsFolder(FolderPath(op.dst))
  {
    var t1, dst := WithTarget(t, op.dst), MovedTo(op.dst, p);
    assert p + dst[|dst|..] == p;
    RenamedAt(t1, p, dst, op.ok, dst);
    TargetAddsDirectories(t, op.dst, p);
  }

  lemma StaysWhereItWas(t: Tree, op: Op, p: Path, q: Path)
    requires op.Move? && Goes(WithTarget(t, op.dst), p, MovedTo(op.dst, p), op.ok)
    requires q in t && InFolder(q) && !(p <= q) && q != MovedTo(op.dst, p)
    ensures var t' := Effect(t, op, Some(p)); q in t' && t'[q] == t[q]
  {
    var t1, dst := WithTarget(t, op.dst), MovedTo(op.dst, p);
    TargetAddsDirectories(t, op.dst, q);
    RenamedAt(t1, p, dst, op.ok, q);
    if dst <= q {
      PlaceInCur(dst, q);
    }
  }

  /** The move takes at most the message found, and into a folder, and puts it on top of no other. */
  ghost predicate Harmless(t: Tree, op: Op, p: Path)
    requires op.Move? && p in t
  {
    && (forall q :: IsMessage(t, q) && p <= q ==> q == p && IsFolder(FolderPath(op.dst)))
    && (IsMessage(t, MovedTo(op.dst, p)) ==> t[MovedTo(op.dst, p)] == t[p])
  }

  lemma HarmlessKeepsAll(t: Tree, op: Op, p: Path)
    requires op.Move? && p in t && Goes(WithTarget(t, op.dst), p, MovedTo(op.dst, p), op.ok) && Harmless(t, op, p)
    ensures AllKept(t, Effect(t, op, Some(p)))
  {
    var t', dst := Effect(t, op, Some(p)), MovedTo(op.dst, p);
    AtTarget(t, op, p);
    forall q | IsMessage(t, q) ensures exists q' :: SameMessage(Entries(t), Entries(t'), q, q') {
      if p <= q {
        assert SameMessage(Entries(t), Entries(t'), q, dst);
      } else if q == dst {
        assert SameMessage(Entries(t), Entries(t'), q, q);
      } else {
        StaysWhereItWas(t, op, p, q);
        assert SameMessage(Entries(t), Entries(t'), q, q);
      }
    }
  }

  lemma KeptIsHarmless(t: Tree, op: Op, p: Path, q: Path)
    requires op.Move? && Finds(t, SourceOf(op), CleanId(op.id), Some(p)) && (NamesEntry(op.id) || t[p].isDir)
    requires Goes(WithTarget(t, op.dst), p, MovedTo(op.dst, p), op.ok) && AllKept(t, Effect(t, op, Some(p)))
    requires p in t && IsMessage(t, q) && Unshadowed(Entries(t), q)
    ensures p <= q ==> q == p && IsFolder(FolderPath(op.dst))
    ensures q == MovedTo(op.dst, p) ==> t[q] == t[p]
  {
    var q' :| SameMessage(Entries(t), Entries(Effect(t, op, Some(p))), q, q');
    TwoPlaces(t, op, p, q, q');
    AtTarget(t, op, p);
    FoundWhere(t, SourceOf(op), CleanId(op.id), p);
    if p <= q && NamesEntry(op.id) {
      SlotTakesOne(SourceOf(op), p, q);
    }
  }

  /** Exactly which moves keep all messages in folders: those whose rename is refused, and those that take at most the
      message found, and into a folder, and put it on top of no other message. */
  lemma MoveKeepsAllExactly(t: Tree, op: Op, p: Path)
    requires op.Move? && Distinct(t)
    requires Finds(t, SourceOf(op), CleanId(op.id), Some(p)) && p in t && (NamesEntry(op.id) || t[p].isDir)
    ensures AllKept(t, Effect(t, op, Some(p))) <==>
            (!Goes(WithTarget(t, op.dst), p, MovedTo(op.dst, p), op.ok) || Harmless(t, op, p))
  {
    var t1, t', dst := WithTarget(t, op.dst), Effect(t, op, Some(p)), MovedTo(op.dst, p);
    if !Goes(t1, p, dst, op.ok) {
      forall q | IsMessage(t, q) ensures exists q' :: SameMessage(Entries(t), Entries(t'), q, q') {
        TargetAddsDirectories(t, op.dst, q);
        assert SameMessage(Entries(t), Entries(t'), q, q);
      }
    } else if Harmless(t, op, p) {
      HarmlessKeepsAll(t, op, p);
    } else if AllKept(t, t') {
      forall q | IsMessage(t, q)
        ensures (p <= q ==> q == p && IsFolder(FolderPath(op.dst))) && (q == dst ==> t[q] == t[p])
      {
        KeptIsHarmless(t, op, p, q);
      }
    }
  }

  /** From a folder: a move keeps all messages in folders if and only if its id names an entry and its target is a
      folder, or the rename is refused, or no message is at or below what the id finds. */
  lemma MoveFromFolder(t: Tree, op: Op, p: Path)
    requires op.Move? && Distinct(t) && IsFolder(FolderPath(op.src))
    requires Finds(t, SourceOf(op), CleanId(op.id), Some(p)) && p in t && (NamesEntry(op.id) || t[p].isDir)
    ensures AllKept(t, Effect(t, op, Some(p))) <==>
            ((NamesEntry(op.id) && IsFolder(FolderPath(op.dst)))
             || !Goes(WithTarget(t, op.dst), p, MovedTo(op.dst, p), op.ok)
             || forall q :: IsMessage(t, q) ==> !(p <= q))
  {
    var t1, dst := WithTarget(t, op.dst), MovedTo(op.dst, p);
    MoveKeepsAllExactly(t, op, p);
    FoundWhere(t, SourceOf(op), CleanId(op.id), p);
    if Goes(t1, p, dst, op.ok) {
      TargetAddsDirectories(t, op.dst, p);
      TargetAddsDirectories(t, op.dst, dst);
      if IsMessage(t, dst) {
        NotOntoAMessage(t, op, p);
      }
      forall q | NamesEntry(op.id) && IsMessage(t, q) && p <= q ensures q == p {
        SlotTakesOne(SourceOf(op), p, q);
      }
    }
  }

  /** With distinct keys nothing is moved from a folder onto a message. */
  lemma NotOntoAMessage(t: Tree, op: Op, p: Path)
    requires op.Move? && Distinct(t) && p in t && IsFolder(FolderPath(op.src))
    requires IsSlot(SourceOf(op), p) || t[p].isDir
    ensures IsMessage(t, MovedTo(op.dst, p)) ==> !Goes(WithTarget(t, op.dst), p, MovedTo(op.dst, p), op.ok)
  {
    var dst := MovedTo(op.dst, p);
    TargetAddsDirectories(t, op.dst, p);
    TargetAddsDirectories(t, op.dst, dst);
    if IsSlot(SourceOf(op), p) {
      SlotOfFolder(SourceOf(op), p);
      assert p in Entries(t) && Name(dst) == Name(p);
      KeyIsPrefix(Name(dst));
    }
  }

  lemma DotsNameTheFolder()
    ensures CleanId("..") == ".." && !NamesEntry("..")
  {
    var dots := "..";
    UnescapePlain(dots, false);
    UnescapePlain(dots, true);
    NoSlashToDrop(dots);
  }

  /** The id ".." finds the folder itself. Moving it to another folder leaves no entry of it in its place: everything
      lies in a directory inside the other folder's `cur` afterwards, where no folder has it. */
  lemma FolderIsCarriedAway(t: Tree, a: string, b: string)
    requires IsDotName(a) && IsFolder(FolderPath(b)) && [a] in t
    requires Goes(WithTarget(t, b), [a], MovedTo(b, [a]), true)
    ensures var op := Move(a, b, "..", true);
            var t' := Effect(t, op, Some([a]));
            && Next(t, op, t')
            && (forall q :: q in t' ==> !([a] <= q))
            && forall q :: q in t && [a] <= q ==>
                 var q' := MovedTo(b, [a]) + q[1..];
                 q' in t' && t'[q'] == t[q] && (q != [a] ==> !InFolder(q'))
  {
    var op := Move(a, b, "..", true);
    var t1, dst, t' := WithTarget(t, b), MovedTo(b, [a]), Effect(t, op, Some([a]));
    DotsNameTheFolder();
    assert Joined([a], Cur, "..") == [a] && Finds(t, [a], "..", Some([a]));
    forall q | q in t' ensures !([a] <= q) {
      RenamedAt(t1, [a], dst, true, q);
      assert dst <= q && [a] <= q ==> [a] <= dst;
    }
    forall q | q in t && [a] <= q
      ensures var q' := dst + q[1..]; q' in t' && t'[q'] == t[q] && (q != [a] ==> !InFolder(q'))
    {
      var q' := dst + q[1..];
      RenamedAt(t1, [a], dst, true, q');
      assert q'[|dst|..] == q[1..] && [a] + q[1..] == q;
    }
  }

  // ---------- Conservation ----------

  function MessagePaths(e: map<Path, Entry>): set<Path> { set p | p in e && !e[p].isDir }

  /** The multiset of the messages in all folders. */
  ghost function Contents(e: map<Path, Entry>): multiset<Entry> { ValuesAt(e, MessagePaths(e)) }

  function Only(x: Entry): multiset<Entry> { if x.isDir then multiset{} else multiset{x} }

  lemma ContentsWithout(e: map<Path, Entry>, p: Path)
    requires p in e
    ensures Contents(e) == Contents(e - {p}) + Only(e[p])
  {
    var rest := e - {p};
    assert MessagePaths(rest) == MessagePaths(e) - {p};
    ValuesAgree(e, rest, MessagePaths(rest));
    if !e[p].isDir {
      ValuesWithout(e, MessagePaths(e), p);
    } else {
      assert MessagePaths(e) - {p} == MessagePaths(e);
    }
  }

  lemma ContentsWith(e: map<Path, Entry>, p: Path, x: Entry)
    requires p !in e
    ensures Contents(e[p := x]) == Contents(e) + Only(x)
  {
    ContentsWithout(e[p := x], p);
    assert e[p := x] - {p} == e;
  }

  ghost function MessageAt(e: map<Path, Entry>, p: Path): multiset<Entry> {
    if p in e then Only(e[p]) else multiset{}
  }

  lemma PutOver<K, V>(m: map<K, V>, k: K, v: V)
    ensures m[k := v] == (m - {k})[k := v]
  {
  }

  lemma DroppedContents(e: map<Path, Entry>, p: Path)
    ensures Contents(e) == Contents(e - {p}) + MessageAt(e, p)
  {
    if p in e {
      ContentsWithout(e, p);
    } else {
      assert e - {p} == e;
    }
  }

  lemma Exchange(a: multiset<Entry>, b: multiset<Entry>, c: multiset<Entry>, d: multiset<Entry>, x: multiset<Entry>,
                 y: multiset<Entry>)
    requires a == b + x && b == c + y && d == c + x
    ensures a == d + y
  {
  }

  lemma MessageElsewhere(e: map<Path, Entry>, src: Path, dst: Path)
    requires src in e && src != dst
    ensures MessageAt(e - {src}, dst) == MessageAt(e, dst) && MessageAt(e, src) == Only(e[src])
  {
  }

  lemma PutLosesTarget(e: map<Path, Entry>, src: Path, dst: Path, rest: map<Path, Entry>, x: Entry)
    requires src in e && src != dst && rest == e - {src} && x == e[src]
    ensures Contents(e) == Contents(rest[dst := x]) + MessageAt(e, dst)
  {
    DroppedContents(e, src);
    DroppedContents(rest, dst);
    ReplacedContents(rest, dst, x);
    MessageElsewhere(e, src, dst);
    Exchange(Contents(e), Contents(rest), Contents(rest - {dst}), Contents(rest[dst := x]), Only(x), MessageAt(e, dst));
  }

  lemma ReplacedContents(e: map<Path, Entry>, p: Path, x: Entry)
    ensures Contents(e[p := x]) == Contents(e - {p}) + Only(x)
  {
    PutOver(e, p, x);
    ContentsWith(e - {p}, p, x);
  }

  /** A rename loses what it overwrites. */
  lemma RenameLosesTarget(e: map<Path, Entry>, src: Path, dst: Path, e': map<Path, Entry>)
    requires RenamesEntry(e, src, dst, e')
    ensures Contents(e) == Contents(e') + MessageAt(e, dst)
  {
    PutLosesTarget(e, src, dst, e - {src}, e[src]);
  }

  /** Renaming an entry to a place in a folder preserves the messages if and only if it overwrites none. */
  lemma RenameConservesExactly(e: map<Path, Entry>, src: Path, dst: Path, e': map<Path, Entry>)
    requires RenamesEntry(e, src, dst, e')
    ensures Contents(e') == Contents(e) <==> dst !in e
  {
    RenameLosesTarget(e, src, dst, e');
    assert |Contents(e)| == |Contents(e')| + |MessageAt(e, dst)|;
  }

  lemma KeepsDistinct(e: map<Path, Entry>, src: Path, dst: Path, e': map<Path, Entry>)
    requires RenamesEntry(e, src, dst, e') && DistinctIn(e) && forall p :: p in e ==> InFolder(p)
    ensures DistinctIn(e')
  {
    forall p' | p' in e' && p' != [] && !e'[p'].isDir ensures Unshadowed(e', p') {
      var p := if p' == dst then src else p';
      var p'' := RenameKeepsMessage(e, src, dst, e', p);
    }
  }

  /** With distinct keys a rename overwrites no message. */
  lemma NothingOverwritten(e: map<Path, Entry>, src: Path, dst: Path, e': map<Path, Entry>)
    requires RenamesEntry(e, src, dst, e') && DistinctIn(e)
    ensures MessageAt(e, dst) == multiset{}
  {
    KeyIsPrefix(Name(dst));
    NamedLikeKeys(Name(src), Name(dst), Name(dst));
  }

  lemma RemovedEntries(t: Tree, p: Path, ok: bool)
    ensures Entries(Removed(t, p, ok)) == Entries(t) || (p in Entries(t) && Entries(Removed(t, p, ok)) == Entries(t) - {p})
  {
  }

  lemma RemovalConserves(e: map<Path, Entry>, p: Path)
    requires p in e && DistinctIn(e)
    ensures DistinctIn(e - {p}) && Contents(e) == Contents(e - {p}) + MessageAt(e, p)
  {
    ContentsWithout(e, p);
    forall q | q in e - {p} && q != [] && !(e - {p})[q].isDir ensures Unshadowed(e - {p}, q) {
      assert Unshadowed(e, q);
    }
  }

  /** An orderly step neither loses nor duplicates a message, but for a removal, which takes exactly the one found. */
  lemma StepConserves(t: Tree, op: Op, t': Tree) returns (p: Path)
    requires Next(t, op, t') && Orderly(op) && Distinct(t)
    ensures Distinct(t') && Contents(Entries(t')) <= Contents(Entries(t))
    ensures Contents(Entries(t')) == Contents(Entries(t)) ||
              (op.Remove? && IsMessage(t, p) && Finds(t, SourceOf(op), CleanId(op.id), Some(p))
               && Contents(Entries(t)) == Contents(Entries(t')) + multiset{t[p]})
  {
    p := [];
    var e, e' := Entries(t), Entries(t');
    if e' == e {
    } else if op.Remove? {
      var found :| Finds(t, SourceOf(op), CleanId(op.id), found) && t' == Effect(t, op, found);
      p := found.value;
      RemovedEntries(t, p, op.ok);
      RemovalConserves(e, p);
    } else {
      var src, dst := StepOnEntries(t, op, t');
      NothingOverwritten(e, src, dst, e');
      KeepsDistinct(e, src, dst, e');
      RenameLosesTarget(e, src, dst, e');
    }
  }

  /** Over an orderly run nothing appears that was not there, and without removals nothing is lost. */
  lemma {:induction false} RunConserves(t: Tree, ops: seq<Op>, t': Tree)
    requires Reaches(t, ops, t') && AllOrderly(ops) && Distinct(t)
    ensures Distinct(t') && Contents(Entries(t')) <= Contents(Entries(t))
    ensures NoRemoval(ops) ==> Contents(Entries(t')) == Contents(Entries(t))
    decreases |ops|
  {
    if ops != [] {
      var mid :| Next(t, ops[0], mid) && Reaches(mid, ops[1..], t');
      var p := StepConserves(t, ops[0], mid);
      RunConserves(mid, ops[1..], t');
    }
  }
}
