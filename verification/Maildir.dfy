/**
 The files of one mailbox. Finding, marking, moving and deleting messages are steps of a state machine over the
 file system below its Maildir; a directory may be read in any order.
 */
module Maildir {
  import opened Wrappers
  import opened Text
  import opened MaildirNames

  /** A path below the Maildir, element by element; [] is the Maildir itself. */
  type Path = seq<string>

  datatype Entry = Entry(isDir: bool, content: string, modTime: int, readable: bool)

  /** Everything there is, directories included. */
  type Tree = map<Path, Entry>

  datatype Sub = Cur | New

  function SubName(s: Sub): string { if s == Cur then "cur" else "new" }

  function FolderPath(d: string): Path { if d == "" then [] else [d] }

  function Slot(dir: Path, s: Sub, name: string): Path { dir + [SubName(s), name] }

  function Name(p: Path): string
    requires p != []
  {
    p[|p| - 1]
  }

  function Parent(p: Path): Path
    requires p != []
  {
    p[..|p| - 1]
  }

  // ---------- Looking a message up ----------

  /** filepath.Join of a directory, a subdirectory and one element, which may be "..", "." or "/". */
  function Joined(dir: Path, s: Sub, cleanId: string): Path {
    if cleanId == ".." then dir
    else if cleanId == "." || cleanId == "/" then dir + [SubName(s)]
    else Slot(dir, s, cleanId)
  }

  /** An entry of the subdirectory. */
  predicate Listed(t: Tree, dir: Path, s: Sub, p: Path) { p in t && p != [] && Parent(p) == dir + [SubName(s)] }

  predicate Answers(t: Tree, dir: Path, s: Sub, cleanId: string, p: Path) {
    Listed(t, dir, s, p) && AnswersTo(Name(p), cleanId)
  }

  /** What looking in one subdirectory may come to: the path itself if it exists, else any answering entry. */
  ghost predicate FindsIn(t: Tree, dir: Path, s: Sub, cleanId: string, r: Option<Path>) {
    if Joined(dir, s, cleanId) in t then r == Some(Joined(dir, s, cleanId)) else
      match r
      case Some(p) => Answers(t, dir, s, cleanId, p)
      case None => forall p :: !Answers(t, dir, s, cleanId, p)
  }

  /** What findMessageFile may return, whatever order the directories are read in. */
  ghost predicate Finds(t: Tree, dir: Path, cleanId: string, r: Option<Path>) {
    if FindsIn(t, dir, Cur, cleanId, None) then FindsIn(t, dir, New, cleanId, r)
    else r.Some? && FindsIn(t, dir, Cur, cleanId, r)
  }

  /** There is nothing to be found. */
  ghost predicate Missing(t: Tree, dir: Path, id: string) { Finds(t, dir, CleanId(id), None) }

  lemma FoundOrMissing(t: Tree, dir: Path, id: string, r: Option<Path>)
    requires Finds(t, dir, CleanId(id), r)
    ensures r.None? <==> Missing(t, dir, id)
  {
  }

  // ---------- What the system calls do ----------

  /** os.Rename goes through: not into itself, into a directory that exists, and onto nothing but a file for a file;
      Go refuses every directory as the target, an empty one, too. `ok` is false when the system refuses for another
      reason. */
  predicate Goes(t: Tree, src: Path, dst: Path, ok: bool) {
    && ok && src in t && dst != [] && !(src <= dst)
    && Parent(dst) in t && t[Parent(dst)].isDir
    && (dst in t ==> !t[dst].isDir && !t[src].isDir)
    && forall q :: q in t ==> !(dst < q)
  }

  /** Where what is at `q` after the rename was before. */
  function Origin(src: Path, dst: Path, q: Path): Path { if dst <= q then src + q[|dst|..] else q }

  /** The places that can be occupied after a rename: the old ones, and for `src` and all below it the new ones. */
  function Places(t: Tree, src: Path, dst: Path): set<Path> {
    t.Keys + set p | p in t && src <= p :: dst + p[|src|..]
  }

  /** A rename takes along everything below. */
  function Renamed(t: Tree, src: Path, dst: Path, ok: bool): Tree {
    if !Goes(t, src, dst, ok) then t else
      map q | q in Places(t, src, dst) && (dst <= q || !(src <= q)) && Origin(src, dst, q) in t :: t[Origin(src, dst, q)]
  }

  /** What os.Rename answers: renaming a file to itself is fine, too. */
  predicate Succeeds(t: Tree, src: Path, dst: Path, ok: bool) {
    Goes(t, src, dst, ok) || (ok && src in t && src == dst && !t[src].isDir)
  }

  lemma RenamedAt(t: Tree, src: Path, dst: Path, ok: bool, q: Path)
    requires Goes(t, src, dst, ok)
    ensures var t', p := Renamed(t, src, dst, ok), Origin(src, dst, q);
            && (q in t' <==> p in t && (dst <= q || !(src <= q)))
            && (q in t' ==> t'[q] == t[p])
  {
    var p := Origin(src, dst, q);
    if dst <= q && p in t {
      assert p[|src|..] == q[|dst|..];
      assert q == dst + p[|src|..];
    }
  }

  function Prefixes(p: Path): set<Path> { set k | 0 <= k <= |p| :: p[..k] }

  const DIRECTORY := Entry(true, "", 0, true)

  /** os.MkdirAll: the directory and what is missing of the way to it, unless a file stands in the way. */
  function MadeDir(t: Tree, p: Path): Tree {
    if exists q :: q in Prefixes(p) && q in t && !t[q].isDir then t
    else map q | q in t.Keys + Prefixes(p) :: if q in t then t[q] else DIRECTORY
  }

  /** os.Remove: a file, or an empty directory. */
  function Removed(t: Tree, p: Path, ok: bool): Tree {
    if !ok || exists q :: q in t && p < q then t else t - {p}
  }

  // ---------- The operations as steps ----------

  /** `ok`: whether the system call at the end may go through. */
  datatype Op =
    | Mark(dir: string, id: string, read: bool, ok: bool)
    | Move(src: string, dst: string, id: string, ok: bool)
    | Remove(dir: string, id: string, ok: bool)

  function SourceOf(op: Op): Path { FolderPath(if op.Move? then op.src else op.dir) }

  /** filepath.Base of a path that was found. */
  function BaseOf(p: Path): string { if p == [] then "Maildir" else Name(p) }

  function Marked(dir: Path, p: Path, read: bool): Path { Slot(dir, Cur, Flagged(BaseOf(p), read)) }

  function MovedTo(dst: string, p: Path): Path { Slot(FolderPath(dst), Cur, BaseOf(p)) }

  /** A move first makes the target's `cur`. */
  function WithTarget(t: Tree, dst: string): Tree { MadeDir(t, FolderPath(dst) + ["cur"]) }

  function Effect(t: Tree, op: Op, found: Option<Path>): Tree {
    match found
    case None => t
    case Some(p) =>
      match op
      case Mark(dir, _, read, ok) => Renamed(t, p, Marked(FolderPath(dir), p, read), ok)
      case Move(_, dst, _, ok) => Renamed(WithTarget(t, dst), p, MovedTo(dst, p), ok)
      case Remove(_, _, ok) => Removed(t, p, ok)
  }

  ghost predicate Next(t: Tree, op: Op, t': Tree) {
    exists found :: Finds(t, SourceOf(op), CleanId(op.id), found) && t' == Effect(t, op, found)
  }

  datatype MailError = InvalidFolder | NotFound | SystemError

  /** What the step answers: the error of a rename that was to change flags is discarded. */
  function Answer(t: Tree, op: Op, found: Option<Path>): Result<(), MailError> {
    match found
    case None => Err(NotFound)
    case Some(p) =>
      match op
      case Mark(_, _, _, _) => Ok(())
      case Move(_, dst, _, ok) => if Succeeds(WithTarget(t, dst), p, MovedTo(dst, p), ok) then Ok(()) else Err(SystemError)
      case Remove(_, _, ok) => if ok && forall q :: q in t ==> !(p < q) then Ok(()) else Err(SystemError)
  }

  /** A step with its answer. */
  ghost predicate Done(t: Tree, op: Op, t': Tree, r: Result<(), MailError>) {
    exists found :: Finds(t, SourceOf(op), CleanId(op.id), found) && t' == Effect(t, op, found) && r == Answer(t, op, found)
  }

  /** It is a step, and answers that nothing was found exactly when there is nothing to be found. */
  lemma DoneIsNext(t: Tree, op: Op, t': Tree, r: Result<(), MailError>)
    requires Done(t, op, t', r)
    ensures Next(t, op, t') && (r == Err(NotFound) <==> Missing(t, SourceOf(op), op.id))
  {
    var found :| Finds(t, SourceOf(op), CleanId(op.id), found) && t' == Effect(t, op, found) && r == Answer(t, op, found);
    FoundOrMissing(t, SourceOf(op), op.id, found);
  }

  // ---------- What listings show ----------

  /** Directories and dot files are passed over. */
  predicate Visible(t: Tree, dir: Path, s: Sub, p: Path) {
    Listed(t, dir, s, p) && !t[p].isDir && !HasPrefix(Name(p), ".")
  }

  predicate IsRead(s: Sub, name: string) { s == Cur && Contains(name, ":2,") && Contains(name, "S") }

  // ---------- Folder names ----------

  /** One element of a path being cleaned, against the elements kept so far. */
  function CleanElem(kept: seq<string>, e: string): seq<string> {
    if e == "" || e == "." then kept
    else if e == ".." && kept != [] && kept[|kept| - 1] != ".." then kept[..|kept| - 1]
    else kept + [e]
  }

  function CleanElems(es: seq<string>): seq<string> {
    if es == [] then [] else CleanElem(CleanElems(es[..|es| - 1]), es[|es| - 1])
  }

  /** filepath.Clean of a relative path. */
  function Clean(path: string): string {
    var kept := CleanElems(Split(path, '/'));
    if kept == [] then "." else Join(kept, '/')
  }

  function FirstFold(names: seq<string>, name: string): Option<string> {
    if names == [] then None
    else if EqualFold(names[0], name) then Some(names[0])
    else FirstFold(names[1..], name)
  }

  /** The directory of a folder that is not a standard one. */
  function CustomDir(subdirs: seq<string>, f: string): Option<string> {
    var name := if HasPrefix(f, ".") then f else "." + f;
    match FirstFold(subdirs, name)
    case Some(existing) => Some(existing)
    case None =>
      var clean := Clean(name);
      if Contains(clean, "..") || '/' in clean || '\\' in clean then None
      else Some(if clean == "." then "" else clean)
  }

  /** The directories of the standard folders, by lower-case name. */
  function StandardDir(lower: string): Option<string> {
    if lower == "sent" || lower == ".sent" then Some(".Sent")
    else if lower == "drafts" || lower == "draft" || lower == ".drafts" || lower == ".draft" then Some(".Drafts")
    else if lower == "trash" || lower == ".trash" then Some(".Trash")
    else if lower == "junk" || lower == "spam" || lower == ".junk" || lower == ".spam" then Some(".Junk")
    else if lower == "archive" || lower == ".archive" then Some(".Archive")
    else None
  }

  /** getFolderDir, relative to the Maildir; `subdirs` are the directories in it, as listed. */
  function FolderDir(subdirs: seq<string>, folder: string): Option<string> {
    var f := TrimSpace(folder);
    var standard := StandardDir(ToLower(f));
    if f == "" || EqualFold(f, "inbox") then Some("")
    else if standard.Some? then standard
    else CustomDir(subdirs, f)
  }

  /** DeleteMessage's own test for the trash folder. */
  predicate IsTrash(folder: string) { EqualFold(folder, "trash") || EqualFold(folder, ".trash") }

  // ---------- The service ----------

  class Mailbox {
    var tree: Tree

    method FindMessageFile(dir: Path, messageId: string) returns (r: Option<Path>)
      ensures Finds(tree, dir, CleanId(messageId), r)
    {
      var cleanId := CleanId(messageId);
      var baseKey := BaseKey(cleanId);
      KeyIsPrefix(cleanId);
      r := FindIn(dir, Cur, cleanId, baseKey);
      if r.None? {
        r := FindIn(dir, New, cleanId, baseKey);
      }
    }

    /** One turn of the lookup loop. */
    method FindIn(dir: Path, sub: Sub, cleanId: string, baseKey: string) returns (r: Option<Path>)
      requires baseKey == BaseKey(cleanId) && baseKey <= cleanId
      ensures FindsIn(tree, dir, sub, cleanId, r)
    {
      if Joined(dir, sub, cleanId) in tree {
        return Some(Joined(dir, sub, cleanId));
      }
      var entries := set p | p in tree && Listed(tree, dir, sub, p);
      while entries != {}
        invariant forall p :: p in entries ==> Listed(tree, dir, sub, p)
        invariant forall p :: Answers(tree, dir, sub, cleanId, p) ==> p in entries
        decreases |entries|
      {
        var p :| p in entries;
        if Name(p) == cleanId || Name(p) == baseKey || HasPrefix(Name(p), baseKey) {
          return Some(p);
        }
        entries := entries - {p};
      }
      r := None;
    }

    method MarkMessageRead(subdirs: seq<string>, folder: string, messageId: string, read: bool, ok: bool)
      returns (r: Result<(), MailError>)
      modifies this
      ensures match FolderDir(subdirs, folder)
              case None => r == Err(InvalidFolder) && tree == old(tree)
              case Some(dir) => Done(old(tree), Mark(dir, messageId, read, ok), tree, r)
    {
      var dir := FolderDir(subdirs, folder);
      if dir.None? {
        return Err(InvalidFolder);
      }
      var op := Mark(dir.value, messageId, read, ok);
      var found := FindMessageFile(FolderPath(dir.value), messageId);
      if found.None? {
        assert tree == Effect(old(tree), op, found);
        return Err(NotFound);
      }
      var base := BaseOf(found.value);
      var cleanName := base;
      var idx := Index(base, ":2,");
      if idx.Some? {
        cleanName := base[..idx.value];
      }
      var target := Slot(FolderPath(dir.value), Cur, if read then cleanName + ":2,S" else cleanName + ":2,");
      if found.value != target {
        tree := Renamed(tree, found.value, target, ok);
      }
      assert tree == Effect(old(tree), op, found);
      r := Ok(());
    }

    method MoveMessage(subdirs: seq<string>, srcFolder: string, dstFolder: string, messageId: string, ok: bool)
      returns (r: Result<(), MailError>)
      modifies this
      ensures match (FolderDir(subdirs, srcFolder), FolderDir(subdirs, dstFolder))
              case (Some(src), Some(dst)) => Done(old(tree), Move(src, dst, messageId, ok), tree, r)
              case _ => r == Err(InvalidFolder) && tree == old(tree)
    {
      var src := FolderDir(subdirs, srcFolder);
      if src.None? {
        return Err(InvalidFolder);
      }
      var dst := FolderDir(subdirs, dstFolder);
      if dst.None? {
        return Err(InvalidFolder);
      }
      r := MoveBetween(src.value, dst.value, messageId, ok);
    }

    /** The rest of MoveMessage, once both folders are resolved. */
    method MoveBetween(src: string, dst: string, messageId: string, ok: bool) returns (r: Result<(), MailError>)
      modifies this
      ensures Done(old(tree), Move(src, dst, messageId, ok), tree, r)
    {
      var op := Move(src, dst, messageId, ok);
      var found := FindMessageFile(FolderPath(src), messageId);
      if found.None? {
        assert tree == Effect(old(tree), op, found);
        return Err(NotFound);
      }
      tree := MadeDir(tree, FolderPath(dst) + ["cur"]);
      var target := Slot(FolderPath(dst), Cur, BaseOf(found.value));
      r := if Succeeds(tree, found.value, target, ok) then Ok(()) else Err(SystemError);
      tree := Renamed(tree, found.value, target, ok);
      assert tree == Effect(old(tree), op, found);
    }

    method DeleteMessage(subdirs: seq<string>, folder: string, messageId: string, ok: bool)
      returns (r: Result<(), MailError>)
      modifies this
      ensures match FolderDir(subdirs, folder)
              case None => r == Err(InvalidFolder) && tree == old(tree)
              case Some(dir) =>
                Done(old(tree), if IsTrash(folder) then Remove(dir, messageId, ok) else Move(dir, ".Trash", messageId, ok),
                     tree, r)
    {
      if EqualFold(folder, "trash") || EqualFold(folder, ".trash") {
        var dir := FolderDir(subdirs, folder);
        if dir.None? {
          return Err(InvalidFolder);
        }
        r := RemoveFrom(dir.value, messageId, ok);
      } else {
        TrashResolves(subdirs);
        r := MoveMessage(subdirs, folder, "trash", messageId, ok);
      }
    }

    /** The rest of a permanent deletion, once the folder is resolved. */
    method RemoveFrom(dir: string, messageId: string, ok: bool) returns (r: Result<(), MailError>)
      modifies this
      ensures Done(old(tree), Remove(dir, messageId, ok), tree, r)
    {
      var op := Remove(dir, messageId, ok);
      var found := FindMessageFile(FolderPath(dir), messageId);
      if found.None? {
        assert tree == Effect(old(tree), op, found);
        return Err(NotFound);
      }
      if !ok || exists q :: q in tree && found.value < q {
        assert tree == Effect(old(tree), op, found);
        return Err(SystemError);
      }
      tree := tree - {found.value};
      assert tree == Effect(old(tree), op, found);
      r := Ok(());
    }
  }

  lemma TrashResolves(subdirs: seq<string>)
    ensures FolderDir(subdirs, "trash") == Some(".Trash")
  {
    var t := "trash";
    assert TrimSpace(t) == t;
    assert ToLower(t) == t;
    assert MapChars(FoldChar, t)[0] != MapChars(FoldChar, "inbox")[0];
  }
}
