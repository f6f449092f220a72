/** What marking does to the read flag, and what directories folder names stand for. */
module MaildirFolders {
  import opened Wrappers
  import opened Text
  import opened MaildirNames
  import opened Maildir
  import opened MaildirTheorems

  // ---------- Read and unread ----------

  /** Marking as read always works; marking as unread works exactly when the name before the flags contains
      no 'S', which is looked for in the whole name. */
  lemma MarkingSetsRead(file: string, read: bool)
    ensures IsRead(Cur, Flagged(file, read)) <==> read || 'S' in CleanName(file)
  {
    var clean := CleanName(file);
    var name := Flagged(file, read);
    assert At(name, ":2,", |clean|);
    ContainsMeans(name, ":2,");
    ContainsChar(name, 'S');
    assert name == clean + if read then ":2,S" else ":2,";
  }

  // ---------- Folders ----------

  predicate AllAscii(s: string) { forall i :: 0 <= i < |s| ==> s[i] as int < 128 }

  /** A name recognised as the trash folder has no white space around it, and is not the inbox. */
  lemma TrashIsTrimmed(folder: string)
    requires IsTrash(folder)
    ensures folder != "" && TrimSpace(folder) == folder && !EqualFold(folder, "inbox")
  {
    var t := if EqualFold(folder, "trash") then "trash" else ".trash";
    var folded := MapChars(FoldChar, folder);
    assert folded == MapChars(FoldChar, t) && |folded| == |t|;
    assert folded[0] == FoldChar(t[0]) && folded[|t| - 1] == FoldChar(t[|t| - 1]);
    assert !IsSpace(folder[0]) && !IsSpace(folder[|folder| - 1]);
    TrimmedAlready(folder);
    assert folded[0] != 'i' && MapChars(FoldChar, "inbox")[0] == 'i';
  }

  lemma FoldsToLower(s: string, t: string)
    requires EqualFold(s, t) && forall i :: 0 <= i < |t| ==> IsLower(t[i]) || t[i] == '.'
    requires forall i :: 0 <= i < |s| ==> s[i] as int < 128
    ensures |s| == |t| && ToLower(s) == t
    ensures forall i :: 0 <= i < |s| ==> LowerChar(s[i]) == FoldChar(s[i]) == t[i]
  {
    var folded := MapChars(FoldChar, s);
    assert |folded| == |t| && folded == MapChars(FoldChar, t);
    forall i | 0 <= i < |s| ensures LowerChar(s[i]) == FoldChar(s[i]) == t[i] {
      assert folded[i] == MapChars(FoldChar, t)[i];
    }
  }

  lemma AsciiTrash(subdirs: seq<string>, folder: string)
    requires IsTrash(folder) && AllAscii(folder)
    ensures FolderDir(subdirs, folder) == Some(".Trash")
  {
    TrashIsTrimmed(folder);
    FoldsToLower(folder, if EqualFold(folder, "trash") then "trash" else ".trash");
  }

  /** The only character outside ASCII in such a name is the long s, which lower-casing leaves alone. */
  lemma LongS(folder: string) returns (k: nat)
    requires IsTrash(folder) && !AllAscii(folder)
    ensures k < |folder| && folder[k] as int == 0x17F && ToLower(folder)[k] == folder[k]
    ensures '/' !in folder && '\\' !in folder && forall i :: 0 < i < |folder| ==> folder[i] != '.'
  {
    var t := if EqualFold(folder, "trash") then "trash" else ".trash";
    var folded := MapChars(FoldChar, folder);
    assert folded == MapChars(FoldChar, t) && |folded| == |t|;
    forall i | 0 <= i < |folder| ensures FoldChar(folder[i]) == FoldChar(t[i]) == t[i] {
      assert folded[i] == MapChars(FoldChar, t)[i];
    }
    k :| 0 <= k < |folder| && folder[k] as int >= 128;
  }

  lemma NotStandard(lower: string, k: nat)
    requires k < |lower| && lower[k] as int == 0x17F
    ensures StandardDir(lower) == None
  {
  }

  lemma CleanPlain(name: string)
    requires IsElement(name)
    ensures Clean(name) == name
  {
    SplitPlain(name, '/');
    assert [name][..0] == [] && CleanElems([]) == [];
    assert CleanElems([name]) == [name];
  }

  function DottedName(folder: string): string { if HasPrefix(folder, ".") then folder else "." + folder }

  /** Where a permanent deletion acts: on the trash folder if and only if the name is in ASCII, or the first directory
      whose name agrees with it up to case is the trash folder. */
  lemma PermanentDeletionIsInTrash(subdirs: seq<string>, folder: string)
    requires IsTrash(folder)
    ensures FolderDir(subdirs, folder) == Some(".Trash") <==>
            (AllAscii(folder) || FirstFold(subdirs, DottedName(folder)) == Some(".Trash"))
  {
    if AllAscii(folder) {
      AsciiTrash(subdirs, folder);
    } else {
      var k := LongS(folder);
      TrashIsTrimmed(folder);
      NotStandard(ToLower(folder), k);
      LongSDir(subdirs, folder, k);
    }
  }

  lemma LongSDir(subdirs: seq<string>, folder: string, k: nat)
    requires k < |folder| && folder[k] as int == 0x17F && '/' !in folder
    ensures CustomDir(subdirs, folder) == Some(".Trash") <==> FirstFold(subdirs, DottedName(folder)) == Some(".Trash")
  {
    var name := DottedName(folder);
    var j := if HasPrefix(folder, ".") then k else k + 1;
    assert name[j] == folder[k];
    CleanPlain(name);
    assert forall i :: 0 <= i < |".Trash"| ==> ".Trash"[i] as int < 128;
  }

  lemma NotInbox(folder: string)
    requires folder != "" && ToLower(folder)[0] != 'i'
    ensures !EqualFold(folder, "inbox")
  {
    assert MapChars(FoldChar, "inbox")[0] == 'i';
    assert MapChars(FoldChar, folder)[0] == FoldChar(folder[0]);
  }

  /** The inbox and each standard folder are found under their ids, in whatever case, with or without white space around
      them. */
  lemma StandardFolders(subdirs: seq<string>, folder: string)
    ensures var f, id, dir := TrimSpace(folder), ToLower(TrimSpace(folder)), FolderDir(subdirs, folder);
            && (f == "" || EqualFold(f, "inbox") ==> dir == Some(""))
            && (id == "sent" || id == ".sent" ==> dir == Some(".Sent"))
            && (id == "drafts" || id == ".drafts" || id == "draft" || id == ".draft" ==> dir == Some(".Drafts"))
            && (id == "trash" || id == ".trash" ==> dir == Some(".Trash"))
            && (id == "junk" || id == ".junk" || id == "spam" || id == ".spam" ==> dir == Some(".Junk"))
            && (id == "archive" || id == ".archive" ==> dir == Some(".Archive"))
  {
    if TrimSpace(folder) != "" && ToLower(TrimSpace(folder))[0] != 'i' {
      NotInbox(TrimSpace(folder));
    }
  }

  lemma OwnDirectory(folder: string)
    requires '/' !in folder && '\\' !in folder && |folder| > 1 && forall i :: 0 < i < |folder| ==> folder[i] != '.'
    ensures CustomDir([], folder) == Some(DottedName(folder))
  {
    var name := DottedName(folder);
    assert HasPrefix(folder, ".") <==> folder[0] == '.';
    assert forall i :: 0 < i < |name| ==> name[i] != '.';
    OneDot(name);
    assert name[1] != '.';
    CleanPlain(name);
  }

  /** It does act elsewhere: a name with a long s in it is recognised as the trash folder, but names a directory of
      its own when none exists yet. */
  lemma LongSIsElsewhere(folder: string)
    requires IsTrash(folder) && !AllAscii(folder)
    ensures FolderDir([], folder) == Some(DottedName(folder)) && DottedName(folder) != ".Trash"
  {
    var k := LongS(folder);
    TrashIsTrimmed(folder);
    NotStandard(ToLower(folder), k);
    LongSDir([], folder, k);
    var t := if EqualFold(folder, "trash") then "trash" else ".trash";
    assert |MapChars(FoldChar, folder)| == |MapChars(FoldChar, t)|;
    OwnDirectory(folder);
  }

  /** There is such a name. */
  lemma LongSIsTrash()
    ensures var folder := "tra" + [0x17F as char] + "h"; IsTrash(folder) && !AllAscii(folder)
  {
    var folder := "tra" + [0x17F as char] + "h";
    assert MapChars(FoldChar, folder) == MapChars(FoldChar, "trash");
    assert folder[3] as int == 0x17F;
  }

  /** A folder name that resolves to the trash directory is recognised as the trash by DeleteMessage if and only if
      there is no white space around it and no slash in it. */
  lemma TrashIsRecognised(subdirs: seq<string>, folder: string)
    requires FolderDir(subdirs, folder) == Some(".Trash")
    ensures IsTrash(folder) <==> TrimSpace(folder) == folder && '/' !in folder
  {
    if IsTrash(folder) {
      TrashIsTrimmed(folder);
      TrashHasNoSlash(folder);
    } else if TrimSpace(folder) == folder && '/' !in folder {
      if StandardDir(ToLower(folder)).Some? {
        StandardTrash(folder);
      } else {
        CustomTrash(subdirs, folder);
      }
    }
  }

  lemma TrashHasNoSlash(folder: string)
    requires IsTrash(folder)
    ensures '/' !in folder
  {
    var t := if EqualFold(folder, "trash") then "trash" else ".trash";
    FoldsHaveSlash(folder, t);
  }

  lemma FoldsHaveSlash(s: string, t: string)
    requires EqualFold(s, t)
    ensures '/' in s <==> '/' in t
  {
    var folded := MapChars(FoldChar, s);
    assert folded == MapChars(FoldChar, t) && |s| == |folded| == |t|;
    assert forall i :: 0 <= i < |s| ==> FoldChar(s[i]) == folded[i] == FoldChar(t[i]);
    assert forall c :: FoldChar(c) == '/' <==> c == '/';
  }

  lemma StandardTrash(folder: string)
    requires StandardDir(ToLower(folder)) == Some(".Trash")
    ensures IsTrash(folder)
  {
    LowerFolds(folder, ToLower(folder));
  }

  lemma CustomTrash(subdirs: seq<string>, folder: string)
    requires CustomDir(subdirs, folder) == Some(".Trash") && folder != "" && '/' !in folder
    ensures IsTrash(folder)
  {
    var name := DottedName(folder);
    FirstFoldFolds(subdirs, name);
    if FirstFold(subdirs, name) == None {
      if IsElement(name) {
        CleanPlain(name);
      } else {
        DotsClean(name);
      }
    }
    assert EqualFold(".Trash", name);
    DotFolds(folder, name);
  }

  lemma DotFolds(folder: string, name: string)
    requires name == DottedName(folder) && EqualFold(".Trash", name)
    ensures IsTrash(folder)
  {
    assert MapChars(FoldChar, ".Trash") == MapChars(FoldChar, ".trash");
    if !HasPrefix(folder, ".") {
      MapCharsAppend(FoldChar, ".", folder);
      MapCharsAppend(FoldChar, ".", "trash");
      assert "." + "trash" == ".trash";
      assert MapChars(FoldChar, ".") + MapChars(FoldChar, folder) == MapChars(FoldChar, ".") + MapChars(FoldChar, "trash");
      SameTail(MapChars(FoldChar, "."), MapChars(FoldChar, folder), MapChars(FoldChar, "trash"));
    }
  }

  lemma SameTail(s: string, t: string, u: string)
    requires s + t == s + u
    ensures t == u
  {
    assert (s + t)[|s|..] == t && (s + u)[|s|..] == u;
  }

  lemma LowerFolds(s: string, t: string)
    requires ToLower(s) == t && forall i :: 0 <= i < |t| ==> (IsLower(t[i]) && t[i] != 'i' && t[i] != 'k') || t[i] == '.'
    ensures EqualFold(s, t)
  {
    forall i | 0 <= i < |s| ensures FoldChar(s[i]) == FoldChar(t[i]) {
      assert t[i] == LowerChar(s[i]);
    }
    assert MapChars(FoldChar, s) == MapChars(FoldChar, t);
  }

  lemma {:induction false} CleanedElements(es: seq<string>)
    requires forall i :: 0 <= i < |es| ==> '/' !in es[i]
    ensures forall i :: 0 <= i < |CleanElems(es)| ==> CleanElems(es)[i] != "" && CleanElems(es)[i] != "." && '/' !in CleanElems(es)[i]
  {
    if es != [] {
      CleanedElements(es[..|es| - 1]);
    }
  }

  /** Whatever folder is asked for, the directory used is the Maildir itself or one directly inside it. */
  lemma FolderStaysInside(subdirs: seq<string>, folder: string)
    requires forall d :: d in subdirs ==> IsElement(d)
    ensures match FolderDir(subdirs, folder)
            case None => true
            case Some(d) => d == "" || IsElement(d)
  {
    var f := TrimSpace(folder);
    StandardIsElement(ToLower(f));
    if f != "" {
      CustomStaysInside(subdirs, f);
    }
  }

  lemma StandardIsElement(lower: string)
    ensures StandardDir(lower).Some? ==> IsElement(StandardDir(lower).value)
  {
  }

  lemma CustomStaysInside(subdirs: seq<string>, f: string)
    requires f != "" && forall d :: d in subdirs ==> IsElement(d)
    ensures match CustomDir(subdirs, f)
            case None => true
            case Some(d) => d == "" || IsElement(d)
  {
    var name := if HasPrefix(f, ".") then f else "." + f;
    FirstFoldIsListed(subdirs, name);
    CleanedName(name);
  }

  lemma CleanedName(name: string)
    requires name != ""
    ensures var clean := Clean(name);
            !Contains(clean, "..") && '/' !in clean && clean != "." ==> IsElement(clean)
  {
    var kept := CleanElems(Split(name, '/'));
    CleanedElements(Split(name, '/'));
    var clean := Clean(name);
    ContainsMeans(clean, "..");
    assert |kept| > 1 ==> clean[|kept[0]|] == '/';
    assert clean == ".." ==> At(clean, "..", 0);
  }

  lemma {:induction false} FirstFoldIsListed(names: seq<string>, name: string)
    ensures FirstFold(names, name).Some? ==> FirstFold(names, name).value in names
  {
    if names != [] {
      FirstFoldIsListed(names[1..], name);
    }
  }

  lemma {:induction false} FirstFoldFolds(names: seq<string>, name: string)
    ensures FirstFold(names, name).Some? ==> EqualFold(FirstFold(names, name).value, name)
  {
    if names != [] && !EqualFold(names[0], name) {
      FirstFoldFolds(names[1..], name);
    }
  }

  lemma FoldedDot(d: string, name: string)
    requires EqualFold(d, name) && IsDotName(name)
    ensures IsDotName(d)
  {
    var folded := MapChars(FoldChar, d);
    assert folded == MapChars(FoldChar, name) && |folded| == |name|;
    assert FoldChar(d[0]) == folded[0] == FoldChar(name[0]);
  }

  lemma StandardIsProper(lower: string)
    ensures StandardDir(lower).Some? ==> IsDotName(StandardDir(lower).value)
  {
  }

  lemma CustomIsProper(subdirs: seq<string>, f: string)
    requires f != "" && '/' !in f
    ensures CustomDir(subdirs, f).Some? ==> IsFolder(FolderPath(CustomDir(subdirs, f).value))
  {
    var name := DottedName(f);
    FirstFoldFolds(subdirs, name);
    if FirstFold(subdirs, name).Some? {
      FoldedDot(FirstFold(subdirs, name).value, name);
    } else if IsElement(name) {
      CleanPlain(name);
    } else {
      DotsClean(name);
    }
  }

  lemma DotsClean(name: string)
    requires name == "." || name == ".."
    ensures Clean(name) == name
  {
    SplitPlain(name, '/');
    assert [name][..0] == [] && CleanElems([]) == [];
    assert CleanElems([name]) == if name == "." then [] else [name];
    assert name == ".." ==> At(name, "..", 0);
  }

  /** Unless there is a slash in its name, a folder is the inbox or a directory whose name starts with a dot. */
  lemma FolderIsProper(subdirs: seq<string>, folder: string)
    requires '/' !in TrimSpace(folder)
    ensures FolderDir(subdirs, folder).Some? ==> IsFolder(FolderPath(FolderDir(subdirs, folder).value))
  {
    var f := TrimSpace(folder);
    StandardIsProper(ToLower(f));
    if f != "" {
      CustomIsProper(subdirs, f);
    }
  }

  /** The directory that a cleaned name stands for. */
  function FromClean(clean: string): Option<string> {
    if Contains(clean, "..") || '/' in clean || '\\' in clean then None else Some(if clean == "." then "" else clean)
  }

  lemma LowerKeepsSlash(s: string)
    ensures '/' in ToLower(s) <==> '/' in s
  {
    var lower := ToLower(s);
    assert forall i :: 0 <= i < |s| ==> lower[i] == LowerChar(s[i]);
    assert forall c :: LowerChar(c) == '/' <==> c == '/';
  }

  lemma StandardHasNoSlash(lower: string)
    requires StandardDir(lower).Some?
    ensures '/' !in lower
  {
  }

  /** With a slash in its name, a folder is neither standard nor listed: its cleaned name decides. */
  lemma SlashIsCleaned(subdirs: seq<string>, folder: string)
    requires '/' in TrimSpace(folder) && forall d :: d in subdirs ==> '/' !in d
    ensures FolderDir(subdirs, folder) == FromClean(Clean(DottedName(TrimSpace(folder))))
  {
    var f := TrimSpace(folder);
    var name := DottedName(f);
    LowerKeepsSlash(f);
    if EqualFold(f, "inbox") {
      FoldsHaveSlash(f, "inbox");
    }
    if StandardDir(ToLower(f)).Some? {
      StandardHasNoSlash(ToLower(f));
    }
    FirstFoldFolds(subdirs, name);
    FirstFoldIsListed(subdirs, name);
    assert '/' in name;
    if FirstFold(subdirs, name).Some? {
      FoldsHaveSlash(FirstFold(subdirs, name).value, name);
    }
  }

  lemma CleanIsNotEmpty(path: string)
    ensures Clean(path) != ""
  {
    var kept := CleanElems(Split(path, '/'));
    CleanedElements(Split(path, '/'));
    assert kept != [] ==> kept[0] != "";
  }

  /** Exactly which names resolve to a directory that is no folder: those with a slash in them that clean to a plain
      name without a dot in front. */
  lemma FolderIsProperExactly(subdirs: seq<string>, folder: string)
    requires forall d :: d in subdirs ==> '/' !in d
    ensures var r, clean := FolderDir(subdirs, folder), Clean(DottedName(TrimSpace(folder)));
            r.Some? && !IsFolder(FolderPath(r.value)) <==>
            '/' in TrimSpace(folder) && FromClean(clean).Some? && !IsDotName(clean)
  {
    if '/' in TrimSpace(folder) {
      SlashIsCleaned(subdirs, folder);
      CleanIsNotEmpty(DottedName(TrimSpace(folder)));
    } else {
      FolderIsProper(subdirs, folder);
    }
  }

  lemma CleanBehindDot(d: string)
    requires IsElement(d)
    ensures Clean("./" + d) == d
  {
    SplitPlain(".", '/');
    SplitPlain(d, '/');
    SplitConcat(".", d, '/');
    assert "." + ['/'] + d == "./" + d;
    CleanPair(d);
  }

  lemma CleanPair(d: string)
    requires IsElement(d)
    ensures CleanElems(["."] + [d]) == [d]
  {
    var es := ["."] + [d];
    assert es[..1] == ["."] && ["."][..0] == [] && CleanElems([]) == [];
    assert CleanElems(["."]) == [];
  }

  lemma SlashIsTrimmed(d: string)
    requires d != "" && !IsSpace(d[|d| - 1])
    ensures TrimSpace("/" + d) == "/" + d && '/' in "/" + d
  {
    var folder := "/" + d;
    assert folder[0] == '/' && folder[|folder| - 1] == d[|d| - 1];
    TrimmedAlready(folder);
  }

  /** Every plain name, with or without a dot in front, can be had that way: behind a slash it stands for itself. */
  lemma SlashFolder(subdirs: seq<string>, d: string)
    requires IsElement(d) && !Contains(d, "..") && '\\' !in d && !IsSpace(d[|d| - 1])
    requires forall x :: x in subdirs ==> '/' !in x
    ensures FolderDir(subdirs, "/" + d) == Some(d)
  {
    SlashIsTrimmed(d);
    SlashIsCleaned(subdirs, "/" + d);
    assert ("/" + d)[0] == '/';
    assert "." + ("/" + d) == "./" + d;
    CleanBehindDot(d);
  }

  /** So it resolves to the trash directory and is not recognised there: deleting under it moves messages from the trash
      to the trash, and never removes one. */
  lemma SlashTrash(subdirs: seq<string>)
    requires forall x :: x in subdirs ==> '/' !in x
    ensures FolderDir(subdirs, "/.Trash") == Some(".Trash") && !IsTrash("/.Trash")
  {
    OneDot(".Trash");
    SlashFolder(subdirs, ".Trash");
    assert "/" + ".Trash" == "/.Trash";
    TrimmedAlready("/.Trash");
    TrashIsRecognised(subdirs, "/.Trash");
    assert "/.Trash"[0] == '/';
  }

  lemma OneDot(d: string)
    requires forall i :: 0 < i < |d| ==> d[i] != '.'
    ensures !Contains(d, "..")
  {
    ContainsMeans(d, "..");
    forall i ensures !At(d, "..", i) {
      assert 0 <= i && i + 1 < |d| ==> d[i + 1] != '.';
      AtChars(d, "..", i);
    }
  }

  /** A message moved from a folder to a directory that is no folder is in no folder any more. */
  lemma SlashFolderTakesMessage(t: Tree, op: Op, p: Path)
    requires op.Move? && Distinct(t) && IsFolder(FolderPath(op.src)) && !IsFolder(FolderPath(op.dst))
    requires NamesEntry(op.id) && Finds(t, SourceOf(op), CleanId(op.id), Some(p)) && IsMessage(t, p)
    requires Goes(WithTarget(t, op.dst), p, MovedTo(op.dst, p), op.ok)
    ensures !AllKept(t, Effect(t, op, Some(p)))
    ensures var t', dst := Effect(t, op, Some(p)), MovedTo(op.dst, p); dst in t' && t'[dst] == t[p] && !InFolder(dst)
  {
    MoveFromFolder(t, op, p);
    AtTarget(t, op, p);
  }
}
