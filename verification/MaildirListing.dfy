/** Counting and listing the messages of a folder, and cutting the list into pages. */
module MaildirListing {
  import opened Wrappers
  import opened Folds
  import opened Text
  import opened Maildir

  // ---------- Counting ----------

  /** The messages of a folder that are shown. */
  ghost function VisibleIn(t: Tree, dir: Path): set<Path> {
    set p | p in t && (Visible(t, dir, Cur, p) || Visible(t, dir, New, p))
  }

  /** The subdirectory that an entry of a folder is in. */
  function SubOf(p: Path): Sub { if |p| >= 2 && p[|p| - 2] == SubName(Cur) then Cur else New }

  predicate ReadAt(p: Path) { p != [] && IsRead(SubOf(p), Name(p)) }

  ghost function UnreadAmong(ls: set<Path>): set<Path> { set p | p in ls && !ReadAt(p) }

  ghost function InSub(ls: set<Path>, sub: Sub): set<Path> { set p | p in ls && SubOf(p) == sub }

  lemma ListedSub(t: Tree, dir: Path, sub: Sub, p: Path)
    requires Listed(t, dir, sub, p)
    ensures SubOf(p) == sub
  {
    assert Parent(p)[|dir|] == SubName(sub) && p[|p| - 2] == Parent(p)[|dir|];
  }

  lemma OneLess<T>(s: set<T>, rest: set<T>, x: T)
    requires x in rest
    ensures |s - (rest - {x})| == |s - rest| + if x in s then 1 else 0
  {
    if x in s {
      assert s - (rest - {x}) == (s - rest) + {x};
    } else {
      assert s - (rest - {x}) == s - rest;
    }
  }

  /** One subdirectory, read in any order. The ghost sets are the entries to be counted. */
  method CountEntries(t: Tree, sub: Sub, entries: set<Path>, ghost visible: set<Path>, ghost unreads: set<Path>)
    returns (total: nat, unread: nat)
    requires visible <= entries <= t.Keys && unreads <= entries && [] !in entries
    requires forall p :: p in entries ==> (p in visible <==> !t[p].isDir && !HasPrefix(Name(p), "."))
    requires forall p :: p in entries ==>
               (p in unreads <==> p in visible && (sub == New || !Contains(Name(p), ":2,") || !Contains(Name(p), "S")))
    ensures total == |visible| && unread == |unreads|
  {
    total, unread := 0, 0;
    var rest := entries;
    assert visible - rest == {} && unreads - rest == {};
    while rest != {}
      invariant rest <= entries
      invariant total == |visible - rest| && unread == |unreads - rest|
      decreases |rest|
    {
      var p :| p in rest;
      OneLess(visible, rest, p);
      OneLess(unreads, rest, p);
      rest := rest - {p};
      if t[p].isDir || HasPrefix(Name(p), ".") {
        continue;
      }
      total := total + 1;
      if sub == New || !Contains(Name(p), ":2,") || !Contains(Name(p), "S") {
        unread := unread + 1;
      }
    }
    assert visible - rest == visible && unreads - rest == unreads;
  }

  lemma CountedSub(t: Tree, dir: Path, sub: Sub, p: Path)
    requires Listed(t, dir, sub, p)
    ensures p in InSub(VisibleIn(t, dir), sub) <==> !t[p].isDir && !HasPrefix(Name(p), ".")
    ensures p in InSub(UnreadAmong(VisibleIn(t, dir)), sub) <==>
            p in InSub(VisibleIn(t, dir), sub) && (sub == New || !Contains(Name(p), ":2,") || !Contains(Name(p), "S"))
  {
    ListedSub(t, dir, sub, p);
  }

  lemma VisibleIsListed(t: Tree, dir: Path, sub: Sub, p: Path)
    requires p in VisibleIn(t, dir) && SubOf(p) == sub
    ensures Listed(t, dir, sub, p)
  {
    if Visible(t, dir, Cur, p) {
      ListedSub(t, dir, Cur, p);
    } else {
      ListedSub(t, dir, New, p);
    }
  }

  method CountSub(t: Tree, dir: Path, sub: Sub) returns (total: nat, unread: nat)
    ensures total == |InSub(VisibleIn(t, dir), sub)|
    ensures unread == |InSub(UnreadAmong(VisibleIn(t, dir)), sub)|
  {
    var entries := set p | p in t && Listed(t, dir, sub, p);
    ghost var visible, unreads := InSub(VisibleIn(t, dir), sub), InSub(UnreadAmong(VisibleIn(t, dir)), sub);
    forall p | p in entries {
      CountedSub(t, dir, sub, p);
    }
    forall p | p in visible ensures p in entries {
      VisibleIsListed(t, dir, sub, p);
    }
    total, unread := CountEntries(t, sub, entries, visible, unreads);
  }

  lemma BothSubs(ls: set<Path>)
    ensures |ls| == |InSub(ls, New)| + |InSub(ls, Cur)|
  {
    assert ls == InSub(ls, New) + InSub(ls, Cur);
  }

  /** countMaildir. */
  method CountMaildir(t: Tree, dir: Path) returns (total: nat, unread: nat)
    ensures total == |VisibleIn(t, dir)| && unread == |UnreadAmong(VisibleIn(t, dir))|
  {
    var n, u := CountSub(t, dir, New);
    total, unread := CountSub(t, dir, Cur);
    total, unread := n + total, u + unread;
    BothSubs(VisibleIn(t, dir));
    BothSubs(UnreadAmong(VisibleIn(t, dir)));
  }

  // ---------- Listing ----------

  /** What the list shows of a message; `id` is its file name. */
  datatype Summary = Summary(id: string, sub: Sub, isRead: bool, modTime: int)

  function SummaryOf(t: Tree, p: Path): Summary
    requires p in t && p != []
  {
    Summary(Name(p), SubOf(p), ReadAt(p), t[p].modTime)
  }

  predicate NewestFirst(list: seq<Summary>) {
    forall i, j :: 0 <= i < j < |list| ==> list[i].modTime >= list[j].modTime
  }

  function InsertByTime(list: seq<Summary>, x: Summary): seq<Summary> {
    if list == [] || x.modTime > list[0].modTime then [x] + list else [list[0]] + InsertByTime(list[1..], x)
  }

  lemma {:induction false} InsertAdds(list: seq<Summary>, x: Summary)
    ensures multiset(InsertByTime(list, x)) == multiset(list) + multiset{x}
  {
    if list != [] && x.modTime <= list[0].modTime {
      InsertAdds(list[1..], x);
      assert list == [list[0]] + list[1..];
    }
  }

  lemma {:induction false} InsertKeepsOrder(list: seq<Summary>, x: Summary)
    requires NewestFirst(list)
    ensures NewestFirst(InsertByTime(list, x))
  {
    if list != [] && x.modTime <= list[0].modTime {
      InsertKeepsOrder(list[1..], x);
      InsertAdds(list[1..], x);
      var rest := InsertByTime(list[1..], x);
      forall j | 0 <= j < |rest| ensures rest[j].modTime <= list[0].modTime {
        assert rest[j] in multiset(list[1..]) + multiset{x};
      }
    }
  }

  /** The messages a listing with this filter shows. */
  ghost function Shown(t: Tree, dir: Path, keep: Entry -> bool): set<Path> {
    set p | p in VisibleIn(t, dir) && t[p].readable && keep(t[p])
  }

  ghost predicate OfFolder(t: Tree, dir: Path, ls: set<Path>) {
    forall p :: p in ls ==> Listed(t, dir, Cur, p) || Listed(t, dir, New, p)
  }

  ghost function Summaries(t: Tree, dir: Path, ls: set<Path>): set<Summary>
    requires OfFolder(t, dir, ls)
  {
    set p | p in ls :: SummaryOf(t, p)
  }

  lemma SummaryDetermines(t: Tree, dir: Path, p: Path, q: Path)
    requires OfFolder(t, dir, {p, q}) && Name(p) == Name(q) && SubOf(p) == SubOf(q)
    ensures p == q
  {
    ListedSub(t, dir, if Listed(t, dir, Cur, p) then Cur else New, p);
    ListedSub(t, dir, if Listed(t, dir, Cur, q) then Cur else New, q);
    assert p == Parent(p) + [Name(p)] && q == Parent(q) + [Name(q)];
  }

  /** Within one folder a summary determines its message. */
  lemma SummariesWithout(t: Tree, dir: Path, ls: set<Path>, p: Path)
    requires OfFolder(t, dir, ls) && p in ls
    ensures Summaries(t, dir, ls) == Summaries(t, dir, ls - {p}) + {SummaryOf(t, p)}
    ensures SummaryOf(t, p) !in Summaries(t, dir, ls - {p})
  {
    forall q | q in ls - {p} ensures SummaryOf(t, q) != SummaryOf(t, p) {
      if Name(p) == Name(q) && SubOf(p) == SubOf(q) {
        SummaryDetermines(t, dir, p, q);
      }
    }
  }

  /** The list has each of the messages `ls` exactly once, and nothing else. */
  ghost predicate Lists(t: Tree, dir: Path, ls: set<Path>, list: seq<Summary>) {
    OfFolder(t, dir, ls) && multiset(list) == multiset(Summaries(t, dir, ls))
  }

  lemma ListsOneMore(t: Tree, dir: Path, ls: set<Path>, p: Path, list: seq<Summary>, list': seq<Summary>)
    requires Lists(t, dir, ls, list) && OfFolder(t, dir, {p}) && p !in ls
    requires multiset(list') == multiset(list) + multiset{SummaryOf(t, p)}
    ensures Lists(t, dir, ls + {p}, list')
  {
    SummariesWithout(t, dir, ls + {p}, p);
    assert ls + {p} - {p} == ls;
  }

  method ListEntries(t: Tree, dir: Path, keep: Entry -> bool, entries: set<Path>, ghost shown: set<Path>)
    returns (list: seq<Summary>)
    requires shown <= entries && OfFolder(t, dir, entries)
    requires forall p :: p in entries ==>
               (p in shown <==> !t[p].isDir && !HasPrefix(Name(p), ".") && t[p].readable && keep(t[p]))
    ensures NewestFirst(list) && Lists(t, dir, shown, list)
  {
    list := [];
    var rest := entries;
    assert shown - rest == {};
    while rest != {}
      invariant rest <= entries
      invariant NewestFirst(list) && Lists(t, dir, shown - rest, list)
      decreases |rest|
    {
      var p :| p in rest;
      ghost var done := shown - rest;
      rest := rest - {p};
      if t[p].isDir || HasPrefix(Name(p), ".") || !t[p].readable || !keep(t[p]) {
        assert shown - rest == done;
        continue;
      }
      assert shown - rest == done + {p};
      var x := Summary(Name(p), SubOf(p), IsRead(SubOf(p), Name(p)), t[p].modTime);
      InsertKeepsOrder(list, x);
      InsertAdds(list, x);
      ListsOneMore(t, dir, done, p, list, InsertByTime(list, x));
      list := InsertByTime(list, x);
    }
    assert shown - rest == shown;
  }

  /** The whole list before it is cut into pages: every readable message that passes the search, exactly once,
      newest first. A file that cannot be read is left out. */
  method ListAll(t: Tree, dir: Path, keep: Entry -> bool) returns (list: seq<Summary>)
    ensures IsListing(t, dir, keep, list)
  {
    var entries := set p | p in t && (Listed(t, dir, Cur, p) || Listed(t, dir, New, p));
    list := ListEntries(t, dir, keep, entries, Shown(t, dir, keep));
  }

  /** A list that the folder may be shown as: messages of equal time may stand in any order. */
  ghost predicate IsListing(t: Tree, dir: Path, keep: Entry -> bool, list: seq<Summary>) {
    NewestFirst(list) && Lists(t, dir, Shown(t, dir, keep), list)
  }

  /** `x` is what some file of the folder's `cur` or `new` is shown as: one that is not hidden, can be read and passes the
      filter; it counts as read in `cur`, with flags and an 'S' in its name. */
  predicate ShowsFile(t: Tree, dir: Path, keep: Entry -> bool, x: Summary) {
    var p := dir + [if x.sub == Cur then "cur" else "new", x.id];
    && p in t && !t[p].isDir && !HasPrefix(x.id, ".") && t[p].readable && keep(t[p])
    && x.modTime == t[p].modTime && x.isRead == (x.sub == Cur && Contains(x.id, ":2,") && Contains(x.id, "S"))
  }

  lemma ShownFile(t: Tree, dir: Path, keep: Entry -> bool, p: Path)
    requires p in Shown(t, dir, keep)
    ensures ShowsFile(t, dir, keep, SummaryOf(t, p))
  {
    VisibleIsListed(t, dir, SubOf(p), p);
    assert p == Parent(p) + [Name(p)];
    assert p == dir + [SubName(SubOf(p)), Name(p)];
  }

  lemma FileIsShown(t: Tree, dir: Path, keep: Entry -> bool, x: Summary)
    requires ShowsFile(t, dir, keep, x)
    ensures var p := Slot(dir, x.sub, x.id); p in Shown(t, dir, keep) && SummaryOf(t, p) == x
  {
    var p := Slot(dir, x.sub, x.id);
    assert Listed(t, dir, x.sub, p);
    ListedSub(t, dir, x.sub, p);
  }

  /** The list shows exactly these files. */
  lemma ListShows(t: Tree, dir: Path, keep: Entry -> bool, list: seq<Summary>, x: Summary)
    requires IsListing(t, dir, keep, list)
    ensures x in list <==> ShowsFile(t, dir, keep, x)
  {
    assert x in list <==> x in multiset(list);
    if x in list {
      var p :| p in Shown(t, dir, keep) && SummaryOf(t, p) == x;
      ShownFile(t, dir, keep, p);
    }
    if ShowsFile(t, dir, keep, x) {
      FileIsShown(t, dir, keep, x);
    }
  }

  lemma {:induction false} AsManySummaries(t: Tree, dir: Path, ls: set<Path>)
    requires OfFolder(t, dir, ls)
    ensures |Summaries(t, dir, ls)| == |ls|
  {
    if ls != {} {
      var p := AnyOf(ls);
      SummariesWithout(t, dir, ls, p);
      AsManySummaries(t, dir, ls - {p});
    }
  }

  predicate IsUnread(x: Summary) { !x.isRead }

  lemma DropLast<T>(s: seq<T>)
    requires s != []
    ensures multiset(s[..|s| - 1]) == multiset(s) - multiset{s[|s| - 1]}
    ensures s == s[..|s| - 1] + [s[|s| - 1]]
  {
    assert s == s[..|s| - 1] + [s[|s| - 1]];
  }

  lemma ListsOneLess(t: Tree, dir: Path, ls: set<Path>, list: seq<Summary>) returns (p: Path)
    requires Lists(t, dir, ls, list) && list != []
    ensures p in ls && SummaryOf(t, p) == list[|list| - 1]
    ensures Lists(t, dir, ls - {p}, list[..|list| - 1])
  {
    var x := list[|list| - 1];
    DropLast(list);
    assert x in multiset(list);
    p :| p in ls && SummaryOf(t, p) == x;
    SummariesWithout(t, dir, ls, p);
    WithoutOne(Summaries(t, dir, ls), Summaries(t, dir, ls - {p}), x);
  }

  lemma WithoutOne<T>(s: set<T>, rest: set<T>, x: T)
    requires s == rest + {x} && x !in rest
    ensures multiset(rest) == multiset(s) - multiset{x}
  {
  }

  /** A list of `ls` has |ls| entries, of which as many are unread as there are unread messages. */
  lemma {:induction false} ListCounts(t: Tree, dir: Path, ls: set<Path>, list: seq<Summary>)
    requires Lists(t, dir, ls, list)
    ensures |list| == |ls| && Count(IsUnread, list) == |UnreadAmong(ls)|
  {
    AsManySummaries(t, dir, ls);
    assert |list| == |multiset(list)| == |ls|;
    if list != [] {
      var n := |list| - 1;
      var p := ListsOneLess(t, dir, ls, list);
      ListCounts(t, dir, ls - {p}, list[..n]);
      assert UnreadAmong(ls) == UnreadAmong(ls - {p}) + if ReadAt(p) then {} else {p};
    }
  }

  /** The folder index and the unfiltered list agree: when every visible file can be read, the list has as many
      messages, and as many unread ones, as the index says. */
  lemma IndexAgreesWithList(t: Tree, dir: Path, keep: Entry -> bool, list: seq<Summary>)
    requires forall entry :: keep(entry)
    requires forall p :: p in VisibleIn(t, dir) ==> t[p].readable
    requires IsListing(t, dir, keep, list)
    ensures |list| == |VisibleIn(t, dir)| && Count(IsUnread, list) == |UnreadAmong(VisibleIn(t, dir))|
  {
    assert Shown(t, dir, keep) == VisibleIn(t, dir);
    ListCounts(t, dir, VisibleIn(t, dir), list);
  }

  // ---------- Pages ----------

  function PageSize(limit: int): (n: nat)
    ensures 1 <= n <= 100
  {
    if limit < 1 || limit > 100 then 25 else limit
  }

  function PageNumber(page: int): (n: nat)
    ensures n >= 1
  {
    if page < 1 then 1 else page
  }

  function Slice(list: seq<Summary>, start: nat, size: nat): seq<Summary> {
    if start > |list| then [] else if start + size > |list| then list[start..] else list[start..start + size]
  }

  /** How many messages stand before the page. */
  function StartOf(page: int, limit: int): nat { (PageNumber(page) - 1) * PageSize(limit) }

  /** What page `page` of the list should show. */
  function Page(list: seq<Summary>, page: int, limit: int): seq<Summary> {
    Slice(list, StartOf(page, limit), PageSize(limit))
  }

  const MAX_INT: int := 0x7FFF_FFFF_FFFF_FFFF

  /** The value an int keeps of a result, 64 bits wide. */
  function Wrap(n: int): int {
    var low := n % 0x1_0000_0000_0000_0000;
    if low > MAX_INT then low - 0x1_0000_0000_0000_0000 else low
  }

  /** What is shown when the start of the page comes out as `start`; None when slicing panics. */
  function Cut(list: seq<Summary>, start: int, size: nat): Option<seq<Summary>> {
    if start > |list| then Some([]) else
      var end := if Wrap(start + size) > |list| then |list| else Wrap(start + size);
      if 0 <= start <= end then Some(list[start..end]) else None
  }

  method CutFrom(filtered: seq<Summary>, start: int, limit: nat) returns (shown: Option<seq<Summary>>)
    ensures shown == Cut(filtered, start, limit)
  {
    var total := |filtered|;
    if start > total {
      return Some([]);
    }
    var end := Wrap(start + limit);
    if end > total {
      end := total;
    }
    shown := if 0 <= start <= end then Some(filtered[start..end]) else None;
  }

  method CutPage(filtered: seq<Summary>, page: int, limit: int) returns (shown: Option<seq<Summary>>)
    ensures shown == Cut(filtered, Wrap(StartOf(page, limit)), PageSize(limit))
  {
    var page' := if page < 1 then 1 else page;
    var limit' := if limit < 1 || limit > 100 then 25 else limit;
    shown := CutFrom(filtered, Wrap((page' - 1) * limit'), limit');
  }

  method ListMessages(t: Tree, dir: Path, page: int, limit: int, keep: Entry -> bool)
    returns (shown: Option<seq<Summary>>, total: nat)
    ensures exists list ::
              && IsListing(t, dir, keep, list) && total == |list|
              && shown == Cut(list, Wrap(StartOf(page, limit)), PageSize(limit))
  {
    var filtered := ListAll(t, dir, keep);
    assert IsListing(t, dir, keep, filtered);
    total := |filtered|;
    shown := CutPage(filtered, page, limit);
  }

  lemma WrapWithin(n: int)
    ensures -MAX_INT - 1 <= Wrap(n) <= MAX_INT && (-MAX_INT - 1 <= n <= MAX_INT ==> Wrap(n) == n)
    ensures Wrap(n) == n || n - Wrap(n) >= 0x1_0000_0000_0000_0000 || Wrap(n) - n >= 0x1_0000_0000_0000_0000
  {
  }

  /** Slicing panics exactly when the start of the page, or the end of the slice, has wrapped around to a negative
      number. */
  lemma CutPanics(list: seq<Summary>, start: int, size: nat)
    requires |list| <= MAX_INT && start <= MAX_INT && 1 <= size <= 100
    ensures Cut(list, start, size) == None <==> start < 0 || (start <= |list| && start + size > MAX_INT)
  {
    WrapWithin(start + size);
    if start >= 0 && start + size > MAX_INT {
      assert Wrap(start + size) == start + size - 0x1_0000_0000_0000_0000;
    }
  }

  lemma CutInRange(list: seq<Summary>, start: int, size: nat)
    requires |list| + 100 <= MAX_INT && 0 <= start <= MAX_INT && 1 <= size <= 100
    ensures Cut(list, start, size) == Some(Slice(list, start, size))
  {
    if start <= |list| {
      WrapWithin(start + size);
      assert Wrap(start + size) == start + size;
      assert list[start..|list|] == list[start..];
    }
  }

  lemma CutIsSlice(list: seq<Summary>, start: nat, size: nat)
    requires |list| + 100 <= MAX_INT && 1 <= size <= 100
    ensures Cut(list, Wrap(start), size) == Some(Slice(list, start, size)) <==> start <= MAX_INT || Wrap(start) >= |list|
  {
    WrapWithin(start);
    if Wrap(start) < 0 {
      CutPanics(list, Wrap(start), size);
    } else {
      CutInRange(list, Wrap(start), size);
      SliceIsEmpty(list, Wrap(start), size);
      SliceIsEmpty(list, start, size);
    }
  }

  lemma SliceIsEmpty(list: seq<Summary>, start: nat, size: nat)
    requires size >= 1
    ensures Slice(list, start, size) == [] <==> start >= |list|
  {
  }

  /** The page shown is the one asked for if and only if its start has not wrapped around, or what it wrapped around to
      is not before the end of the list; slicing panics if and only if the start has wrapped around to a negative number.
      (A summary takes more than a byte, so no list comes within a page of the largest int.) */
  lemma CutIsPage(list: seq<Summary>, page: int, limit: int)
    requires |list| + 100 <= MAX_INT
    ensures Cut(list, Wrap(StartOf(page, limit)), PageSize(limit)) == Some(Page(list, page, limit)) <==>
            StartOf(page, limit) <= MAX_INT || Wrap(StartOf(page, limit)) >= |list|
    ensures Cut(list, Wrap(StartOf(page, limit)), PageSize(limit)) == None <==>
            StartOf(page, limit) % 0x1_0000_0000_0000_0000 > MAX_INT
  {
    WrapWithin(StartOf(page, limit));
    CutPanics(list, Wrap(StartOf(page, limit)), PageSize(limit));
    CutIsSlice(list, StartOf(page, limit), PageSize(limit));
  }

  /** Page 2^62 + 1 of 100 messages each is the first page once more. */
  lemma FirstPageAgain(list: seq<Summary>)
    requires |list| + 100 <= MAX_INT
    ensures Cut(list, Wrap(StartOf(0x4000_0000_0000_0001, 100)), 100) == Some(Page(list, 1, 100))
  {
    assert StartOf(0x4000_0000_0000_0001, 100) == 25 * 0x1_0000_0000_0000_0000;
    CutInRange(list, 0, 100);
  }

  /** Pages 1 to `n`, one after the other. */
  function FirstPages(list: seq<Summary>, limit: int, n: nat): seq<Summary> {
    if n == 0 then [] else FirstPages(list, limit, n - 1) + Page(list, n, limit)
  }

  function FirstOf(list: seq<Summary>, k: nat): seq<Summary> { if k <= |list| then list[..k] else list }

  lemma SliceContinues(list: seq<Summary>, start: nat, size: nat)
    ensures FirstOf(list, start) + Slice(list, start, size) == FirstOf(list, start + size)
  {
  }

  /** The first `n` pages are the first `n * limit` messages, without gap or repetition. */
  lemma {:induction false} PagesConcatenate(list: seq<Summary>, limit: int, n: nat)
    ensures FirstPages(list, limit, n) == FirstOf(list, n * PageSize(limit))
  {
    var size := PageSize(limit);
    if n > 0 {
      PagesConcatenate(list, limit, n - 1);
      Times(n, size);
      SliceContinues(list, (n - 1) * size, size);
    }
  }

  /** A limit from 1 to 100 is kept, and any other is taken for 25; a page number below 1 asks for the first page. Every
      page but the last has as many messages as the limit says. */
  lemma PagesAreFull(list: seq<Summary>, page: int, limit: int)
    ensures page < 1 ==> Page(list, page, limit) == Page(list, 1, limit)
    ensures var size := if 1 <= limit <= 100 then limit else 25;
            page >= 1 && page * size <= |list| ==> |Page(list, page, limit)| == size
  {
    if page >= 1 {
      Times(page, PageSize(limit));
    }
  }

  /** Enough pages are the whole list. */
  lemma PagesCoverTheList(list: seq<Summary>, limit: int, n: nat)
    requires n * PageSize(limit) >= |list|
    ensures FirstPages(list, limit, n) == list
  {
    PagesConcatenate(list, limit, n);
  }

  lemma Times(n: nat, size: nat)
    requires n > 0
    ensures n * size == (n - 1) * size + size && (n - 1) * size >= 0
  {
  }

  // ---------- Separate calls ----------

  /** No two messages shown have the same time. */
  ghost predicate DistinctTimes(t: Tree, ls: set<Path>)
    requires ls <= t.Keys
  {
    forall p, q :: p in ls && q in ls && t[p].modTime == t[q].modTime ==> p == q
  }

  lemma SameLast(a: seq<Summary>, b: seq<Summary>)
    requires multiset(a) == multiset(b) && NewestFirst(a) && NewestFirst(b) && |a| == |b| > 0
    requires TimesDiffer(a)
    ensures a[|a| - 1] == b[|b| - 1]
  {
    var x, y := a[|a| - 1], b[|b| - 1];
    assert y in multiset(b) && x in multiset(a);
    assert y in multiset(a) && x in multiset(b);
    var k :| 0 <= k < |a| && a[k] == y;
    var l :| 0 <= l < |b| && b[l] == x;
  }

  lemma SameLength<T>(s: seq<T>, t: seq<T>)
    requires multiset(s) == multiset(t)
    ensures |s| == |t|
  {
    assert |s| == |multiset(s)| == |multiset(t)| == |t|;
  }

  predicate TimesDiffer(list: seq<Summary>) {
    forall i, j :: 0 <= i < j < |list| ==> list[i].modTime != list[j].modTime
  }

  lemma ShorterToo(list: seq<Summary>, n: nat)
    requires n <= |list|
    ensures NewestFirst(list) ==> NewestFirst(list[..n])
    ensures TimesDiffer(list) ==> TimesDiffer(list[..n])
  {
  }

  lemma {:induction false} OrderedOneWay(a: seq<Summary>, b: seq<Summary>)
    requires multiset(a) == multiset(b) && NewestFirst(a) && NewestFirst(b) && TimesDiffer(a)
    ensures a == b
  {
    SameLength(a, b);
    if a != [] {
      var n := |a| - 1;
      SameLast(a, b);
      DropLast(a);
      DropLast(b);
      ShorterToo(a, n);
      ShorterToo(b, n);
      OrderedOneWay(a[..n], b[..n]);
    }
  }

  lemma CountedTwice<T>(s: seq<T>, i: nat, j: nat)
    requires i < j < |s| && s[i] == s[j]
    ensures multiset(s)[s[i]] >= 2
  {
    assert s == s[..i] + [s[i]] + s[i + 1..j] + [s[j]] + s[j + 1..];
  }

  lemma DistinctInList(t: Tree, dir: Path, ls: set<Path>, list: seq<Summary>, i: nat, j: nat)
    requires Lists(t, dir, ls, list) && DistinctTimes(t, ls) && i < j < |list|
    ensures list[i].modTime != list[j].modTime
  {
    assert list[i] in multiset(list) && list[j] in multiset(list);
    var p :| p in ls && SummaryOf(t, p) == list[i];
    var q :| q in ls && SummaryOf(t, q) == list[j];
    assert multiset(Summaries(t, dir, ls))[list[i]] == 1;
    if list[i].modTime == list[j].modTime {
      CountedTwice(list, i, j);
    }
  }

  /** Then nothing is left to chance: every call sees the same list. */
  lemma ListingIsUnique(t: Tree, dir: Path, keep: Entry -> bool, a: seq<Summary>, b: seq<Summary>)
    requires IsListing(t, dir, keep, a) && IsListing(t, dir, keep, b) && DistinctTimes(t, Shown(t, dir, keep))
    ensures a == b
  {
    forall i, j | 0 <= i < j < |a| ensures a[i].modTime != a[j].modTime {
      DistinctInList(t, dir, Shown(t, dir, keep), a, i, j);
    }
    OrderedOneWay(a, b);
  }

  /** What `n` calls show, one for each of the pages 1 to `n`, each from a list of its own. */
  function CallPages(lists: seq<seq<Summary>>, limit: int, n: nat): seq<Summary>
    requires n <= |lists|
  {
    if n == 0 then [] else CallPages(lists, limit, n - 1) + Page(lists[n - 1], n, limit)
  }

  /** With distinct times, separate calls for the pages 1 to `n` of an unchanged folder show its first `n * limit`
      messages, without gap or repetition. */
  lemma {:induction false} SeparateCallsConcatenate(t: Tree, dir: Path, keep: Entry -> bool, lists: seq<seq<Summary>>,
                                                    limit: int, n: nat, list: seq<Summary>)
    requires n <= |lists| && DistinctTimes(t, Shown(t, dir, keep)) && IsListing(t, dir, keep, list)
    requires forall i :: 0 <= i < n ==> IsListing(t, dir, keep, lists[i])
    ensures CallPages(lists, limit, n) == FirstOf(list, n * PageSize(limit))
  {
    SameAsFirstPages(t, dir, keep, lists, limit, n, list);
    PagesConcatenate(list, limit, n);
  }

  lemma {:induction false} SameAsFirstPages(t: Tree, dir: Path, keep: Entry -> bool, lists: seq<seq<Summary>>,
                                            limit: int, n: nat, list: seq<Summary>)
    requires n <= |lists| && DistinctTimes(t, Shown(t, dir, keep)) && IsListing(t, dir, keep, list)
    requires forall i :: 0 <= i < n ==> IsListing(t, dir, keep, lists[i])
    ensures CallPages(lists, limit, n) == FirstPages(list, limit, n)
  {
    if n > 0 {
      SameAsFirstPages(t, dir, keep, lists, limit, n - 1, list);
      ListingIsUnique(t, dir, keep, lists[n - 1], list);
    }
  }
}
