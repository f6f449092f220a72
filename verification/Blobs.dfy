/**
 Messages, the content-addressed blobs that hold their bytes, and the collection of blobs nothing refers to.
 */
module Blobs {
  import opened Wrappers
  import opened Folds
  import opened Text

  /** The file of a blob: the shard directory, then the blob id. */
  datatype FileName = FileName(shard: string, name: string)

  type Content = string

  type BlobFiles = map<FileName, Content>

  datatype StoreError = EmptyPayload | InvalidId | BlobNotFound | SystemError | MailboxNotFound | MessageNotFound

  predicate IsIdChar(c: char) { IsDigit(c) || 'a' <= c <= 'f' }

  /** 32 to 64 lower-case hexadecimal digits. */
  predicate ValidId(id: string) { 32 <= |id| <= 64 && forall i :: 0 <= i < |id| ==> IsIdChar(id[i]) }

  /** Where a blob is kept: in the shard named by the first two characters of its id. */
  function PathOf(id: string): FileName
    requires |id| >= 2
  {
    FileName(id[..2], id)
  }

  /** Blobs share a directory exactly when their ids begin with the same two characters; that is never the one for
      temporary files. */
  lemma ShardsOfBlobs(x: string, y: string)
    requires ValidId(x) && ValidId(y)
    ensures PathOf(x).shard == PathOf(y).shard <==> x[0] == y[0] && x[1] == y[1]
    ensures PathOf(x).shard != "tmp" && PathOf(x).name == x && (PathOf(x) == PathOf(y) <==> x == y)
  {
    assert x[..2] == [x[0], x[1]] && y[..2] == [y[0], y[1]];
  }

  // ---------- The blob store ----------

  /** Every file named like a blob lies in the shard of its name. There may be other files anywhere. */
  predicate InPlace(files: BlobFiles) { forall f :: f in files && ValidId(f.name) ==> f == PathOf(f.name) }

  /** The files named like blobs hold exactly the blobs. */
  ghost predicate Holds(files: BlobFiles, blobs: map<string, Content>) {
    && InPlace(files)
    && (forall f :: f in files && ValidId(f.name) ==> f.name in blobs && blobs[f.name] == files[f])
    && (forall id :: id in blobs ==> ValidId(id) && PathOf(id) in files)
  }

  /** `hash` is the hex SHA-256 of the bytes; `blobs` is what the store holds, by id. */
  class BlobStore {
    const hash: Content -> string
    var files: BlobFiles
    ghost var blobs: map<string, Content>

    ghost predicate Valid()
      reads this
    {
      Holds(files, blobs)
    }

    /** Opens a store on the files that there are. */
    constructor (hash: Content -> string, files: BlobFiles)
      requires InPlace(files)
      ensures this.hash == hash && this.files == files && Valid()
      ensures forall id :: id in blobs <==> ValidId(id) && PathOf(id) in files
    {
      this.hash := hash;
      this.files := files;
      blobs := map f | f in files && ValidId(f.name) :: f.name := files[f];
    }

    /** Put: an existing blob of the same id is replaced. `ok`: the disk takes the write. */
    method Put(data: Content, ok: bool) returns (r: Result<string, StoreError>)
      requires Valid() && ValidId(hash(data))
      modifies this
      ensures Valid()
      ensures r == if data == "" then Err(EmptyPayload) else if !ok then Err(SystemError) else Ok(hash(data))
      ensures blobs == if r.Ok? then old(blobs)[r.value := data] else old(blobs)
    {
      if data == "" {
        return Err(EmptyPayload);
      }
      if !ok {
        return Err(SystemError);
      }
      var id := hash(data);
      files := files[PathOf(id) := data];
      blobs := blobs[id := data];
      r := Ok(id);
    }

    method Get(id: string) returns (r: Result<Content, StoreError>)
      requires Valid()
      ensures r == if !ValidId(id) then Err(InvalidId) else if id in blobs then Ok(blobs[id]) else Err(BlobNotFound)
    {
      if !ValidId(id) {
        return Err(InvalidId);
      }
      r := if PathOf(id) in files then Ok(files[PathOf(id)]) else Err(BlobNotFound);
    }

    method Delete(id: string, ok: bool) returns (r: Result<(), StoreError>)
      requires Valid()
      modifies this
      ensures Valid()
      ensures r == if !ValidId(id) then Err(InvalidId) else if id !in old(blobs) then Err(BlobNotFound)
                   else if !ok then Err(SystemError) else Ok(())
      ensures blobs == if r.Ok? then old(blobs) - {id} else old(blobs)
    {
      if !ValidId(id) {
        return Err(InvalidId);
      }
      if PathOf(id) !in files {
        return Err(BlobNotFound);
      }
      if !ok {
        return Err(SystemError);
      }
      files := files - {PathOf(id)};
      blobs := blobs - {id};
      r := Ok(());
    }

    /** The blob ids in one shard directory. */
    method ListShard(shard: string) returns (ids: seq<string>)
      ensures multiset(ids) == multiset(IdsIn(files, shard))
    {
      var names := set f | f in files && f.shard == shard :: f.name;
      ids := KeepIds(names);
      assert IdsAmong(names) == IdsIn(files, shard);
    }

    /** ListIDs: shard by shard, leaving out `tmp` and names that are no ids. */
    method ListIds() returns (ids: seq<string>)
      requires Valid()
      ensures multiset(ids) == multiset(blobs.Keys)
    {
      ids := [];
      var shards := set f | f in files :: f.shard;
      assert IdsOutside(files, shards) == {};
      while shards != {}
        invariant multiset(ids) == multiset(IdsOutside(files, shards))
        decreases |shards|
      {
        var shard :| shard in shards;
        NextShard(files, blobs, shards, shard);
        shards := shards - {shard};
        if shard == "tmp" {
          continue;
        }
        var more := ListShard(shard);
        ids := ids + more;
      }
      assert IdsOutside(files, {}) == blobs.Keys by {
        assert forall id :: id in blobs ==> PathOf(id).name == id;
      }
    }
  }

  ghost function IdsAmong(names: set<string>): set<string> { set n | n in names && ValidId(n) }

  /** The names that are blob ids, each once; all others are passed over. */
  method KeepIds(names: set<string>) returns (ids: seq<string>)
    ensures multiset(ids) == multiset(IdsAmong(names))
  {
    ids := [];
    var rest := names;
    assert names - rest == {};
    while rest != {}
      invariant rest <= names
      invariant multiset(ids) == multiset(IdsAmong(names - rest))
      decreases |rest|
    {
      var name :| name in rest;
      ghost var before := names - rest;
      rest := rest - {name};
      assert names - rest == before + {name};
      if ValidId(name) {
        OneMoreId(before, name);
        ids := ids + [name];
      } else {
        assert IdsAmong(before + {name}) == IdsAmong(before);
      }
    }
    assert names - rest == names;
  }

  lemma OneMoreId(names: set<string>, name: string)
    requires ValidId(name) && name !in names
    ensures multiset(IdsAmong(names + {name})) == multiset(IdsAmong(names)) + multiset{name}
  {
    assert IdsAmong(names + {name}) == IdsAmong(names) + {name};
  }

  // ---------- Garbage collection ----------

  datatype GCStats = GCStats(totalBlobs: nat, referencedBlobs: nat, orphanBlobs: nat, deletedBlobs: nat)

  /** The blobs left once those in `seen` have been gone through: only what is to be kept of them. */
  function Survivors(blobs: map<string, Content>, seen: set<string>, keep: set<string>): map<string, Content> {
    map h | h in blobs && (h !in seen || h in keep) :: blobs[h]
  }

  function StatsOf(listed: set<string>, referenced: set<string>, dryRun: bool, stuck: set<string>): GCStats {
    GCStats(|listed|, |referenced|, |listed - referenced|, if dryRun then 0 else |listed - referenced - stuck|)
  }

  /** One turn of the loop. */
  method CollectOne(store: BlobStore, id: string, referenced: bool, dryRun: bool, ok: bool, stats: GCStats)
    returns (after: GCStats)
    requires store.Valid() && id in store.blobs
    modifies store
    ensures store.Valid()
    ensures store.blobs == if referenced || dryRun || !ok then old(store.blobs) else old(store.blobs) - {id}
    ensures after == stats.(orphanBlobs := stats.orphanBlobs + if referenced then 0 else 1,
                            deletedBlobs := stats.deletedBlobs + if referenced || dryRun || !ok then 0 else 1)
  {
    after := stats;
    if !referenced {
      after := after.(orphanBlobs := after.orphanBlobs + 1);
      if !dryRun {
        var deleted := store.Delete(id, ok);
        if deleted.Ok? {
          after := after.(deletedBlobs := after.deletedBlobs + 1);
        }
      }
    }
  }

  /** The blobs once the listed ids have been gone through one by one. */
  ghost function Swept(blobs: map<string, Content>, ids: seq<string>, keep: set<string>): map<string, Content> {
    if ids == [] then blobs else
      var m := Swept(blobs, ids[..|ids| - 1], keep);
      if ids[|ids| - 1] in keep then m else m - {ids[|ids| - 1]}
  }

  lemma SurvivorsStep(blobs: map<string, Content>, seen: set<string>, id: string, keep: set<string>)
    requires id in seen
    ensures Survivors(blobs, seen, keep) ==
            if id in keep then Survivors(blobs, seen - {id}, keep) else Survivors(blobs, seen - {id}, keep) - {id}
  {
  }

  function Outside(keep: set<string>): string -> bool { id => id !in keep }

  lemma {:induction false} SweptBySet(blobs: map<string, Content>, ids: seq<string>, seen: set<string>, keep: set<string>)
    requires multiset(ids) == multiset(seen)
    ensures Swept(blobs, ids, keep) == Survivors(blobs, seen, keep)
    ensures Count(Outside(keep), ids) == |seen - keep|
  {
    if ids == [] {
      assert |seen| == |multiset(seen)| == |multiset(ids)| == 0;
    } else {
      var n := |ids| - 1;
      var id := ids[n];
      OneListedLess(ids, seen);
      SweptBySet(blobs, ids[..n], seen - {id}, keep);
      SurvivorsStep(blobs, seen, id, keep);
      OneLeftLess(seen, id, keep);
    }
  }

  lemma OneLeftLess(seen: set<string>, id: string, keep: set<string>)
    requires id in seen
    ensures |seen - keep| == |seen - {id} - keep| + if id in keep then 0 else 1
  {
    assert seen - keep == (seen - {id} - keep) + if id in keep then {} else {id};
  }

  lemma OneListedLess(ids: seq<string>, seen: set<string>)
    requires ids != [] && multiset(ids) == multiset(seen)
    ensures ids[|ids| - 1] in seen && multiset(ids[..|ids| - 1]) == multiset(seen - {ids[|ids| - 1]})
  {
    var id := ids[|ids| - 1];
    assert ids == ids[..|ids| - 1] + [id];
    assert id in multiset(ids) && id in multiset(seen);
    assert multiset(seen - {id}) == multiset(seen) - multiset{id};
  }

  /** A blob not gone through yet is still there. */
  lemma {:induction false} NotSweptYet(blobs: map<string, Content>, ids: seq<string>, keep: set<string>, id: string)
    requires id in blobs && id !in ids
    ensures id in Swept(blobs, ids, keep)
  {
    if ids != [] {
      NotSweptYet(blobs, ids[..|ids| - 1], keep, id);
    }
  }

  lemma NextListed(ids: seq<string>, i: nat, listed: set<string>)
    requires i < |ids| && multiset(ids) == multiset(listed)
    ensures ids[i] in listed && ids[i] !in ids[..i]
  {
    assert ids == ids[..i] + [ids[i]] + ids[i + 1..];
    assert ids[i] in multiset(ids);
    assert multiset(ids)[ids[i]] <= 1;
    assert ids[i] !in multiset(ids[..i]);
  }

  /** The loop over the listing. */
  method CollectAll(store: BlobStore, ids: seq<string>, referenced: set<string>, dryRun: bool, stuck: set<string>)
    returns (stats: GCStats)
    requires store.Valid() && multiset(ids) == multiset(store.blobs.Keys)
    modifies store
    ensures store.Valid()
    ensures store.blobs == if dryRun then old(store.blobs) else Swept(old(store.blobs), ids, referenced + stuck)
    ensures stats == GCStats(|ids|, |referenced|, Count(Outside(referenced), ids),
                             if dryRun then 0 else Count(Outside(referenced + stuck), ids))
  {
    ghost var blobs := store.blobs;
    ghost var keep := referenced + stuck;
    stats := GCStats(|ids|, |referenced|, 0, 0);
    for i := 0 to |ids|
      invariant store.Valid()
      invariant store.blobs == if dryRun then blobs else Swept(blobs, ids[..i], keep)
      invariant stats == GCStats(|ids|, |referenced|, Count(Outside(referenced), ids[..i]),
                                 if dryRun then 0 else Count(Outside(keep), ids[..i]))
    {
      NextListed(ids, i, blobs.Keys);
      NotSweptYet(blobs, ids[..i], keep, ids[i]);
      PrefixStep(ids, i);
      stats := CollectOne(store, ids[i], ids[i] in referenced, dryRun, ids[i] !in stuck, stats);
    }
    assert ids[..|ids|] == ids;
  }

  /** GarbageCollect; deleting the blobs in `stuck` fails. */
  method GarbageCollect(store: BlobStore, referenced: set<string>, dryRun: bool, stuck: set<string>)
    returns (stats: GCStats)
    requires store.Valid()
    modifies store
    ensures store.Valid()
    ensures var blobs := old(store.blobs);
            && stats == StatsOf(blobs.Keys, referenced, dryRun, stuck)
            && store.blobs == if dryRun then blobs else Survivors(blobs, blobs.Keys, referenced + stuck)
  {
    var ids := store.ListIds();
    ghost var blobs := store.blobs;
    SweptBySet(blobs, ids, blobs.Keys, referenced + stuck);
    SweptBySet(blobs, ids, blobs.Keys, referenced);
    assert |ids| == |multiset(ids)| == |blobs.Keys|;
    assert blobs.Keys - (referenced + stuck) == blobs.Keys - referenced - stuck;
    stats := CollectAll(store, ids, referenced, dryRun, stuck);
  }

  ghost function IdsIn(files: BlobFiles, shard: string): set<string> {
    set f | f in files && f.shard == shard && ValidId(f.name) :: f.name
  }

  ghost function IdsOutside(files: BlobFiles, shards: set<string>): set<string> {
    set f | f in files && f.shard !in shards && ValidId(f.name) :: f.name
  }

  lemma NextShard(files: BlobFiles, blobs: map<string, Content>, shards: set<string>, shard: string)
    requires Holds(files, blobs) && shard in shards
    ensures multiset(IdsOutside(files, shards - {shard})) ==
            multiset(IdsOutside(files, shards)) + multiset(IdsIn(files, shard))
    ensures shard == "tmp" ==> IdsIn(files, shard) == {}
  {
    var before, here := IdsOutside(files, shards), IdsIn(files, shard);
    assert IdsOutside(files, shards - {shard}) == before + here;
    assert before !! here by {
      forall f, g | f in files && g in files && ValidId(f.name) && f.name == g.name ensures f == g {
        assert f == PathOf(f.name) && g == PathOf(g.name);
      }
    }
  }
}
