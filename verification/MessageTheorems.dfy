/** Every message keeps its blob: when it holds, step by step and over runs. */
module MessageTheorems {
  import opened Wrappers
  import opened Blobs
  import opened Messages

  /** Every message's blob is present, with exactly the bytes the message was stored with. */
  ghost predicate Intact(s: State) {
    forall id :: id in s.refs ==> s.refs[id].blob in s.blobs && s.blobs[s.refs[id].blob] == s.refs[id].body
  }

  /** What has to be true before the call. Storing: no message holds other bytes under the same id, and if the
      row is refused and the clean-up runs, no message refers to the blob. Deleting: no other message refers to
      the blob, unless it is not removed. Collecting is always safe. */
  ghost predicate Safe(hash: Content -> string, s: State, op: Op) {
    match op
    case Store(id, data, diskOk, insertOk, cleanupOk) =>
      data != "" && diskOk ==>
        && (forall k :: k in s.refs && s.refs[k].blob == hash(data) ==> s.refs[k].body == data)
        && ((insertOk && id !in s.refs) || !cleanupOk || forall k :: k in s.refs ==> s.refs[k].blob != hash(data))
    case Delete(id, rowOk, blobOk) =>
      id in s.refs && rowOk && blobOk ==> forall k :: k in s.refs && k != id ==> s.refs[k].blob != s.refs[id].blob
    case Collect(_, _) => true
  }

  /** A step keeps all messages intact exactly when it is safe. */
  lemma StepKeepsIntact(hash: Content -> string, s: State, op: Op)
    requires Intact(s)
    ensures Intact(Step(hash, s, op)) <==> Safe(hash, s, op)
  {
    var s' := Step(hash, s, op);
    match op
    case Store(id, data, diskOk, insertOk, cleanupOk) =>
      if Intact(s') {
        forall k | k in s.refs ensures k in s'.refs && s'.refs[k] == s.refs[k] {
        }
      }
    case Delete(id, rowOk, blobOk) =>
      if Intact(s') && id in s.refs && rowOk {
        forall k | k in s.refs && k != id ensures k in s'.refs && s'.refs[k] == s.refs[k] {
        }
      }
    case Collect(_, _) =>
      forall k | k in s.refs ensures s.refs[k].blob in Referenced(s.refs) {
      }
  }

  // ---------- Runs ----------

  function StateAfter(hash: Content -> string, ops: seq<Op>): State {
    if ops == [] then State(map[], map[]) else Step(hash, StateAfter(hash, ops[..|ops| - 1]), ops[|ops| - 1])
  }

  /** The bytes that occur in the run. */
  function Inputs(ops: seq<Op>): set<Content> { set op | op in ops && op.Store? :: op.data }

  /** The hash tells these bytes apart. */
  ghost predicate CollisionFree(hash: Content -> string, inputs: set<Content>) {
    forall x, y :: x in inputs && y in inputs && hash(x) == hash(y) ==> x == y
  }

  ghost predicate Holds(s: State, data: Content) { exists k :: k in s.refs && s.refs[k].body == data }

  /** No bytes are stored while a live message holds them. */
  ghost predicate NoDuplicates(hash: Content -> string, ops: seq<Op>) {
    forall i :: 0 <= i < |ops| && ops[i].Store? ==> !Holds(StateAfter(hash, ops[..i]), ops[i].data)
  }

  /** Blob ids are the hashes of inputs, and no two messages share one. */
  ghost predicate Traced(hash: Content -> string, s: State, inputs: set<Content>) {
    && (forall k :: k in s.refs ==> s.refs[k].blob == hash(s.refs[k].body) && s.refs[k].body in inputs)
    && (forall k, l :: k in s.refs && l in s.refs && s.refs[k].blob == s.refs[l].blob ==> k == l)
  }

  lemma TracedStep(hash: Content -> string, s: State, op: Op, inputs: set<Content>)
    requires Traced(hash, s, inputs) && CollisionFree(hash, inputs)
    requires op.Store? ==> op.data in inputs && !Holds(s, op.data)
    ensures Traced(hash, Step(hash, s, op), inputs) && Safe(hash, s, op)
  {
  }

  /** With a collision-free hash and no two live messages holding the same bytes, every message's blob is
      present with exactly its bytes in every state of every run, whatever fails on the way. */
  lemma {:induction false} ReferencesStayIntact(hash: Content -> string, ops: seq<Op>, n: nat)
    requires CollisionFree(hash, Inputs(ops)) && NoDuplicates(hash, ops) && n <= |ops|
    ensures Intact(StateAfter(hash, ops[..n])) && Traced(hash, StateAfter(hash, ops[..n]), Inputs(ops))
  {
    if n > 0 {
      ReferencesStayIntact(hash, ops, n - 1);
      var s, op := StateAfter(hash, ops[..n - 1]), ops[n - 1];
      assert ops[..n][..n - 1] == ops[..n - 1] && ops[..n][n - 1] == op;
      TracedStep(hash, s, op, Inputs(ops));
      StepKeepsIntact(hash, s, op);
    }
  }

  /** The condition is needed: of two messages with the same bytes one is deleted, and the other's blob is gone. */
  lemma SharedBytesAreLost(hash: Content -> string, data: Content)
    requires data != ""
    ensures var ops := [Store(0, data, true, true, true), Store(1, data, true, true, true), Delete(0, true, true)];
            var s := StateAfter(hash, ops);
            1 in s.refs && s.refs[1] == Ref(hash(data), data) && hash(data) !in s.blobs
  {
    var a, b, c := Store(0, data, true, true, true), Store(1, data, true, true, true), Delete(0, true, true);
    assert [a, b, c][..2] == [a, b] && [a, b][..1] == [a] && [a][..0] == [];
    var s1 := Step(hash, State(map[], map[]), a);
    var s2 := Step(hash, s1, b);
    assert StateAfter(hash, [a]) == s1;
    assert StateAfter(hash, [a, b]) == s2;
    assert StateAfter(hash, [a, b, c]) == Step(hash, s2, c);
  }

  // ---------- Collection ----------

  lemma NothingStuck(blobs: map<string, Content>, refs: set<string>)
    ensures var kept := Survivors(blobs, blobs.Keys, refs + {});
            && kept.Keys == blobs.Keys * refs && (forall h :: h in kept ==> kept[h] == blobs[h])
            && Survivors(kept, kept.Keys, refs + {}) == kept
  {
  }

  lemma SplitBy(listed: set<string>, refs: set<string>)
    ensures |listed| == |listed - refs| + |listed * refs| && listed - refs - {} == listed - refs
  {
    assert listed == (listed - refs) + (listed * refs);
  }

  /** After a collection in which every deletion works, exactly the listed and referenced blobs are left, with
      their bytes; orphans and survivors make up the total; and a second collection finds nothing to do. */
  lemma CollectionIsExact(hash: Content -> string, s: State)
    ensures var s' := Step(hash, s, Collect(false, {}));
            var stats := StatsOf(s.blobs.Keys, Referenced(s.refs), false, {});
            && s'.blobs.Keys == s.blobs.Keys * Referenced(s.refs)
            && (forall h :: h in s'.blobs ==> s'.blobs[h] == s.blobs[h])
            && stats.totalBlobs == stats.orphanBlobs + |s'.blobs.Keys| && stats.deletedBlobs == stats.orphanBlobs
            && Step(hash, s', Collect(false, {})) == s'
  {
    NothingStuck(s.blobs, Referenced(s.refs));
    SplitBy(s.blobs.Keys, Referenced(s.refs));
  }

  /** A dry run changes nothing, and finds the orphans that a real one deletes. */
  lemma DryCollection(hash: Content -> string, s: State, stuck: set<string>)
    ensures Step(hash, s, Collect(true, stuck)) == s
    ensures var dry, run := StatsOf(s.blobs.Keys, Referenced(s.refs), true, stuck),
                            StatsOf(s.blobs.Keys, Referenced(s.refs), false, {});
            dry.deletedBlobs == 0 && dry.orphanBlobs == run.deletedBlobs == |s.blobs.Keys - Referenced(s.refs)|
            && dry.totalBlobs == |s.blobs.Keys| && dry.referencedBlobs == |Referenced(s.refs)|
  {
    SplitBy(s.blobs.Keys, Referenced(s.refs));
  }

  /** Blobs that cannot be deleted stay and are not counted as deleted: what is left and what was deleted make up the
      total, and an unreferenced blob is left if and only if it could not be deleted. */
  lemma StuckBlobsStay(hash: Content -> string, s: State, stuck: set<string>)
    ensures var s' := Step(hash, s, Collect(false, stuck));
            var stats := StatsOf(s.blobs.Keys, Referenced(s.refs), false, stuck);
            && stats.deletedBlobs + |s'.blobs.Keys| == |s.blobs.Keys| && s'.refs == s.refs
            && forall h :: h in s.blobs && h !in Referenced(s.refs) ==> (h in s'.blobs <==> h in stuck)
  {
    var kept := Step(hash, s, Collect(false, stuck)).blobs.Keys;
    var gone := s.blobs.Keys - Referenced(s.refs) - stuck;
    assert s.blobs.Keys == kept + gone && kept !! gone;
  }

  // ---------- Storing undone ----------

  lemma PutAndRemoved(blobs: map<string, Content>, h: string, data: Content)
    ensures blobs[h := data] - {h} == blobs <==> h !in blobs
  {
    assert h in blobs ==> h !in blobs[h := data] - {h};
  }

  /** A store whose row is refused, cleaned up, leaves everything as it was if and only if there was no such blob before. */
  lemma RefusedStoreLeavesNothing(hash: Content -> string, s: State, op: Op)
    requires op.Store? && op.data != "" && op.diskOk && op.cleanupOk && (!op.insertOk || op.id in s.refs)
    ensures Step(hash, s, op) == s <==> hash(op.data) !in s.blobs
  {
    PutAndRemoved(s.blobs, hash(op.data), op.data);
  }

  /** Deleting a message just stored leaves everything as it was before under the same condition. */
  lemma DeletionUndoesStoring(hash: Content -> string, s: State, id: nat, data: Content, cleanupOk: bool)
    requires data != "" && id !in s.refs
    ensures Step(hash, Step(hash, s, Store(id, data, true, true, cleanupOk)), Delete(id, true, true)) == s
            <==> hash(data) !in s.blobs
  {
    PutAndRemoved(s.blobs, hash(data), data);
    assert s.refs[id := Ref(hash(data), data)] - {id} == s.refs;
  }
}
