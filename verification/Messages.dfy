/** Stored messages: rows that refer to blobs, and the collection of blobs no row refers to. */
module Messages {
  import opened Wrappers
  import opened Blobs

  datatype Message = Message(mailbox: string, blobId: string, sizeBytes: nat)

  // ---------- The operations as one step each ----------

  /** The blob a message refers to, and (history) the bytes it was stored with. */
  datatype Ref = Ref(blob: string, body: Content)

  datatype State = State(blobs: map<string, Content>, refs: map<nat, Ref>)

  /** The flags say how the disk, the database and the clean-up turn out. A message id is a primary key. */
  datatype Op =
    | Store(id: nat, data: Content, diskOk: bool, insertOk: bool, cleanupOk: bool)
    | Delete(id: nat, rowOk: bool, blobOk: bool)
    | Collect(dryRun: bool, stuck: set<string>)

  function Referenced(refs: map<nat, Ref>): set<string> { set id | id in refs :: refs[id].blob }

  function WithoutBlob(blobs: map<string, Content>, h: string, ok: bool): map<string, Content> {
    if ok then blobs - {h} else blobs
  }

  function Step(hash: Content -> string, s: State, op: Op): State {
    match op
    case Store(id, data, diskOk, insertOk, cleanupOk) =>
      if data == "" || !diskOk then s else
        var h := hash(data);
        if insertOk && id !in s.refs then State(s.blobs[h := data], s.refs[id := Ref(h, data)])
        else State(WithoutBlob(s.blobs[h := data], h, cleanupOk), s.refs)
    case Delete(id, rowOk, blobOk) =>
      if id !in s.refs || !rowOk then s
      else State(WithoutBlob(s.blobs, s.refs[id].blob, blobOk), s.refs - {id})
    case Collect(dryRun, stuck) =>
      if dryRun then s else State(Survivors(s.blobs, s.blobs.Keys, Referenced(s.refs) + stuck), s.refs)
  }

  // ---------- The services ----------

  class MessageService {
    const store: BlobStore
    var messages: map<nat, Message>
    ghost var refs: map<nat, Ref>

    ghost predicate Valid()
      reads this, store
    {
      && store.Valid()
      && refs.Keys == messages.Keys
      && forall id :: id in messages ==> refs[id].blob == messages[id].blobId && ValidId(messages[id].blobId)
    }

    ghost function View(): State
      reads this, store
    {
      State(store.blobs, refs)
    }

    constructor (store: BlobStore)
      requires store.Valid()
      ensures this.store == store && messages == map[] && refs == map[] && Valid()
    {
      this.store := store;
      messages := map[];
      refs := map[];
    }

    method StoreMessage(mailbox: Option<string>, op: Op) returns (r: Result<nat, StoreError>)
      requires Valid() && op.Store? && ValidId(store.hash(op.data))
      modifies this, store
      ensures Valid()
      ensures mailbox.None? ==> r == Err(MailboxNotFound) && View() == old(View())
      ensures mailbox.Some? ==> View() == Step(store.hash, old(View()), op)
      ensures r.Ok? <==> mailbox.Some? && op.data != "" && op.diskOk && op.insertOk && op.id !in old(messages)
      ensures r.Ok? ==> r.value == op.id
      ensures messages == if r.Err? then old(messages) else
                            old(messages)[op.id := Message(mailbox.value, store.hash(op.data), |op.data|)]
    {
      if mailbox.None? {
        return Err(MailboxNotFound);
      }
      if op.data == "" {
        return Err(EmptyPayload);
      }
      ghost var blobs := store.blobs;
      var blob := store.Put(op.data, op.diskOk);
      if blob.Err? {
        return Err(SystemError);
      }
      assert store.blobs == blobs[blob.value := op.data];
      if !op.insertOk || op.id in messages {
        var _ := store.Delete(blob.value, op.cleanupOk);
        assert store.blobs == WithoutBlob(blobs[blob.value := op.data], blob.value, op.cleanupOk);
        return Err(SystemError);
      }
      messages := messages[op.id := Message(mailbox.value, blob.value, |op.data|)];
      refs := refs[op.id := Ref(blob.value, op.data)];
      r := Ok(op.id);
    }

    method GetContent(id: nat) returns (r: Result<Content, StoreError>)
      requires Valid()
      ensures id !in messages ==> r == Err(MessageNotFound)
      ensures id in messages ==>
        var s := View();
        r == if s.refs[id].blob in s.blobs then Ok(s.blobs[s.refs[id].blob]) else Err(BlobNotFound)
    {
      if id !in messages {
        return Err(MessageNotFound);
      }
      r := store.Get(messages[id].blobId);
    }

    method DeleteMessage(op: Op) returns (r: Result<(), StoreError>)
      requires Valid() && op.Delete?
      modifies this, store
      ensures Valid() && View() == Step(store.hash, old(View()), op)
      ensures r.Ok? <==> op.id in old(messages) && op.rowOk
    {
      if op.id !in messages {
        return Err(MessageNotFound);
      }
      if !op.rowOk {
        return Err(SystemError);
      }
      var blobId := messages[op.id].blobId;
      messages := messages - {op.id};
      refs := refs - {op.id};
      ghost var blobs := store.blobs;
      var _ := store.Delete(blobId, op.blobOk);
      assert store.blobs == WithoutBlob(blobs, blobId, op.blobOk);
      r := Ok(());
    }

    /** The collection as the command line runs it: the references come from the message table. */
    method CollectGarbage(dryRun: bool, stuck: set<string>) returns (stats: GCStats)
      requires Valid()
      modifies store
      ensures Valid() && View() == Step(store.hash, old(View()), Collect(dryRun, stuck))
      ensures stats == StatsOf(old(View()).blobs.Keys, Referenced(refs), dryRun, stuck)
    {
      var referenced := set id | id in messages :: messages[id].blobId;
      assert referenced == Referenced(refs);
      stats := GarbageCollect(store, referenced, dryRun, stuck);
    }
  }
}
