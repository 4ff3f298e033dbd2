/** The queue storage object: every public operation as the transaction it runs on the store,
    proved against the acknowledging-queue machine and against first-in first-out sequences. */
module QueueStore {
  import opened ByteStrings
  import opened Buffers
  import opened OrderedStore
  import opened Decimal
  import opened Keys
  import opened QueueCodec
  import opened AckQueue
  import opened LegacyQueue
  import opened AckStore
  import opened QueueNames
  import opened AckLaws

  class QueueStorage {
    var db: Store

    /** The acknowledging queues that `db` represents. */
    ghost var acks: AckState

    ghost predicate Valid()
      reads this
    {
      Represents(db, acks) && LegacyValid(db)
    }

    /** The first-in first-out queue of the given name. */
    ghost function Items(queue: Bytes): seq<Bytes>
      requires Valid()
      reads this
    {
      Contents(db, queue)
    }

    constructor ()
      ensures Valid() && acks == Empty
      ensures forall queue :: Items(queue) == []
    {
      db := map[];
      acks := Empty;
      new;
      EmptyRepresents();
    }

    /** The end of a `db.Update`: the transaction's writes become the store in one step. */
    method Commit(txn: Store, ghost after: AckState)
      requires Valid() && Represents(txn, after) && SameLegacy(db, txn)
      modifies this
      ensures Valid() && db == txn && acks == after
      ensures forall q :: Items(q) == old(Items(q))
    {
      LegacyFrame(db, txn);
      db := txn;
      acks := after;
    }

    // ---------- configuration ----------

    method SetQueueConfig(c: QueueConfig) returns (r: Result<()>)
      requires Valid()
      requires |c.name| < TWO_16 && |c.deadLetterQueue| < TWO_16 && ColonFree(c.deadLetterQueue)
      modifies this
      ensures Valid() && acks == SetConfig(old(acks), c)
      ensures Configured(old(acks), c, r, acks)
      ensures forall q :: Items(q) == old(Items(q))
    {
      ConfigIs(acks, c);
      if c.name == [] {
        return Failure(InvalidQueue);
      }
      var data := EncodeQueueConfig(c);
      ConfigRepresents(db, acks, c);
      Commit(db[ConfigKey(c.name) := data], SetConfig(acks, c));
      r := Success(());
    }

    method GetQueueConfig(queue: Bytes) returns (r: Result<QueueConfig>)
      requires Valid()
      ensures r == if queue == [] then Failure(InvalidQueue) else Success(ConfigOf(acks, queue))
      ensures queue != [] && queue in acks.configs ==> r == Success(acks.configs[queue])
      ensures queue != [] && queue !in acks.configs ==> r == Success(QueueConfig(queue, [], 3, 30000))
    {
      if queue == [] {
        return Failure(InvalidQueue);
      }
      var key := ConfigKey(queue);
      if key !in db {
        return Success(QueueConfig(queue, [], DEFAULT_MAX_RETRIES, DEFAULT_VISIBILITY_TIMEOUT));
      }
      var cfg := DecodeQueueConfig(db[key]);
      assert cfg == Decoded.Ok(acks.configs[queue]);
      r := Success(cfg.value);
    }

    // ---------- acknowledging queue ----------

    method PushMessage(queue: Bytes, value: Bytes, id: Bytes, now: Int64) returns (r: Result<Bytes>)
      requires Valid()
      requires ColonFree(queue) && |value| < TWO_32 && |id| < TWO_16 && (queue, id) !in acks.msgs
      modifies this
      ensures Valid() && acks == AckQueue.Push(old(acks), queue, id, value, now)
      ensures Pushed(old(acks), queue, id, value, now, acks)
      ensures r == if queue == [] then Failure(InvalidQueue) else Success(id)
      ensures forall q :: Items(q) == old(Items(q))
    {
      PushIs(acks, queue, id, value, now);
      if queue == [] {
        return Failure(InvalidQueue);
      }
      var txn := PushTransaction(db, acks, queue, id, value, now);
      Commit(txn, AckQueue.Push(acks, queue, id, value, now));
      r := Success(id);
    }

    method PopMessage(queue: Bytes, consumer: Bytes, timeout: Int64, now: Int64) returns (r: Result<QueueMessage>)
      requires Valid()
      requires ColonFree(queue) && |consumer| < TWO_16
      modifies this
      ensures Valid() && acks == AckQueue.Pop(old(acks), queue, consumer, timeout, now)
      ensures PopResult(old(acks), queue, consumer, timeout, now, r)
      ensures AckLaws.Popped(old(acks), queue, consumer, timeout, now, r, acks)
      ensures forall q :: Items(q) == old(Items(q))
    {
      hide AckLaws.Popped;
      if queue == [] {
        PopIs(acks, queue, consumer, timeout, now, Failure(InvalidQueue));
        return Failure(InvalidQueue);
      }
      var txn;
      txn, r := PopTransaction(db, acks, queue, consumer, timeout, now);
      PopIs(acks, queue, consumer, timeout, now, r);
      if r.Success? {
        Commit(txn, AckQueue.Pop(acks, queue, consumer, timeout, now));
      }
    }

    method AckMessage(queue: Bytes, id: Bytes) returns (r: Result<()>)
      requires Valid() && ColonFree(queue)
      modifies this
      ensures Valid() && acks == Ack(old(acks), queue, id)
      ensures r == AddressResult(old(acks), queue, id)
      ensures Acknowledged(old(acks), queue, id, r, acks)
      ensures forall q :: Items(q) == old(Items(q))
    {
      AckIs(acks, queue, id);
      if queue == [] || id == [] {
        return Failure(InvalidQueue);
      }
      var txn;
      txn, r := AckTransaction(db, acks, queue, id);
      if r.Success? {
        Commit(txn, Ack(acks, queue, id));
      }
    }

    method NackMessage(queue: Bytes, id: Bytes, requeue: bool, newId: Bytes, now: Int64) returns (r: Result<()>)
      requires Valid() && ColonFree(queue)
      requires |newId| < TWO_16 && forall a :: a in acks.msgs ==> a.1 != newId
      modifies this
      ensures Valid() && acks == Nack(old(acks), queue, id, requeue, newId, now)
      ensures r == AddressResult(old(acks), queue, id)
      ensures Rejected(old(acks), queue, id, requeue, newId, now, r, acks)
      ensures forall q :: Items(q) == old(Items(q))
    {
      NackIs(acks, queue, id, requeue, newId, now);
      hide Rejected;
      if queue == [] || id == [] {
        return Failure(InvalidQueue);
      }
      var cfg := GetQueueConfig(queue);
      var txn;
      txn, r := NackTransaction(db, acks, queue, id, requeue, newId, now, cfg.value);
      if r.Success? {
        Commit(txn, Nack(acks, queue, id, requeue, newId, now));
      }
    }

    method RequeueExpiredMessages(queue: Bytes, now: Int64) returns (r: Result<nat>)
      requires Valid() && ColonFree(queue)
      modifies this
      ensures Valid() && acks == Sweep(old(acks), queue, now)
      ensures Swept(old(acks), queue, now, r, acks)
      ensures forall q :: Items(q) == old(Items(q))
    {
      SweepIs(acks, queue, now);
      if queue == [] {
        return Failure(InvalidQueue);
      }
      var txn, count := SweepTransaction(db, acks, queue, now);
      Commit(txn, Sweep(acks, queue, now));
      r := Success(count);
    }

    // ---------- first-in first-out queue ----------

    /** Appends an item, unless the tail is at the last 64-bit position: there it wraps around to 0. */
    method Push(queue: Bytes, value: Bytes) returns (r: Result<()>)
      requires Valid()
      modifies this
      ensures acks == old(acks) && Represents(db, acks)
      ensures queue == [] ==> r == Failure(InvalidQueue) && db == old(db)
      ensures queue != [] ==> r == Success(()) && db == PushStore(old(db), queue, value)
      ensures queue == [] || MetadataOf(old(db), queue).tail < MAX_POSITION ==> Valid()
      ensures queue != [] && MetadataOf(old(db), queue).tail < MAX_POSITION ==>
                Items(queue) == old(Items(queue)) + [value] && forall q :: q != queue ==> Items(q) == old(Items(q))
      ensures queue != [] && MetadataOf(old(db), queue).tail == MAX_POSITION ==>
                WrappedAround(old(db), db, queue, value)
    {
      if queue == [] {
        return Failure(InvalidQueue);
      }
      hide Represents, LegacyValid, SameAck, QueueValid, PushStore, MetadataOf, Contents, WrappedAround;
      PushAppends(db, queue, value);
      var txn := PushItemTransaction(db, queue, value);
      AckFrame(db, txn, acks);
      db := txn;
      r := Success(());
    }

    method Pop(queue: Bytes) returns (r: Result<Bytes>)
      requires Valid()
      modifies this
      ensures Valid() && acks == old(acks)
      ensures r == if queue == [] then Failure(InvalidQueue)
                   else if old(Items(queue)) == [] then Failure(QueueEmpty)
                   else Success(old(Items(queue))[0])
      ensures Items(queue) == if r.Success? then old(Items(queue))[1..] else old(Items(queue))
      ensures forall q :: q != queue ==> Items(q) == old(Items(q))
    {
      hide Represents, SameAck, Contents;
      if queue == [] {
        return Failure(InvalidQueue);
      }
      var txn;
      txn, r := PopItemTransaction(db, queue);
      if r.Success? {
        AckFrame(db, txn, acks);
        db := txn;
      }
    }

    method Peek(queue: Bytes) returns (r: Result<Bytes>)
      requires Valid()
      ensures r == if queue == [] then Failure(InvalidQueue)
                   else if Items(queue) == [] then Failure(QueueEmpty)
                   else Success(Items(queue)[0])
    {
      assert QueueValid(db, queue);
      if queue == [] {
        return Failure(InvalidQueue);
      }
      var meta := GetMetadata(db, queue);
      if meta.head >= meta.tail {
        return Failure(QueueEmpty);
      }
      PopTakesFirst(db, queue);
      r := Success(db[DataKey(queue, meta.head)]);
    }

    method Len(queue: Bytes) returns (r: Result<nat>)
      requires Valid()
      ensures r == if queue == [] then Failure(InvalidQueue) else Success(|Items(queue)|)
    {
      assert QueueValid(db, queue);
      if queue == [] {
        return Failure(InvalidQueue);
      }
      var meta := GetMetadata(db, queue);
      r := Success(if meta.tail > meta.head then meta.tail - meta.head else 0);
    }

    method Clear(queue: Bytes) returns (r: Result<()>)
      requires Valid()
      modifies this
      ensures Valid() && acks == old(acks)
      ensures r == if queue == [] then Failure(InvalidQueue) else Success(())
      ensures queue != [] ==> Items(queue) == []
      ensures forall q :: queue == [] || q != queue ==> Items(q) == old(Items(q))
    {
      if queue == [] {
        return Failure(InvalidQueue);
      }
      var txn := ClearTransaction(db, queue);
      AckFrame(db, txn, acks);
      db := txn;
      r := Success(());
    }
  }

  method GetMetadata(db: Store, queue: Bytes) returns (m: Metadata)
    ensures m == MetadataOf(db, queue)
  {
    var key := MetadataKey(queue);
    if key !in db {
      return Metadata(0, 0);
    }
    var val := db[key];
    if |val| != 16 {
      return Metadata(0, 0);
    }
    m := Metadata(GetU64(val, 0), GetU64(val, 8));
  }

  method SetMetadata(db: Store, queue: Bytes, m: Metadata) returns (txn: Store)
    ensures txn == db[MetadataKey(queue) := MetadataBytes(m)]
  {
    hide U64, Writing;
    ghost var whole := U64(m.head) + (U64(m.tail) + []);
    var data := new byte[16];
    Begin(data, whole);
    var pos := PutUint64(data, 0, m.head, U64(m.tail) + [], whole);
    pos := PutUint64(data, pos, m.tail, [], whole);
    Filled(data, pos, whole);
    assert data[..] == MetadataBytes(m);
    txn := db[MetadataKey(queue) := data[..]];
  }

  method PushItemTransaction(db: Store, queue: Bytes, value: Bytes) returns (txn: Store)
    ensures txn == PushStore(db, queue, value)
  {
    var meta := GetMetadata(db, queue);
    txn := db[DataKey(queue, meta.tail) := value];
    meta := meta.(tail := (meta.tail + 1) % TWO_64);
    txn := SetMetadata(txn, queue, meta);
  }

  lemma HeadAndTail(db: Store, queue: Bytes)
    requires LegacyValid(db)
    ensures QueueValid(db, queue) && MetadataOf(db, queue).head <= MetadataOf(db, queue).tail && SameAck(db, db)
  {
    assert QueueValid(db, queue);
  }

  /** Takes the first item out, or reports an empty queue. */
  method PopItemTransaction(db: Store, queue: Bytes) returns (txn: Store, r: Result<Bytes>)
    requires LegacyValid(db)
    ensures SameAck(db, txn) && LegacyValid(txn)
    ensures r == if Contents(db, queue) == [] then Failure(QueueEmpty) else Success(Contents(db, queue)[0])
    ensures Contents(txn, queue) == if r.Success? then Contents(db, queue)[1..] else Contents(db, queue)
    ensures forall q :: q != queue ==> Contents(txn, q) == Contents(db, q)
  {
    hide SameAck, MetadataBytes, DataKey, MetadataKey, MetadataOf, Contents, LegacyValid, QueueValid;
    txn := db;
    HeadAndTail(db, queue);
    var meta := GetMetadata(db, queue);
    if meta.head >= meta.tail {
      return txn, Failure(QueueEmpty);
    }
    PopTakesFirst(db, queue);
    var itemKey := DataKey(queue, meta.head);
    var value := db[itemKey];
    txn := txn - {itemKey};
    meta := meta.(head := (meta.head + 1) % TWO_64);
    txn := SetMetadata(txn, queue, meta);
    r := Success(value);
  }

  method ClearTransaction(db: Store, queue: Bytes) returns (txn: Store)
    requires LegacyValid(db)
    ensures SameAck(db, txn) && LegacyValid(txn) && Contents(txn, queue) == []
    ensures forall r :: r != queue ==> Contents(txn, r) == Contents(db, r)
  {
    hide DataKey, MetadataKey, MetadataOf, MetadataBytes, SameAck;
    assert QueueValid(db, queue);
    var meta := GetMetadata(db, queue);
    txn := db;
    var i := meta.head;
    while i < meta.tail
      invariant meta.head <= i <= meta.tail
      invariant forall k :: IsItemKey(queue, k) || SameAt(db, txn, k)
      invariant forall n :: 0 <= n < TWO_64 ==> (DataKey(queue, n) in txn <==> i <= n < meta.tail)
    {
      var itemKey := DataKey(queue, i);
      assert IsItemKey(queue, itemKey);
      forall n | 0 <= n < TWO_64
        ensures DataKey(queue, n) == itemKey <==> n == i
      {
        DataKeyInjective(queue, n, queue, i);
      }
      txn := txn - {itemKey};
      i := i + 1;
    }
    ClearEmpties(db, txn, queue);
    txn := SetMetadata(txn, queue, Metadata(0, 0));
  }

  // ---------- the transactions ----------

  /** What an operation on one message answers. */
  function AddressResult(s: AckState, queue: Bytes, id: Bytes): Result<()> {
    if queue == [] || id == [] then Failure(InvalidQueue)
    else if (queue, id) !in s.msgs then Failure(MessageNotFound)
    else Success(())
  }

  /** A pop answers with the message it leased, or says why there is none. */
  predicate PopResult(s: AckState, queue: Bytes, consumer: Bytes, timeout: Int64, now: Int64, r: Result<QueueMessage>) {
    match NextPending(s, queue)
    case Failure(e) => r == Failure(e)
    case Success(id) => (queue, id) in s.msgs && r == Success(Leased(s.msgs[(queue, id)], consumer, timeout, now))
  }

  /** The message under a key of the store, decoded. */
  method Load(txn: Store, ghost s: AckState, queue: Bytes, id: Bytes) returns (m: QueueMessage)
    requires Represents(txn, s) && ColonFree(queue) && MessageKey(queue, id) in txn
    ensures (queue, id) in s.msgs && m == s.msgs[(queue, id)]
    ensures m.id == id && MessageFits(m) && m.state in {STATE_PENDING, STATE_IN_FLIGHT}
  {
    hide ParseMessage, Represents, MessageBytes, MessageKey, MessageFits;
    StoredMessage(txn, s, queue, id);
    var decoded := DecodeQueueMessage(txn[MessageKey(queue, id)]);
    m := decoded.value;
  }

  method PushTransaction(db: Store, ghost s: AckState, queue: Bytes, id: Bytes, value: Bytes, now: Int64)
    returns (txn: Store)
    requires Represents(db, s)
    requires queue != [] && ColonFree(queue) && |value| < TWO_32 && |id| < TWO_16 && (queue, id) !in s.msgs
    ensures Represents(txn, Push(s, queue, id, value, now)) && SameLegacy(db, txn)
  {
    hide MessageKey, IndexKey, MessageBytes, Represents, SameLegacy;
    var msg := FreshMessage(id, value, 0, now);
    var data := EncodeQueueMessage(msg);
    txn := db[MessageKey(queue, id) := data];
    txn := txn[IndexKey(queue, STATE_PENDING, id) := PRESENT];
    InsertTransaction(db, s, queue, msg);
  }

  method PopTransaction(db: Store, ghost s: AckState, queue: Bytes, consumer: Bytes, timeout: Int64, now: Int64)
    returns (txn: Store, r: Result<QueueMessage>)
    requires Represents(db, s) && queue != [] && ColonFree(queue) && |consumer| < TWO_16
    ensures Represents(txn, Pop(s, queue, consumer, timeout, now)) && SameLegacy(db, txn)
    ensures PopResult(s, queue, consumer, timeout, now, r)
    ensures PopOn(db, queue, consumer, timeout, now) ==
            match r
            case Success(m) => Popped(txn, m)
            case Failure(error) => Refused(error)
  {
    hide MessageKey, IndexKey, IndexPrefix, Scan, MessageBytes, Represents, SameLegacy;
    txn := db;
    SameLegacyReflexive(db);
    var prefix := IndexPrefix(queue, STATE_PENDING);
    var keys := Scan(txn, prefix, prefix);
    FirstOfIndex(db, s, queue, STATE_PENDING);
    if |keys| == 0 {
      return txn, Failure(QueueEmpty);
    }
    var id := keys[0][|prefix|..];
    NextPendingIsPending(s, queue);
    StoredMessage(db, s, queue, id);
    var msg := Load(txn, s, queue, id);
    ghost var pending := msg;
    msg := msg.(state := STATE_IN_FLIGHT);
    msg := msg.(consumerId := consumer);
    msg := msg.(inFlightAt := now);
    msg := msg.(visibilityTimeout := timeout);
    msg := msg.(deliveryCount := msg.deliveryCount + 1);
    assert msg == Leased(pending, consumer, timeout, now);
    hide Leased, IdsIn;
    var data := EncodeQueueMessage(msg);
    WrappedCount(msg);
    txn := txn[MessageKey(queue, id) := data];
    txn := txn - {IndexKey(queue, STATE_PENDING, id)};
    txn := txn[IndexKey(queue, STATE_IN_FLIGHT, id) := PRESENT];
    RewriteTransaction(db, s, queue, STATE_PENDING, Stored(msg), data);
    r := Success(msg);
  }

  method AckTransaction(db: Store, ghost s: AckState, queue: Bytes, id: Bytes) returns (txn: Store, r: Result<()>)
    requires Represents(db, s) && queue != [] && ColonFree(queue) && id != []
    ensures Represents(txn, Ack(s, queue, id)) && SameLegacy(db, txn)
    ensures r == AddressResult(s, queue, id)
  {
    hide MessageKey, IndexKey, MessageBytes, Represents, SameLegacy;
    txn := db;
    SameLegacyReflexive(db);
    StoredMessage(db, s, queue, id);
    var msgKey := MessageKey(queue, id);
    if msgKey !in txn {
      return txn, Failure(MessageNotFound);
    }
    var msg := Load(txn, s, queue, id);
    txn := txn - {msgKey};
    txn := txn - {IndexKey(queue, msg.state, id)};
    EraseTransaction(db, s, queue, msg);
    r := Success(());
  }

  method NackTransaction(db: Store, ghost s: AckState, queue: Bytes, id: Bytes, requeue: bool, newId: Bytes, now: Int64,
                         cfg: QueueConfig)
    returns (txn: Store, r: Result<()>)
    requires Represents(db, s) && queue != [] && ColonFree(queue) && id != []
    requires |newId| < TWO_16 && forall a :: a in s.msgs ==> a.1 != newId
    requires cfg == ConfigOf(s, queue)
    ensures Represents(txn, Nack(s, queue, id, requeue, newId, now)) && SameLegacy(db, txn)
    ensures r == AddressResult(s, queue, id)
  {
    hide MessageKey, IndexKey, MessageBytes, Represents, SameLegacy;
    txn := db;
    SameLegacyReflexive(db);
    StoredMessage(db, s, queue, id);
    StoredConfig(db, s, queue);
    var msgKey := MessageKey(queue, id);
    if msgKey !in txn {
      return txn, Failure(MessageNotFound);
    }
    var msg := Load(txn, s, queue, id);
    r := Success(());
    if msg.deliveryCount >= cfg.maxRetries && cfg.maxRetries > 0 {
      if cfg.deadLetterQueue != [] {
        txn := MoveToDeadLetter(txn, s, queue, cfg.deadLetterQueue, msg, newId, now);
        return;
      }
      txn := txn - {msgKey};
      txn := txn - {IndexKey(queue, msg.state, id)};
      EraseTransaction(db, s, queue, msg);
      return;
    }
    if !requeue {
      txn := txn - {msgKey};
      txn := txn - {IndexKey(queue, msg.state, id)};
      EraseTransaction(db, s, queue, msg);
      return;
    }
    txn := RequeueInStore(txn, s, queue, msg);
  }

  /** Rewrites a message as pending and moves its index entry. */
  method RequeueInStore(db: Store, ghost s: AckState, queue: Bytes, m: QueueMessage) returns (txn: Store)
    requires Represents(db, s) && ColonFree(queue)
    requires (queue, m.id) in s.msgs && s.msgs[(queue, m.id)] == m && MessageFits(m)
    ensures Represents(txn, PutMessage(s, queue, Requeued(m))) && SameLegacy(db, txn)
  {
    hide MessageKey, IndexKey, MessageBytes, Represents, SameLegacy;
    var oldState := m.state;
    var msg := m.(state := STATE_PENDING);
    msg := msg.(consumerId := []);
    msg := msg.(inFlightAt := 0);
    var data := EncodeQueueMessage(msg);
    txn := db[MessageKey(queue, m.id) := data];
    txn := txn - {IndexKey(queue, oldState, m.id)};
    txn := txn[IndexKey(queue, STATE_PENDING, m.id) := PRESENT];
    RewriteTransaction(db, s, queue, oldState, msg, data);
  }

  method MoveToDeadLetter(db: Store, ghost s: AckState, source: Bytes, dlq: Bytes, msg: QueueMessage, newId: Bytes,
                          now: Int64)
    returns (txn: Store)
    requires Represents(db, s) && ColonFree(source) && ColonFree(dlq)
    requires (source, msg.id) in s.msgs && s.msgs[(source, msg.id)] == msg && MessageFits(msg)
    requires |newId| < TWO_16 && forall a :: a in s.msgs ==> a.1 != newId
    ensures Represents(txn, PutMessage(RemoveMessage(s, source, msg.id), dlq,
                                       FreshMessage(newId, msg.value, msg.deliveryCount, now)))
    ensures SameLegacy(db, txn)
  {
    hide MessageKey, IndexKey, MessageBytes, Represents, SameLegacy;
    EraseTransaction(db, s, source, msg);
    txn := db - {MessageKey(source, msg.id)};
    txn := txn - {IndexKey(source, msg.state, msg.id)};
    ghost var erased := txn;
    var dlqMsg := FreshMessage(newId, msg.value, msg.deliveryCount, now);
    InsertTransaction(txn, RemoveMessage(s, source, msg.id), dlq, dlqMsg);
    var data := EncodeQueueMessage(dlqMsg);
    txn := txn[MessageKey(dlq, newId) := data];
    txn := txn[IndexKey(dlq, STATE_PENDING, newId) := PRESENT];
    SameLegacyTransitive(db, erased, txn);
  }

  /** The state after the expired messages with the given ids have been requeued. */
  function RequeueIds(s: AckState, queue: Bytes, ids: seq<Bytes>): AckState {
    s.(msgs := map a | a in s.msgs :: if a.0 == queue && a.1 in ids then Requeued(s.msgs[a]) else s.msgs[a])
  }

  method SweepTransaction(db: Store, ghost s: AckState, queue: Bytes, now: Int64) returns (txn: Store, count: nat)
    requires Represents(db, s) && queue != [] && ColonFree(queue)
    ensures Represents(txn, Sweep(s, queue, now)) && SameLegacy(db, txn)
    ensures count == |set a | a in s.msgs && RunOut(s, queue, a, now)|
  {
    hide MessageKey, IndexKey, MessageBytes, Represents, SameLegacy;
    hide Sweepable, RunOut, Distinct, MessageFits, WellFormed, WrapInt64, Signed64;
    RepresentedIsWellFormed(db, s);
    txn := db;
    var expired := FindExpired(txn, s, queue, now);
    SameLegacyReflexive(db);
    RequeueNone(s, queue);
    hide RequeueIds, PutMessage, Requeued, Sweep;
    count := 0;
    while count < |expired|
      invariant count <= |expired|
      invariant Represents(txn, RequeueIds(s, queue, expired[..count])) && SameLegacy(db, txn)
    {
      ghost var before := txn;
      txn := RequeueOne(txn, s, queue, now, expired, count);
      SameLegacyTransitive(db, before, txn);
      count := count + 1;
    }
    assert expired[..count] == expired;
    RequeueAll(s, queue, expired, now);
    CountSwept(s, queue, now, expired);
  }

  /** The second pass of a sweep, for one of the messages found. */
  method RequeueOne(db: Store, ghost s: AckState, queue: Bytes, ghost now: Int64, expired: seq<Bytes>, k: nat)
    returns (txn: Store)
    requires WellFormed(s) && ColonFree(queue) && k < |expired| && Distinct(expired)
    requires forall id :: id in expired ==> Sweepable(s, queue, (queue, id), now)
    requires Represents(db, RequeueIds(s, queue, expired[..k]))
    ensures Represents(txn, RequeueIds(s, queue, expired[..k + 1])) && SameLegacy(db, txn)
  {
    hide MessageKey, IndexKey, MessageBytes, Represents, SameLegacy;
    hide Sweepable, Distinct, MessageFits, WellFormed, RequeueIds, PutMessage, Requeued;
    ghost var cur := RequeueIds(s, queue, expired[..k]);
    var id := expired[k];
    RequeueNext(s, queue, expired, k, now);
    StoredMessage(db, cur, queue, id);
    var msg := Load(db, cur, queue, id);
    txn := RequeueInStore(db, cur, queue, msg);
  }

  lemma CountSwept(s: AckState, queue: Bytes, now: Int64, ids: seq<Bytes>)
    requires Distinct(ids)
    requires forall id :: id in ids <==> Sweepable(s, queue, (queue, id), now)
    ensures |ids| == |set a | a in s.msgs && RunOut(s, queue, a, now)|
  {
    hide Sweepable, RunOut;
    CountExpired(s, queue, now, ids);
    SweptAreRunOut(s, queue, now);
  }

  lemma RepresentedIsWellFormed(db: Store, s: AckState)
    requires Represents(db, s)
    ensures WellFormed(s)
  {
  }

  lemma SweptAreRunOut(s: AckState, queue: Bytes, now: Int64)
    ensures (set a | a in s.msgs && Sweepable(s, queue, a, now)) == set a | a in s.msgs && RunOut(s, queue, a, now)
  {
  }

  lemma RequeueNone(s: AckState, queue: Bytes)
    ensures RequeueIds(s, queue, []) == s
  {
  }

  /** Requeueing the next expired message extends the part of the sweep that is done. */
  lemma RequeueNext(s: AckState, queue: Bytes, ids: seq<Bytes>, k: nat, now: Int64)
    requires WellFormed(s) && k < |ids|
    requires Distinct(ids)
    requires forall id :: id in ids ==> Sweepable(s, queue, (queue, id), now)
    ensures var cur := RequeueIds(s, queue, ids[..k]);
            && (queue, ids[k]) in cur.msgs
            && PutMessage(cur, queue, Requeued(cur.msgs[(queue, ids[k])])) == RequeueIds(s, queue, ids[..k + 1])
  {
    assert ids[k] in ids;
    assert ids[..k + 1] == ids[..k] + [ids[k]];
  }

  lemma RequeueAll(s: AckState, queue: Bytes, ids: seq<Bytes>, now: Int64)
    requires queue != [] && forall id :: id in ids <==> Sweepable(s, queue, (queue, id), now)
    ensures RequeueIds(s, queue, ids) == Sweep(s, queue, now)
  {
    forall a | a in s.msgs
      ensures a.0 == queue && a.1 in ids <==> Sweepable(s, queue, a, now)
    {
      assert a == (a.0, a.1);
    }
  }

  lemma CountExpired(s: AckState, queue: Bytes, now: Int64, ids: seq<Bytes>)
    requires Distinct(ids)
    requires forall id :: id in ids <==> Sweepable(s, queue, (queue, id), now)
    ensures |ids| == |set a | a in s.msgs && Sweepable(s, queue, a, now)|
  {
    var swept := set a | a in s.msgs && Sweepable(s, queue, a, now);
    PairsOfDistinct(queue, ids);
    assert swept == set id | id in ids :: (queue, id);
  }

  lemma {:induction false} PairsOfDistinct(queue: Bytes, ids: seq<Bytes>)
    requires Distinct(ids)
    ensures |set id | id in ids :: (queue, id)| == |ids|
  {
    if ids != [] {
      var init, last := ids[..|ids| - 1], ids[|ids| - 1];
      PairsOfDistinct(queue, init);
      assert ids == init + [last] && last !in init;
      assert (set id | id in ids :: (queue, id)) == (set id | id in init :: (queue, id)) + {(queue, last)};
    }
  }

  method HasExpired(txn: Store, ghost s: AckState, queue: Bytes, id: Bytes, now: Int64) returns (expired: bool)
    requires Represents(txn, s) && ColonFree(queue) && id in IdsIn(s, queue, STATE_IN_FLIGHT)
    ensures expired <==> ExpiredAt(s, queue, id, now)
  {
    hide MessageKey, Represents, MessageBytes, MessageFits;
    InIndex(s, queue, STATE_IN_FLIGHT, id);
    StoredMessage(txn, s, queue, id);
    var msg := Load(txn, s, queue, id);
    expired := Expired(msg, now);
  }

  /** The first pass of a sweep: the in-flight messages whose lease has run out. */
  method FindExpired(txn: Store, ghost s: AckState, queue: Bytes, now: Int64) returns (expired: seq<Bytes>)
    requires Represents(txn, s) && ColonFree(queue)
    ensures Distinct(expired)
    ensures forall id :: id in expired <==> Sweepable(s, queue, (queue, id), now)
    ensures forall id :: id in expired <==>
              && (queue, id) in s.msgs && s.msgs[(queue, id)].state == STATE_IN_FLIGHT
              && s.msgs[(queue, id)].visibilityTimeout > 0
              && WrapInt64(s.msgs[(queue, id)].inFlightAt + s.msgs[(queue, id)].visibilityTimeout) < now
  {
    SweepableIs(s, queue, now);
    hide MessageKey, IndexKey, IndexPrefix, MessageBytes, Represents, Scan;
    var prefix := IndexPrefix(queue, STATE_IN_FLIGHT);
    var keys := Scan(txn, prefix, prefix);
    ghost var ids := ScannedIds(txn, s, queue, STATE_IN_FLIGHT);
    hide IdsIn, Ascending, ExpiredAt, Expired, Sweepable, Distinct, MessageFits;
    expired := [];
    ExpiredIdsNone(s, queue, now);
    var i := 0;
    while i < |keys|
      invariant i <= |keys|
      invariant expired == ExpiredIds(s, queue, ids[..i], now)
    {
      var id := keys[i][|prefix|..];
      assert id == ids[i] && ids[i] in ids && ids[..i + 1] == ids[..i] + [id];
      var gone := HasExpired(txn, s, queue, id, now);
      ExpiredIdsNext(s, queue, ids[..i], id, now);
      if gone {
        expired := expired + [id];
      }
      i := i + 1;
    }
    assert ids[..i] == ids;
    ExpiredIdsExact(s, queue, ids, now);
  }

  lemma SweepableIs(s: AckState, queue: Bytes, now: Int64)
    ensures forall id :: Sweepable(s, queue, (queue, id), now) <==>
              && (queue, id) in s.msgs && s.msgs[(queue, id)].state == STATE_IN_FLIGHT
              && s.msgs[(queue, id)].visibilityTimeout > 0
              && WrapInt64(s.msgs[(queue, id)].inFlightAt + s.msgs[(queue, id)].visibilityTimeout) < now
  {
  }

  /** The leased messages among `ids` whose lease has run out, in order. */
  function ExpiredIds(s: AckState, queue: Bytes, ids: seq<Bytes>, now: Int64): seq<Bytes> {
    if ids == [] then []
    else
      var before, last := ExpiredIds(s, queue, ids[..|ids| - 1], now), ids[|ids| - 1];
      if ExpiredAt(s, queue, last, now) then before + [last] else before
  }

  lemma ExpiredIdsNone(s: AckState, queue: Bytes, now: Int64)
    ensures ExpiredIds(s, queue, [], now) == []
  {
  }

  lemma ExpiredIdsNext(s: AckState, queue: Bytes, init: seq<Bytes>, id: Bytes, now: Int64)
    ensures ExpiredIds(s, queue, init + [id], now) ==
            if ExpiredAt(s, queue, id, now) then ExpiredIds(s, queue, init, now) + [id]
            else ExpiredIds(s, queue, init, now)
  {
    assert (init + [id])[..|init|] == init;
  }

  lemma {:induction false} ExpiredIdsFilter(s: AckState, queue: Bytes, ids: seq<Bytes>, now: Int64)
    requires Distinct(ids)
    ensures forall id :: id in ExpiredIds(s, queue, ids, now) <==> id in ids && ExpiredAt(s, queue, id, now)
    ensures Distinct(ExpiredIds(s, queue, ids, now))
  {
    if ids != [] {
      var init, last := ids[..|ids| - 1], ids[|ids| - 1];
      ExpiredIdsFilter(s, queue, init, now);
      assert ids == init + [last] && last !in init;
      var e := ExpiredIds(s, queue, init, now);
      assert last !in e;
      DistinctSnoc(e, last);
    }
  }

  lemma ExpiredIdsExact(s: AckState, queue: Bytes, ids: seq<Bytes>, now: Int64)
    requires Ascending(ids) && forall id :: id in ids <==> id in IdsIn(s, queue, STATE_IN_FLIGHT)
    ensures var e := ExpiredIds(s, queue, ids, now);
            && Distinct(e)
            && forall id :: id in e <==> Sweepable(s, queue, (queue, id), now)
  {
    AscendingDistinct(ids);
    ExpiredIdsFilter(s, queue, ids, now);
    forall id
      ensures id in ids && ExpiredAt(s, queue, id, now) <==> Sweepable(s, queue, (queue, id), now)
    {
      InIndex(s, queue, STATE_IN_FLIGHT, id);
    }
  }

  lemma DistinctSnoc(ids: seq<Bytes>, id: Bytes)
    requires Distinct(ids) && id !in ids
    ensures Distinct(ids + [id])
  {
    forall i | 0 <= i < |ids|
      ensures ids[i] != id
    {
      assert ids[i] in ids;
    }
  }

  predicate ExpiredAt(s: AckState, queue: Bytes, id: Bytes, now: Int64) {
    (queue, id) in s.msgs && Expired(s.msgs[(queue, id)], now)
  }

  lemma InIndex(s: AckState, queue: Bytes, state: int, id: Bytes)
    ensures id in IdsIn(s, queue, state) <==> (queue, id) in s.msgs && s.msgs[(queue, id)].state == state
  {
  }

  /** The stored form of a message whose count has outgrown 32 bits is that of the wrapped count. */
  lemma WrappedCount(m: QueueMessage)
    ensures MessageBytes(m) == MessageBytes(m.(deliveryCount := m.deliveryCount % TWO_32))
  {
    SameLow32(m.deliveryCount, m.deliveryCount % TWO_32);
  }
}

/** The queue that the server and the Go package offer on top of the storage. */
module QueueFacade {
  import opened ByteStrings
  import opened Decimal
  import opened QueueCodec
  import opened AckQueue
  import opened AckStore
  import opened QueueStore
  import opened AckLaws

  class Queue {
    const storage: QueueStorage

    /** Whatever has been called so far, nothing has ever reached the first-in first-out store. */
    ghost predicate Valid()
      reads this, storage
    {
      storage.Valid() && forall q :: storage.Items(q) == []
    }

    constructor ()
      ensures Valid() && fresh(storage) && storage.acks == Empty
    {
      storage := new QueueStorage();
    }

    /** Writes the acknowledging store. */
    method Push(queue: Bytes, value: Bytes, id: Bytes, now: Int64) returns (r: Result<Bytes>)
      requires Valid() && ColonFree(queue) && |value| < TWO_32 && |id| < TWO_16 && (queue, id) !in storage.acks.msgs
      modifies storage
      ensures Valid() && storage.acks == AckQueue.Push(old(storage.acks), queue, id, value, now)
      ensures Pushed(old(storage.acks), queue, id, value, now, storage.acks)
      ensures r == if queue == [] then Failure(InvalidQueue) else Success(id)
    {
      r := storage.PushMessage(queue, value, id, now);
    }

    /** Reads the other store: it never finds what Push has stored, however often that was called. */
    method Pop(queue: Bytes) returns (r: Result<Bytes>)
      requires Valid()
      modifies storage
      ensures Valid() && storage.acks == old(storage.acks)
      ensures r == Failure(if queue == [] then InvalidQueue else QueueEmpty)
    {
      r := storage.Pop(queue);
    }

    /** Reads the store that Push writes. */
    method PopMessage(queue: Bytes, consumer: Bytes, timeout: Int64, now: Int64) returns (r: Result<QueueMessage>)
      requires Valid() && ColonFree(queue) && |consumer| < TWO_16
      modifies storage
      ensures Valid() && storage.acks == AckQueue.Pop(old(storage.acks), queue, consumer, timeout, now)
      ensures PopResult(old(storage.acks), queue, consumer, timeout, now, r)
      ensures Popped(old(storage.acks), queue, consumer, timeout, now, r, storage.acks)
    {
      r := storage.PopMessage(queue, consumer, timeout, now);
    }
  }
}
