/** The first-in first-out queue: what a store says the contents of a queue are. */
module LegacyQueue {
  import opened ByteStrings
  import opened Decimal
  import opened Keys

  type Store = map<Bytes, Bytes>

  datatype Metadata = Metadata(head: nat, tail: nat)

  const MAX_POSITION: int := TWO_64 - 1

  function MetadataBytes(m: Metadata): Bytes {
    U64(m.head) + U64(m.tail)
  }

  /** Missing metadata, and metadata of the wrong length, mean an empty queue. */
  function MetadataOf(db: Store, queue: Bytes): (m: Metadata)
    ensures m.head < TWO_64 && m.tail < TWO_64
  {
    if MetadataKey(queue) in db && |db[MetadataKey(queue)]| == 16 then
      Metadata(GetU64(db[MetadataKey(queue)], 0), GetU64(db[MetadataKey(queue)], 8))
    else Metadata(0, 0)
  }

  lemma MetadataReadBack(db: Store, queue: Bytes, m: Metadata)
    requires MetadataKey(queue) in db && db[MetadataKey(queue)] == MetadataBytes(m)
    requires m.head < TWO_64 && m.tail < TWO_64
    ensures MetadataOf(db, queue) == m
  {
    hide U64, GetU64;
    var b := MetadataBytes(m);
    assert b[0..8] == U64(m.head) && b[8..16] == U64(m.tail);
    ReadU64(b, 0, m.head);
    ReadU64(b, 8, m.tail);
  }

  /** Head does not pass tail, and exactly the positions from head up to tail hold an item. */
  ghost predicate QueueValid(db: Store, queue: Bytes) {
    var m := MetadataOf(db, queue);
    && m.head <= m.tail
    && forall n :: 0 <= n < TWO_64 ==> (DataKey(queue, n) in db <==> m.head <= n < m.tail)
  }

  ghost predicate LegacyValid(db: Store) {
    forall queue :: QueueValid(db, queue)
  }

  function Contents(db: Store, queue: Bytes): (items: seq<Bytes>)
    requires QueueValid(db, queue)
    ensures |items| == MetadataOf(db, queue).tail - MetadataOf(db, queue).head
  {
    var m := MetadataOf(db, queue);
    seq(m.tail - m.head, i requires 0 <= i < m.tail - m.head => db[DataKey(queue, m.head + i)])
  }

  // ---------- frames ----------

  predicate SameAt(db: Store, db': Store, k: Bytes) {
    (k in db <==> k in db') && (k in db ==> db[k] == db'[k])
  }

  ghost predicate IsItemKey(queue: Bytes, k: Bytes) {
    exists n :: 0 <= n < TWO_64 && k == DataKey(queue, n)
  }

  /** The stores differ at most in the metadata and the items of one queue. */
  ghost predicate TouchesOnly(db: Store, db': Store, queue: Bytes) {
    forall k :: k == MetadataKey(queue) || IsItemKey(queue, k) || SameAt(db, db', k)
  }

  /** Two stores agree on the first-in first-out queues. */
  ghost predicate SameLegacy(db: Store, db': Store) {
    forall k :: LegacyFamily(k) ==> SameAt(db, db', k)
  }

  /** Two stores agree on the acknowledging queues. */
  ghost predicate SameAck(db: Store, db': Store) {
    forall k :: AckFamily(k) ==> SameAt(db, db', k)
  }

  lemma QueueKeysAreLegacy(queue: Bytes)
    ensures LegacyFamily(MetadataKey(queue))
    ensures forall n :: 0 <= n < TWO_64 ==> LegacyFamily(DataKey(queue, n))
  {
  }

  lemma DataIsNotMetadata(queue: Bytes, n: int, r: Bytes)
    requires 0 <= n < TWO_64
    ensures DataKey(queue, n) != MetadataKey(r)
  {
    FamiliesApart(DataKey(queue, n));
  }

  lemma UntouchedQueue(db: Store, db': Store, queue: Bytes)
    requires QueueValid(db, queue)
    requires SameAt(db, db', MetadataKey(queue))
    requires forall n :: 0 <= n < TWO_64 ==> SameAt(db, db', DataKey(queue, n))
    ensures QueueValid(db', queue) && Contents(db', queue) == Contents(db, queue)
  {
  }

  /** What leaves the legacy families alone leaves every queue's contents alone. */
  lemma LegacyFrame(db: Store, db': Store)
    requires LegacyValid(db) && SameLegacy(db, db')
    ensures LegacyValid(db')
    ensures forall queue :: Contents(db', queue) == Contents(db, queue)
  {
    forall queue
      ensures QueueValid(db', queue) && Contents(db', queue) == Contents(db, queue)
    {
      assert QueueValid(db, queue);
      QueueKeysAreLegacy(queue);
      UntouchedQueue(db, db', queue);
    }
  }

  /** What changes only the keys of one queue leaves every other queue alone. */
  lemma OtherQueues(db: Store, db': Store, queue: Bytes)
    requires LegacyValid(db)
    requires TouchesOnly(db, db', queue)
    ensures forall r :: r != queue ==> QueueValid(db', r) && Contents(db', r) == Contents(db, r)
  {
    hide MetadataKey, DataKey, MetadataOf;
    forall r | r != queue
      ensures QueueValid(db', r) && Contents(db', r) == Contents(db, r)
    {
      assert QueueValid(db, r);
      MetadataKeyInjective(queue, r);
      forall n | 0 <= n < TWO_64
        ensures SameAt(db, db', DataKey(r, n))
      {
        DataIsNotMetadata(r, n, queue);
        forall m | 0 <= m < TWO_64
          ensures DataKey(queue, m) != DataKey(r, n)
        {
          DataKeyInjective(queue, m, r, n);
        }
      }
      assert SameAt(db, db', MetadataKey(r)) by {
        forall m | 0 <= m < TWO_64
          ensures DataKey(queue, m) != MetadataKey(r)
        {
          DataIsNotMetadata(queue, m, r);
        }
      }
      UntouchedQueue(db, db', r);
    }
  }

  // ---------- one step on each operation's store ----------

  function PushStore(db: Store, queue: Bytes, value: Bytes): Store {
    var m := MetadataOf(db, queue);
    db[DataKey(queue, m.tail) := value]
      [MetadataKey(queue) := MetadataBytes(Metadata(m.head, (m.tail + 1) % TWO_64))]
  }

  function PopStore(db: Store, queue: Bytes): Store {
    var m := MetadataOf(db, queue);
    (db - {DataKey(queue, m.head)})[MetadataKey(queue) := MetadataBytes(Metadata((m.head + 1) % TWO_64, m.tail))]
  }

  lemma LegacyStep(db: Store, db': Store, queue: Bytes, m: Metadata)
    requires TouchesOnly(db, db', queue)
    requires MetadataKey(queue) in db' && db'[MetadataKey(queue)] == MetadataBytes(m)
    requires m.head < TWO_64 && m.tail < TWO_64
    ensures MetadataOf(db', queue) == m && SameAck(db, db')
  {
    MetadataReadBack(db', queue, m);
    forall k | AckFamily(k)
      ensures SameAt(db, db', k)
    {
      FamiliesApart(k);
      QueueKeysAreLegacy(queue);
    }
  }

  ghost predicate KeepsQueue(db: Store, db': Store, queue: Bytes)
    requires QueueValid(db, queue)
  {
    QueueValid(db', queue) && Contents(db', queue) == Contents(db, queue)
  }

  /** What a push at the last position leaves: all items are stored, the new one in the last place, but the
      tail has wrapped around to 0, where head is not below it, so that the queue reads as empty. */
  ghost predicate WrappedAround(db: Store, db': Store, queue: Bytes, value: Bytes)
    requires LegacyValid(db)
  {
    var head := MetadataOf(db, queue).head;
    && MetadataOf(db', queue) == Metadata(head, 0)
    && (forall n :: 0 <= n < TWO_64 ==> (DataKey(queue, n) in db' <==> head <= n))
    && (forall n :: head <= n < MAX_POSITION ==> SameAt(db, db', DataKey(queue, n)))
    && DataKey(queue, MAX_POSITION) in db' && db'[DataKey(queue, MAX_POSITION)] == value
    && (forall r :: r != queue ==> KeepsQueue(db, db', r))
  }

  /** Below overflow a push appends; at the last position it wraps around. */
  lemma PushAppends(db: Store, queue: Bytes, value: Bytes)
    requires LegacyValid(db)
    ensures var db' := PushStore(db, queue, value);
            && SameAck(db, db')
            && (MetadataOf(db, queue).tail < MAX_POSITION ==>
                  LegacyValid(db') && Contents(db', queue) == Contents(db, queue) + [value]
                  && forall r :: r != queue ==> Contents(db', r) == Contents(db, r))
            && (MetadataOf(db, queue).tail == MAX_POSITION ==> WrappedAround(db, db', queue, value))
  {
    hide MetadataKey, DataKey, MetadataBytes, MetadataOf, SameAck;
    assert QueueValid(db, queue);
    var m := MetadataOf(db, queue);
    var db' := PushStore(db, queue, value);
    var m' := Metadata(m.head, (m.tail + 1) % TWO_64);
    DataIsNotMetadata(queue, m.tail, queue);
    LegacyStep(db, db', queue, m');
    forall n | 0 <= n < TWO_64
      ensures DataKey(queue, n) in db' <==> m.head <= n <= m.tail
      ensures DataKey(queue, n) in db' ==>
                db'[DataKey(queue, n)] == if n == m.tail then value else db[DataKey(queue, n)]
    {
      DataKeyInjective(queue, n, queue, m.tail);
      DataIsNotMetadata(queue, n, queue);
    }
    OtherQueues(db, db', queue);
  }

  /** A pop takes the first item. */
  lemma PopTakesFirst(db: Store, queue: Bytes)
    requires LegacyValid(db) && Contents(db, queue) != []
    ensures DataKey(queue, MetadataOf(db, queue).head) in db
    ensures db[DataKey(queue, MetadataOf(db, queue).head)] == Contents(db, queue)[0]
    ensures var db' := PopStore(db, queue);
            && SameAck(db, db')
            && LegacyValid(db') && Contents(db', queue) == Contents(db, queue)[1..]
            && forall r :: r != queue ==> Contents(db', r) == Contents(db, r)
  {
    hide MetadataKey, DataKey, MetadataBytes, MetadataOf, SameAck;
    assert QueueValid(db, queue);
    var m := MetadataOf(db, queue);
    var db' := PopStore(db, queue);
    var m' := Metadata(m.head + 1, m.tail);
    DataIsNotMetadata(queue, m.head, queue);
    LegacyStep(db, db', queue, m');
    forall n | 0 <= n < TWO_64
      ensures DataKey(queue, n) in db' <==> m'.head <= n < m'.tail
      ensures DataKey(queue, n) in db' ==> db'[DataKey(queue, n)] == db[DataKey(queue, n)]
    {
      DataKeyInjective(queue, n, queue, m.head);
      DataIsNotMetadata(queue, n, queue);
    }
    OtherQueues(db, db', queue);
  }

  /** Deleting every item and resetting the metadata empties the queue. */
  lemma ClearEmpties(db: Store, cleared: Store, queue: Bytes)
    requires LegacyValid(db)
    requires forall k :: IsItemKey(queue, k) || SameAt(db, cleared, k)
    requires forall n :: 0 <= n < TWO_64 ==> DataKey(queue, n) !in cleared
    ensures var db' := cleared[MetadataKey(queue) := MetadataBytes(Metadata(0, 0))];
            && SameAck(db, db')
            && LegacyValid(db') && Contents(db', queue) == []
            && forall r :: r != queue ==> Contents(db', r) == Contents(db, r)
  {
    hide MetadataKey, DataKey, MetadataBytes, MetadataOf, SameAck;
    var db' := cleared[MetadataKey(queue) := MetadataBytes(Metadata(0, 0))];
    assert TouchesOnly(db, db', queue) by {
      forall k | k != MetadataKey(queue) && !IsItemKey(queue, k)
        ensures SameAt(db, db', k)
      {
        assert SameAt(db, cleared, k);
      }
    }
    LegacyStep(db, db', queue, Metadata(0, 0));
    forall n | 0 <= n < TWO_64
      ensures DataKey(queue, n) !in db'
    {
      DataIsNotMetadata(queue, n, queue);
    }
    OtherQueues(db, db', queue);
  }
}
