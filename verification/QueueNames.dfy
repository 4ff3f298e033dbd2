/** The acknowledging queue at the level of keys, for queue names that contain ':'.  The entries of queue q:0
    lie inside the scan of the pending entries of queue q, which takes everything after its prefix for an id. */
module QueueNames {
  import opened ByteStrings
  import opened OrderedStore
  import opened Decimal
  import opened Keys
  import opened QueueCodec
  import opened AckQueue
  import opened LegacyQueue
  import opened AckStore

  datatype KeyPop =
    | Popped(db: Store, m: QueueMessage)
    | Refused(error: AckError)
    | NoSuchMessage
    | Undecodable

  /** The keys that a message's lease moves: its record is rewritten, its entry goes from pending to in flight,
      both under the name and the id that the pop took them for. */
  function LeaseKeys(db: Store, queue: Bytes, id: Bytes, m: QueueMessage): Store {
    (db[MessageKey(queue, id) := MessageBytes(m)] - {IndexKey(queue, STATE_PENDING, id)})
    [IndexKey(queue, STATE_IN_FLIGHT, id) := PRESENT]
  }

  /** A pop on the keys of a store, whatever the queue is called. */
  function PopOn(db: Store, queue: Bytes, consumer: Bytes, timeout: Int64, now: Int64): KeyPop {
    var prefix := IndexPrefix(queue, STATE_PENDING);
    var keys := Scan(db, prefix, prefix);
    if queue == [] then Refused(InvalidQueue)
    else if keys == [] then Refused(QueueEmpty)
    else
      var id := if prefix <= keys[0] then keys[0][|prefix|..] else [];
      if MessageKey(queue, id) !in db then NoSuchMessage
      else
        match ParseMessage(db[MessageKey(queue, id)])
        case Ok(m) =>
          var leased := Leased(m, consumer, timeout, now);
          Popped(LeaseKeys(db, queue, id, leased), leased)
        case _ => Undecodable
  }

  /** The queue whose entries a pop of `queue` meets. */
  function Under(queue: Bytes, state: int): Bytes {
    Join(queue, DecInt(state))
  }

  /** What a pop of q takes for an id when it meets an entry of q:0: the state of the entry and its id.  The
      message it then reads, and rewrites, is the one with that id in the queue called q and that state. */
  lemma ForeignKeys(q: Bytes, state: int, id: Bytes)
    ensures IndexKey(Under(q, STATE_PENDING), state, id) == IndexPrefix(q, STATE_PENDING) + Join(DecInt(state), id)
    ensures IndexKey(q, STATE_PENDING, Join(DecInt(state), id)) == IndexKey(Under(q, STATE_PENDING), state, id)
    ensures MessageKey(q, Join(DecInt(state), id)) == MessageKey(Under(q, state), id)
  {
  }

  /** The first entry that a pop of q meets. */
  predicate FirstMet(db: Store, q: Bytes, k: Bytes) {
    var prefix := IndexPrefix(q, STATE_PENDING);
    Scan(db, prefix, prefix) != [] && Scan(db, prefix, prefix)[0] == k
  }

  lemma EntriesApart(q: Bytes, state: int, id: Bytes, c: Bytes)
    ensures IndexKey(Under(q, STATE_PENDING), state, id) != IndexKey(q, STATE_IN_FLIGHT, c)
  {
    hide DecInt;
    var a, b := Join(DecInt(STATE_PENDING), Join(DecInt(state), id)), Join(DecInt(STATE_IN_FLIGHT), c);
    assert Join(Under(q, STATE_PENDING), Join(DecInt(state), id)) == Join(q, a);
    SamePrefix(Ascii("queue:idx:"), Join(q, a), Join(q, b));
    SamePrefix(q + [COLON], a, b);
    FirstColon(DecInt(STATE_PENDING), Join(DecInt(state), id), DecInt(STATE_IN_FLIGHT), c);
    if DecInt(STATE_PENDING) == DecInt(STATE_IN_FLIGHT) {
      DecIntInjective(STATE_PENDING, STATE_IN_FLIGHT);
    }
  }

  /** A pop of q leases a message of q:0 whenever that message's entry is the first it meets.  The message is
      in flight afterwards, but q:0 has no entry for it any more: the pending one is deleted, and the in-flight
      one is filed under q.  Nor can its consumer acknowledge it under q, unless q has a message of that id. */
  lemma ForeignPop(db: Store, q: Bytes, id: Bytes, consumer: Bytes, timeout: Int64, now: Int64, m: QueueMessage)
    requires q != [] && FirstMet(db, q, IndexKey(Under(q, STATE_PENDING), STATE_PENDING, id))
    requires var k := MessageKey(Under(q, STATE_PENDING), id); k in db && ParseMessage(db[k]) == Decoded.Ok(m)
    ensures var r, leased := Under(q, STATE_PENDING), Leased(m, consumer, timeout, now);
            var after := PopOn(db, q, consumer, timeout, now);
            && after.Popped? && after.m == leased
            && MessageKey(r, id) in after.db && after.db[MessageKey(r, id)] == MessageBytes(leased)
            && IndexKey(r, STATE_PENDING, id) !in after.db
            && (forall state, j :: IndexKey(r, state, j) in after.db ==> IndexKey(r, state, j) in db)
            && IndexKey(q, STATE_IN_FLIGHT, Join(DecInt(STATE_PENDING), id)) in after.db
            && (MessageKey(q, id) in after.db <==> MessageKey(q, id) in db)
  {
    hide DecInt, IndexKey, MessageKey, ParseMessage, MessageBytes, Leased, Scan, Join;
    var r, c := Under(q, STATE_PENDING), Join(DecInt(STATE_PENDING), id);
    ForeignKeys(q, STATE_PENDING, id);
    assert (IndexPrefix(q, STATE_PENDING) + c)[|IndexPrefix(q, STATE_PENDING)|..] == c;
    forall state, j
      ensures IndexKey(r, state, j) != MessageKey(q, c) && IndexKey(r, state, j) != IndexKey(q, STATE_IN_FLIGHT, c)
    {
      EntriesApart(q, state, j, c);
      RecordIsNoEntry(q, c, r, state, j);
    }
    RecordIsNoEntry(q, c, q, STATE_PENDING, c);
    RecordIsNoEntry(q, c, q, STATE_IN_FLIGHT, c);
    RecordIsNoEntry(q, id, q, STATE_PENDING, c);
    RecordIsNoEntry(q, id, q, STATE_IN_FLIGHT, c);
    LongerKey(q, id);
  }

  lemma RecordIsNoEntry(q: Bytes, id: Bytes, r: Bytes, state: int, j: Bytes)
    ensures MessageKey(q, id) != IndexKey(r, state, j)
  {
    hide DecInt, Join;
    FamiliesApart(MessageKey(q, id));
  }

  lemma LongerKey(q: Bytes, id: Bytes)
    ensures MessageKey(q, Join(DecInt(STATE_PENDING), id)) != MessageKey(q, id)
  {
    hide DecInt;
    assert |MessageKey(q, Join(DecInt(STATE_PENDING), id))| > |MessageKey(q, id)|;
  }

  /** A pop of q fails, and fails again, while an in-flight entry of q:0 is the first it meets, unless there
      is a message of that id in q:1: that is where it looks. */
  lemma ForeignLeaseBlocks(db: Store, q: Bytes, id: Bytes, consumer: Bytes, timeout: Int64, now: Int64)
    requires q != [] && FirstMet(db, q, IndexKey(Under(q, STATE_PENDING), STATE_IN_FLIGHT, id))
    ensures PopOn(db, q, consumer, timeout, now) == NoSuchMessage <==> MessageKey(Under(q, STATE_IN_FLIGHT), id) !in db
  {
    hide DecInt, IndexKey, MessageKey, ParseMessage, MessageBytes, Leased, Scan, Join;
    var c := Join(DecInt(STATE_IN_FLIGHT), id);
    ForeignKeys(q, STATE_IN_FLIGHT, id);
    assert (IndexPrefix(q, STATE_PENDING) + c)[|IndexPrefix(q, STATE_PENDING)|..] == c;
  }
}
