/** How a store represents the acknowledging queues: one record per message, one index entry per
    message under the state it is in, and one record per configured queue. */
module AckStore {
  import opened ByteStrings
  import opened OrderedStore
  import opened Decimal
  import opened Keys
  import opened QueueCodec
  import opened AckQueue
  import opened LegacyQueue

  const PRESENT: Bytes := [1]

  /** A message record exists exactly for the live messages, and reads back as the message. */
  ghost predicate MessagesStored(db: Store, s: AckState) {
    && (forall q, id :: ColonFree(q) ==> (MessageKey(q, id) in db <==> (q, id) in s.msgs))
    && (forall q, id :: (q, id) in s.msgs ==>
          ColonFree(q) && MessageFits(s.msgs[(q, id)])
          && MessageKey(q, id) in db && db[MessageKey(q, id)] == MessageBytes(s.msgs[(q, id)]))
  }

  /** An index entry (queue, state, id) exists exactly when message (queue, id) exists in that state. */
  ghost predicate IndexAgrees(db: Store, s: AckState) {
    forall q, state, id :: ColonFree(q) ==>
      (IndexKey(q, state, id) in db <==> (q, id) in s.msgs && s.msgs[(q, id)].state == state)
  }

  ghost predicate ConfigsStored(db: Store, s: AckState) {
    && (forall q :: ConfigKey(q) in db <==> q in s.configs)
    && (forall q :: q in s.configs ==>
          && ConfigFits(s.configs[q]) && s.configs[q].name == q && ColonFree(s.configs[q].deadLetterQueue)
          && ParseConfig(db[ConfigKey(q)]) == Decoded.Ok(s.configs[q]))
  }

  ghost predicate Represents(db: Store, s: AckState) {
    WellFormed(s) && MessagesStored(db, s) && IndexAgrees(db, s) && ConfigsStored(db, s)
  }

  lemma EmptyRepresents()
    ensures Represents(map[], Empty)
  {
  }

  lemma AckKeys(q: Bytes, state: int, id: Bytes)
    ensures InFamily(MessageKey(q, id), "queue:msg:") && AckFamily(MessageKey(q, id))
    ensures InFamily(IndexKey(q, state, id), "queue:idx:") && AckFamily(IndexKey(q, state, id))
    ensures InFamily(ConfigKey(q), "queue:config:") && AckFamily(ConfigKey(q))
  {
  }

  /** Records of different kinds never share a key. */
  lemma KindsApart(q: Bytes, id: Bytes, r: Bytes, state: int, j: Bytes, c: Bytes)
    ensures MessageKey(q, id) != IndexKey(r, state, j)
    ensures MessageKey(q, id) != ConfigKey(c)
    ensures IndexKey(r, state, j) != ConfigKey(c)
  {
    AckKeys(q, state, id);
    AckKeys(r, state, j);
    AckKeys(c, state, j);
    FamiliesApart(MessageKey(q, id));
    FamiliesApart(IndexKey(r, state, j));
  }

  /** What leaves the ack families alone leaves the acknowledging queues alone. */
  lemma AckFrame(db: Store, db': Store, s: AckState)
    requires Represents(db, s) && SameAck(db, db')
    ensures Represents(db', s)
  {
    hide MessageKey, IndexKey, ConfigKey, AckFamily, WellFormed, MessageFits, MessageBytes, ParseConfig;
    assert forall k :: AckFamily(k) ==> SameAt(db, db', k);
    assert MessagesStored(db', s) by {
      forall q, id
        ensures SameAt(db, db', MessageKey(q, id))
      {
        AckKeys(q, 0, id);
      }
    }
    assert IndexAgrees(db', s) by {
      forall q, state, id
        ensures SameAt(db, db', IndexKey(q, state, id))
      {
        AckKeys(q, state, id);
      }
    }
    assert ConfigsStored(db', s) by {
      forall q
        ensures SameAt(db, db', ConfigKey(q))
      {
        AckKeys(q, 0, []);
      }
    }
  }

  /** Changing only keys of the ack families is invisible to the first-in first-out queues. */
  lemma AckKeysOnly(db: Store, db': Store)
    requires forall k :: SameAt(db, db', k) || AckFamily(k)
    ensures SameLegacy(db, db')
  {
    hide AckFamily, LegacyFamily;
    forall k | LegacyFamily(k)
      ensures SameAt(db, db', k)
    {
      FamiliesApart(k);
    }
  }

  /** What a represented message is known to satisfy. */
  lemma StoredMessage(db: Store, s: AckState, q: Bytes, id: Bytes)
    requires Represents(db, s) && ColonFree(q)
    ensures MessageKey(q, id) in db <==> (q, id) in s.msgs
    ensures (q, id) in s.msgs ==>
              var m := s.msgs[(q, id)];
              && m.id == id && MessageFits(m) && m.state in {STATE_PENDING, STATE_IN_FLIGHT}
              && db[MessageKey(q, id)] == MessageBytes(m) && ParseMessage(MessageBytes(m)) == Decoded.Ok(m)
  {
    hide MessageBytes, ParseMessage, MessageFits, IndexAgrees, ConfigsStored;
    if (q, id) in s.msgs {
      MessageRoundTrip(s.msgs[(q, id)]);
    }
  }

  lemma StoredConfig(db: Store, s: AckState, q: Bytes)
    requires Represents(db, s)
    ensures |ConfigOf(s, q).deadLetterQueue| < TWO_16 && ColonFree(ConfigOf(s, q).deadLetterQueue)
  {
  }

  lemma SameLegacyReflexive(db: Store)
    ensures SameLegacy(db, db)
  {
  }

  lemma SameLegacyTransitive(a: Store, b: Store, c: Store)
    requires SameLegacy(a, b) && SameLegacy(b, c)
    ensures SameLegacy(a, c)
  {
    hide LegacyFamily;
    forall k | LegacyFamily(k)
      ensures SameAt(a, c, k)
    {
      assert SameAt(a, b, k) && SameAt(b, c, k);
    }
  }

  // ---------- writing and removing one message ----------

  /** The index entry that a write of message (q, id) has to take away first. */
  function StaleIndex(s: AckState, q: Bytes, id: Bytes): set<Bytes> {
    if (q, id) in s.msgs then {IndexKey(q, s.msgs[(q, id)].state, id)} else {}
  }

  function WriteStore(db: Store, s: AckState, q: Bytes, m: QueueMessage): Store {
    (db[MessageKey(q, m.id) := MessageBytes(m)] - StaleIndex(s, q, m.id))[IndexKey(q, m.state, m.id) := PRESENT]
  }

  function EraseStore(db: Store, s: AckState, q: Bytes, id: Bytes): Store {
    (db - {MessageKey(q, id)}) - StaleIndex(s, q, id)
  }

  ghost predicate Storable(q: Bytes, m: QueueMessage) {
    && ColonFree(q) && MessageFits(m) && m.state in {STATE_PENDING, STATE_IN_FLIGHT}
    && (m.state == STATE_PENDING ==> m.consumerId == [] && m.inFlightAt == 0)
  }

  lemma WriteMessages(db: Store, s: AckState, q: Bytes, m: QueueMessage)
    requires Represents(db, s) && Storable(q, m)
    ensures MessagesStored(WriteStore(db, s, q, m), PutMessage(s, q, m))
  {
    hide MessageKey, IndexKey, ConfigKey, MessageBytes, MessageFits, IndexAgrees, ConfigsStored, WellFormed;
    var db', s' := WriteStore(db, s, q, m), PutMessage(s, q, m);
    forall r, j | ColonFree(r)
      ensures MessageKey(r, j) in db' <==> (r, j) in s'.msgs
      ensures (r, j) in s'.msgs ==> db'[MessageKey(r, j)] == MessageBytes(s'.msgs[(r, j)])
    {
      MessageKeyInjective(q, m.id, r, j);
      KindsApart(r, j, q, m.state, m.id, []);
      if (q, m.id) in s.msgs {
        KindsApart(r, j, q, s.msgs[(q, m.id)].state, m.id, []);
      }
    }
  }

  lemma WriteIndex(db: Store, s: AckState, q: Bytes, m: QueueMessage)
    requires Represents(db, s) && Storable(q, m)
    ensures IndexAgrees(WriteStore(db, s, q, m), PutMessage(s, q, m))
  {
    hide MessageKey, IndexKey, ConfigKey, MessageBytes, MessageFits, MessagesStored, ConfigsStored, WellFormed;
    var db', s' := WriteStore(db, s, q, m), PutMessage(s, q, m);
    forall r, state, j | ColonFree(r)
      ensures IndexKey(r, state, j) in db' <==> (r, j) in s'.msgs && s'.msgs[(r, j)].state == state
    {
      KindsApart(q, m.id, r, state, j, []);
      IndexKeyInjective(q, m.state, m.id, r, state, j);
      if (q, m.id) in s.msgs {
        IndexKeyInjective(q, s.msgs[(q, m.id)].state, m.id, r, state, j);
      }
    }
  }

  lemma WriteConfigs(db: Store, s: AckState, q: Bytes, m: QueueMessage)
    requires Represents(db, s)
    ensures ConfigsStored(WriteStore(db, s, q, m), PutMessage(s, q, m))
  {
    hide MessageKey, IndexKey, ConfigKey, MessageBytes, MessagesStored, IndexAgrees, WellFormed, ParseConfig;
    var db' := WriteStore(db, s, q, m);
    forall c
      ensures ConfigKey(c) in db' <==> ConfigKey(c) in db
      ensures ConfigKey(c) in db ==> db'[ConfigKey(c)] == db[ConfigKey(c)]
    {
      KindsApart(q, m.id, q, m.state, m.id, c);
      if (q, m.id) in s.msgs {
        KindsApart(q, m.id, q, s.msgs[(q, m.id)].state, m.id, c);
      }
    }
  }

  lemma WriteLegacy(db: Store, s: AckState, q: Bytes, m: QueueMessage)
    ensures SameLegacy(db, WriteStore(db, s, q, m))
  {
    hide MessageKey, IndexKey, AckFamily;
    AckKeys(q, m.state, m.id);
    if (q, m.id) in s.msgs {
      AckKeys(q, s.msgs[(q, m.id)].state, m.id);
    }
    AckKeysOnly(db, WriteStore(db, s, q, m));
  }

  /** Writing a message and moving its index entry represents the state with that message put in. */
  lemma WriteRepresents(db: Store, s: AckState, q: Bytes, m: QueueMessage)
    requires Represents(db, s) && Storable(q, m)
    ensures Represents(WriteStore(db, s, q, m), PutMessage(s, q, m))
    ensures SameLegacy(db, WriteStore(db, s, q, m))
  {
    hide WriteStore, MessagesStored, IndexAgrees, ConfigsStored;
    WriteMessages(db, s, q, m);
    WriteIndex(db, s, q, m);
    WriteConfigs(db, s, q, m);
    WriteLegacy(db, s, q, m);
  }

  /** A transaction that stores a new message and its index entry. */
  lemma InsertTransaction(db: Store, s: AckState, q: Bytes, m: QueueMessage)
    requires Represents(db, s) && Storable(q, m) && (q, m.id) !in s.msgs
    ensures var txn := db[MessageKey(q, m.id) := MessageBytes(m)][IndexKey(q, m.state, m.id) := PRESENT];
            Represents(txn, PutMessage(s, q, m)) && SameLegacy(db, txn)
  {
    hide Represents, SameLegacy, MessageKey, IndexKey, MessageBytes;
    WriteRepresents(db, s, q, m);
    assert db[MessageKey(q, m.id) := MessageBytes(m)] - {} == db[MessageKey(q, m.id) := MessageBytes(m)];
  }

  /** A transaction that rewrites a message and moves its index entry to another state. */
  lemma RewriteTransaction(db: Store, s: AckState, q: Bytes, state: int, m: QueueMessage, data: Bytes)
    requires Represents(db, s) && Storable(q, m) && (q, m.id) in s.msgs && s.msgs[(q, m.id)].state == state
    requires data == MessageBytes(m)
    ensures var txn :=
              (db[MessageKey(q, m.id) := data] - {IndexKey(q, state, m.id)})[IndexKey(q, m.state, m.id) := PRESENT];
            Represents(txn, PutMessage(s, q, m)) && SameLegacy(db, txn)
  {
    WriteRepresents(db, s, q, m);
  }

  lemma EraseMessages(db: Store, s: AckState, q: Bytes, id: Bytes)
    requires Represents(db, s) && (q, id) in s.msgs
    ensures MessagesStored(EraseStore(db, s, q, id), RemoveMessage(s, q, id))
  {
    hide MessageKey, IndexKey, ConfigKey, MessageBytes, MessageFits, IndexAgrees, ConfigsStored, WellFormed;
    var db', s' := EraseStore(db, s, q, id), RemoveMessage(s, q, id);
    forall r, j | ColonFree(r)
      ensures MessageKey(r, j) in db' <==> (r, j) in s'.msgs
      ensures (r, j) in s'.msgs ==> db'[MessageKey(r, j)] == MessageBytes(s'.msgs[(r, j)])
    {
      MessageKeyInjective(q, id, r, j);
      KindsApart(r, j, q, s.msgs[(q, id)].state, id, []);
    }
  }

  lemma EraseIndex(db: Store, s: AckState, q: Bytes, id: Bytes)
    requires Represents(db, s) && (q, id) in s.msgs
    ensures IndexAgrees(EraseStore(db, s, q, id), RemoveMessage(s, q, id))
  {
    hide MessageKey, IndexKey, ConfigKey, MessageBytes, MessageFits, ConfigsStored, WellFormed;
    var db', s' := EraseStore(db, s, q, id), RemoveMessage(s, q, id);
    assert ColonFree(q);
    forall r, state, j | ColonFree(r)
      ensures IndexKey(r, state, j) in db' <==> (r, j) in s'.msgs && s'.msgs[(r, j)].state == state
    {
      KindsApart(q, id, r, state, j, []);
      IndexKeyInjective(q, s.msgs[(q, id)].state, id, r, state, j);
    }
  }

  lemma EraseConfigs(db: Store, s: AckState, q: Bytes, id: Bytes)
    requires Represents(db, s) && (q, id) in s.msgs
    ensures ConfigsStored(EraseStore(db, s, q, id), RemoveMessage(s, q, id))
    ensures SameLegacy(db, EraseStore(db, s, q, id))
  {
    hide MessageKey, IndexKey, ConfigKey, MessageBytes, MessagesStored, IndexAgrees, WellFormed, ParseConfig, AckFamily;
    var db' := EraseStore(db, s, q, id);
    var state := s.msgs[(q, id)].state;
    forall c
      ensures ConfigKey(c) in db' <==> ConfigKey(c) in db
      ensures ConfigKey(c) in db ==> db'[ConfigKey(c)] == db[ConfigKey(c)]
    {
      KindsApart(q, id, q, state, id, c);
    }
    AckKeys(q, state, id);
    AckKeysOnly(db, db');
  }

  /** Deleting a message and its index entry represents the state without it. */
  lemma EraseRepresents(db: Store, s: AckState, q: Bytes, id: Bytes)
    requires Represents(db, s) && (q, id) in s.msgs
    ensures Represents(EraseStore(db, s, q, id), RemoveMessage(s, q, id))
    ensures SameLegacy(db, EraseStore(db, s, q, id))
  {
    hide EraseStore, MessagesStored, IndexAgrees, ConfigsStored;
    EraseMessages(db, s, q, id);
    EraseIndex(db, s, q, id);
    EraseConfigs(db, s, q, id);
  }

  lemma ConfigKeepsMessages(db: Store, s: AckState, c: QueueConfig, data: Bytes)
    requires Represents(db, s)
    ensures MessagesStored(db[ConfigKey(c.name) := data], SetConfig(s, c))
    ensures IndexAgrees(db[ConfigKey(c.name) := data], SetConfig(s, c))
  {
    hide MessageKey, IndexKey, ConfigKey, MessageBytes, MessageFits, ConfigsStored, WellFormed;
    var db' := db[ConfigKey(c.name) := data];
    forall r, j
      ensures SameAt(db, db', MessageKey(r, j))
    {
      KindsApart(r, j, r, 0, j, c.name);
    }
    forall r, state, j
      ensures SameAt(db, db', IndexKey(r, state, j))
    {
      KindsApart(r, j, r, state, j, c.name);
    }
  }

  lemma ConfigRecorded(db: Store, s: AckState, c: QueueConfig)
    requires ConfigsStored(db, s) && c.name != []
    requires |c.name| < TWO_16 && |c.deadLetterQueue| < TWO_16 && ColonFree(c.deadLetterQueue)
    ensures ConfigsStored(db[ConfigKey(c.name) := ConfigBytes(c)], SetConfig(s, c))
  {
    hide ConfigKey, ConfigBytes, ParseConfig, ColonFree;
    ConfigReadBack(c);
    var db', s' := db[ConfigKey(c.name) := ConfigBytes(c)], SetConfig(s, c);
    forall q
      ensures ConfigKey(q) in db' <==> q in s'.configs
    {
      ConfigKeyInjective(q, c.name);
    }
    forall q | q in s'.configs
      ensures ConfigFits(s'.configs[q]) && s'.configs[q].name == q && ColonFree(s'.configs[q].deadLetterQueue)
      ensures ParseConfig(db'[ConfigKey(q)]) == Decoded.Ok(s'.configs[q])
    {
      ConfigKeyInjective(q, c.name);
    }
  }

  /** A transaction that deletes a message and its index entry. */
  lemma EraseTransaction(db: Store, s: AckState, q: Bytes, m: QueueMessage)
    requires Represents(db, s) && (q, m.id) in s.msgs && s.msgs[(q, m.id)] == m
    ensures var txn := (db - {MessageKey(q, m.id)}) - {IndexKey(q, m.state, m.id)};
            Represents(txn, RemoveMessage(s, q, m.id)) && SameLegacy(db, txn)
  {
    EraseRepresents(db, s, q, m.id);
  }

  /** Storing a configuration represents the state with that configuration, read back. */
  lemma ConfigRepresents(db: Store, s: AckState, c: QueueConfig)
    requires Represents(db, s) && c.name != []
    requires |c.name| < TWO_16 && |c.deadLetterQueue| < TWO_16 && ColonFree(c.deadLetterQueue)
    ensures Represents(db[ConfigKey(c.name) := ConfigBytes(c)], SetConfig(s, c))
    ensures SameLegacy(db, db[ConfigKey(c.name) := ConfigBytes(c)])
  {
    hide ConfigKey, ConfigBytes, MessagesStored, IndexAgrees, ConfigsStored, AckFamily;
    ConfigKeepsMessages(db, s, c, ConfigBytes(c));
    ConfigRecorded(db, s, c);
    AckKeys(c.name, 0, []);
    AckKeysOnly(db, db[ConfigKey(c.name) := ConfigBytes(c)]);
  }

  // ---------- scanning an index ----------

  /** The id that an index key of one state ends in. */
  function IdOf(q: Bytes, state: int, k: Bytes): Bytes {
    if |IndexPrefix(q, state)| <= |k| then k[|IndexPrefix(q, state)|..] else []
  }

  /** A prefix scan of one state's index visits exactly the ids in that state, in ascending order. */
  lemma IndexScan(db: Store, s: AckState, q: Bytes, state: int, p: Bytes, ks: seq<Bytes>)
    requires Represents(db, s) && ColonFree(q)
    requires p == IndexPrefix(q, state) && ks == Scan(db, p, p)
    ensures forall i :: 0 <= i < |ks| ==>
              p <= ks[i] && ks[i] == IndexKey(q, state, IdOf(q, state, ks[i]))
              && IdOf(q, state, ks[i]) in IdsIn(s, q, state)
    ensures forall id :: id in IdsIn(s, q, state) ==> IndexKey(q, state, id) in ks
    ensures forall i, j :: 0 <= i < j < |ks| ==> Less(IdOf(q, state, ks[i]), IdOf(q, state, ks[j]))
  {
    hide IndexKey, IndexPrefix, MessagesStored, ConfigsStored, WellFormed;
    forall i | 0 <= i < |ks|
      ensures p <= ks[i] && ks[i] == IndexKey(q, state, IdOf(q, state, ks[i]))
      ensures IdOf(q, state, ks[i]) in IdsIn(s, q, state)
    {
      assert ks[i] in ks;
      IndexScanKey(q, state, ks[i]);
      assert (q, IdOf(q, state, ks[i])) in s.msgs;
    }
    forall id | id in IdsIn(s, q, state)
      ensures IndexKey(q, state, id) in ks
    {
      IndexKeyIsPrefixed(q, state, id);
      PrefixNotLess(p, IndexKey(q, state, id));
    }
    forall i, j | 0 <= i < j < |ks|
      ensures Less(IdOf(q, state, ks[i]), IdOf(q, state, ks[j]))
    {
      var a, b := IdOf(q, state, ks[i]), IdOf(q, state, ks[j]);
      IndexKeyIsPrefixed(q, state, a);
      IndexKeyIsPrefixed(q, state, b);
      LessAfterPrefix(p, a, b);
    }
  }

  /** The ids that a scan of one state's index yields, in order. */
  lemma ScannedIds(db: Store, s: AckState, q: Bytes, state: int) returns (ids: seq<Bytes>)
    requires Represents(db, s) && ColonFree(q)
    ensures var p := IndexPrefix(q, state);
            var ks := Scan(db, p, p);
            |ids| == |ks| && forall i :: 0 <= i < |ks| ==> p <= ks[i] && ids[i] == ks[i][|p|..]
    ensures Ascending(ids)
    ensures forall id :: id in ids <==> id in IdsIn(s, q, state)
  {
    hide IndexKey, IndexPrefix, Represents, Scan;
    var p := IndexPrefix(q, state);
    var ks := Scan(db, p, p);
    IndexScan(db, s, q, state, p, ks);
    ids := seq(|ks|, i requires 0 <= i < |ks| => IdOf(q, state, ks[i]));
    forall id | id in IdsIn(s, q, state)
      ensures id in ids
    {
      var k :| 0 <= k < |ks| && ks[k] == IndexKey(q, state, id);
      IdOfIndexKey(q, state, id);
      assert ids[k] == id;
    }
  }

  /** The first key of the pending index belongs to the message a pop must take; there is none
      exactly when no message is pending. */
  lemma FirstOfIndex(db: Store, s: AckState, q: Bytes, state: int)
    requires Represents(db, s) && ColonFree(q)
    ensures var p := IndexPrefix(q, state);
            var ks := Scan(db, p, p);
            && (ks == [] <==> IdsIn(s, q, state) == {})
            && (ks != [] ==> p <= ks[0] && IdOf(q, state, ks[0]) == Least(IdsIn(s, q, state)))
  {
    hide IndexKey, IndexPrefix, Represents, Scan, IdOf;
    var p := IndexPrefix(q, state);
    var ks := Scan(db, p, p);
    IndexScan(db, s, q, state, p, ks);
    var ids := IdsIn(s, q, state);
    if ks != [] {
      var first := IdOf(q, state, ks[0]);
      assert first in ids;
      forall j | j in ids
        ensures !Less(j, first)
      {
        var t :| 0 <= t < |ks| && ks[t] == IndexKey(q, state, j);
        assert IdOf(q, state, ks[t]) == j by {
          IdOfIndexKey(q, state, j);
        }
        LessIrreflexive(j);
        if t > 0 {
          LessAsymmetric(first, j);
        }
      }
      LeastUnique(first, Least(ids), ids);
    } else {
      assert forall id :: id !in ids;
    }
  }

  lemma IdOfIndexKey(q: Bytes, state: int, id: Bytes)
    ensures IndexPrefix(q, state) <= IndexKey(q, state, id)
    ensures IdOf(q, state, IndexKey(q, state, id)) == id
  {
    hide IndexKey, IndexPrefix;
    IndexKeyIsPrefixed(q, state, id);
  }
}
