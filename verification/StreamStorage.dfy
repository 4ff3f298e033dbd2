/** The stream storage object: buffered appends, flushing, range fetch, retention and committed
    consumer offsets.  Calls run one after the other here; their interleaving is the subject of
    module StreamInterleaving. */
module StreamStore {
  import opened ByteStrings
  import opened Buffers
  import opened OrderedStore
  import opened Decimal
  import opened Keys
  import opened StreamCodec
  import opened StreamRecords
  import opened StreamBuffers

  const FLUSH_THRESHOLD := 1000

  function SpotOf(m: Message): Spot {
    Spot(m.topic, m.partition, m.offset)
  }

  predicate MessageOk(m: Message) {
    SpotOk(SpotOf(m)) && RecordFits(RecordOf(m))
  }

  /** Buffered messages belong to the partition they are buffered for and have increasing offsets. */
  ghost predicate QueueOk(k: Bytes, ms: seq<Message>) {
    && (forall i :: 0 <= i < |ms| ==> MessageOk(ms[i]) && PartitionKey(ms[i].topic, ms[i].partition) == k)
    && (forall i, j :: 0 <= i < j < |ms| ==> ms[i].offset < ms[j].offset)
  }

  ghost predicate BufferOk(buffer: WriteBuffer) {
    forall k :: k in buffer ==> QueueOk(k, buffer[k])
  }

  /** Offsets that are stored or buffered have been handed out, and none is both. */
  ghost predicate Issued(log: Log, buffer: WriteBuffer, counters: Counters) {
    && (forall k :: k in counters ==> -1 <= counters[k] < TWO_63)
    && (forall x :: x in log ==> SpotIssued(x, counters))
    && (forall k :: k in buffer ==> QueueIssued(log, k, buffer[k], counters))
  }

  predicate SpotIssued(x: Spot, counters: Counters) {
    var k := PartitionKey(x.topic, x.partition);
    k in counters && x.offset <= counters[k]
  }

  predicate QueueIssued(log: Log, k: Bytes, ms: seq<Message>, counters: Counters) {
    k in counters && forall i :: 0 <= i < |ms| ==> ms[i].offset <= counters[k] && SpotOf(ms[i]) !in log
  }

  /** A new counter, or a greater one, takes nothing back. */
  lemma CounterRaised(log: Log, buffer: WriteBuffer, counters: Counters, k: Bytes, offset: int)
    requires Issued(log, buffer, counters) && LastOffset(counters, k) <= offset < TWO_63 && -1 <= offset
    ensures Issued(log, buffer, counters[k := offset])
  {
    hide PartitionKey;
    var raised := counters[k := offset];
    forall x | x in log
      ensures SpotIssued(x, raised)
    {
      assert SpotIssued(x, counters);
    }
    forall j | j in buffer
      ensures QueueIssued(log, j, buffer[j], raised)
    {
      assert QueueIssued(log, j, buffer[j], counters);
    }
  }

  /** `after` is `before` with every message of the buffer added, and nothing else. */
  ghost predicate Flushed(before: Log, buffer: WriteBuffer, after: Log) {
    && (forall x :: x in before ==> x in after && after[x] == before[x])
    && (forall k, i :: k in buffer && 0 <= i < |buffer[k]| ==>
          SpotOf(buffer[k][i]) in after && after[SpotOf(buffer[k][i])] == RecordOf(buffer[k][i]))
    && (forall x :: x in after && x !in before ==> InBuffer(buffer, x))
  }

  ghost predicate InBuffer(buffer: WriteBuffer, x: Spot) {
    exists k :: k in buffer && Holding(buffer[k], x)
  }

  predicate Holding(ms: seq<Message>, x: Spot) {
    exists i :: 0 <= i < |ms| && SpotOf(ms[i]) == x
  }

  function AddAll(log: Log, ms: seq<Message>): Log {
    if ms == [] then log
    else AddAll(log, ms[..|ms| - 1])[SpotOf(ms[|ms| - 1]) := RecordOf(ms[|ms| - 1])]
  }

  /** `after` is `log` with the messages put in. */
  ghost predicate Added(log: Log, ms: seq<Message>, after: Log) {
    && (forall x :: x in after <==> x in log || Holding(ms, x))
    && (forall i :: 0 <= i < |ms| ==> SpotOf(ms[i]) in after && after[SpotOf(ms[i])] == RecordOf(ms[i]))
    && (forall x :: x in log && !Holding(ms, x) ==> after[x] == log[x])
  }

  lemma {:induction false} AddAllIs(log: Log, k: Bytes, ms: seq<Message>)
    requires QueueOk(k, ms)
    ensures Added(log, ms, AddAll(log, ms))
  {
    hide Added, RecordOf, PartitionKey, MessageOk, SpotOf, Holding;
    if ms == [] {
      AddedNothing(log);
    } else {
      var n := |ms| - 1;
      var init := ms[..n];
      QueuePrefix(k, ms);
      AddAllIs(log, k, init);
      AddedNext(log, init, AddAll(log, init), ms[n]);
      assert ms == init + [ms[n]];
    }
  }

  lemma AddedNothing(log: Log)
    ensures Added(log, [], log)
  {
  }

  lemma QueuePrefix(k: Bytes, ms: seq<Message>)
    requires QueueOk(k, ms) && ms != []
    ensures QueueOk(k, ms[..|ms| - 1]) && !Holding(ms[..|ms| - 1], SpotOf(ms[|ms| - 1]))
  {
    hide PartitionKey, MessageOk;
  }

  lemma AddedNext(log: Log, init: seq<Message>, before: Log, m: Message)
    requires Added(log, init, before) && !Holding(init, SpotOf(m))
    ensures Added(log, init + [m], before[SpotOf(m) := RecordOf(m)])
  {
    hide RecordOf, SpotOf;
    var ms, after := init + [m], before[SpotOf(m) := RecordOf(m)];
    forall x
      ensures Holding(ms, x) <==> Holding(init, x) || x == SpotOf(m)
    {
      HoldingNext(init, m, x);
    }
    forall i | 0 <= i < |init|
      ensures SpotOf(init[i]) != SpotOf(m) && ms[i] == init[i]
    {
      assert Holding(init, SpotOf(init[i]));
    }
  }

  lemma HoldingNext(init: seq<Message>, m: Message, x: Spot)
    ensures Holding(init + [m], x) <==> Holding(init, x) || x == SpotOf(m)
  {
    var ms := init + [m];
    if Holding(init, x) {
      var i :| 0 <= i < |init| && SpotOf(init[i]) == x;
      assert SpotOf(ms[i]) == x;
    }
    if x == SpotOf(m) {
      assert SpotOf(ms[|init|]) == x;
    }
  }

  /** Messages of different partitions are at different spots. */
  lemma QueuesApart(j: Bytes, as': seq<Message>, k: Bytes, bs: seq<Message>)
    requires QueueOk(j, as') && QueueOk(k, bs) && j != k
    ensures forall i :: 0 <= i < |as'| ==> !Holding(bs, SpotOf(as'[i]))
  {
    hide MessageOk;
  }

  /** Flushing one more partition of the buffer. */
  lemma FlushedNext(log: Log, buffer: WriteBuffer, cur: Log, k: Bytes, ms: seq<Message>)
    requires Flushed(log, buffer, cur) && BufferOk(buffer) && QueueOk(k, ms) && k !in buffer
    requires forall i :: 0 <= i < |ms| ==> SpotOf(ms[i]) !in log
    ensures Flushed(log, buffer[k := ms], AddAll(cur, ms))
  {
    hide QueueOk, AddAll, RecordOf;
    AddAllIs(cur, k, ms);
    var after, more := AddAll(cur, ms), buffer[k := ms];
    forall x | x in log
      ensures !Holding(ms, x)
    {
    }
    forall j, i | j in more && 0 <= i < |more[j]|
      ensures SpotOf(more[j][i]) in after && after[SpotOf(more[j][i])] == RecordOf(more[j][i])
    {
      if j != k {
        assert QueueOk(j, buffer[j]);
        QueuesApart(j, buffer[j], k, ms);
        assert SpotOf(buffer[j][i]) in cur;
      }
    }
    forall x | x in after && x !in log
      ensures InBuffer(more, x)
    {
      if x in cur {
        var j :| j in buffer && Holding(buffer[j], x);
        assert j in more && more[j] == buffer[j];
      } else {
        assert k in more && Holding(more[k], x);
      }
    }
  }

  lemma AddRecord(db: Store, log: Log, m: Message)
    requires LogStored(db, log) && MessageOk(m)
    ensures LogStored(db[KeyOf(SpotOf(m)) := RecordBytes(RecordOf(m))], log[SpotOf(m) := RecordOf(m)])
    ensures RecordFamily(KeyOf(SpotOf(m)))
  {
    AppendStored(db, log, SpotOf(m), RecordOf(m));
    KeyOfFamily(SpotOf(m));
  }

  /** Only record keys differ between two stores. */
  ghost predicate OnlyRecords(db: Store, db': Store) {
    forall k :: RecordFamily(k) || ((k in db <==> k in db') && (k in db ==> db[k] == db'[k]))
  }

  lemma OnlyRecordsFrame(db: Store, db': Store, commits: map<Bytes, Int64>)
    requires OnlyRecords(db, db') && CommitsStored(db, commits)
    requires forall t, p :: OffsetKey(t, p) !in db
    ensures CommitsStored(db', commits)
    ensures forall t, p :: OffsetKey(t, p) !in db'
  {
    hide OffsetKey, RecordFamily, ConsumerFamily, GetU64;
    forall k | ConsumerFamily(k)
      ensures (k in db <==> k in db') && (k in db ==> db[k] == db'[k])
    {
      StreamFamilies(k);
    }
    RecordsKeepCommits(db, db', commits);
    forall t, p
      ensures OffsetKey(t, p) !in db'
    {
      StreamKeys([], t, p, 0);
      StreamFamilies(OffsetKey(t, p));
    }
  }

  // ---------- the write transaction of a flush ----------

  method WriteMessages(db: Store, ghost log: Log, ghost k: Bytes, ms: seq<Message>) returns (txn: Store)
    requires LogStored(db, log) && QueueOk(k, ms)
    ensures LogStored(txn, AddAll(log, ms)) && OnlyRecords(db, txn)
  {
    hide RecordKey, RecordBytes, RecordFamily, LogStored, PartitionKey;
    txn := db;
    var i := 0;
    assert ms[..0] == [];
    while i < |ms|
      invariant i <= |ms|
      invariant LogStored(txn, AddAll(log, ms[..i])) && OnlyRecords(db, txn)
    {
      var msg := ms[i];
      assert MessageOk(msg);
      var msgKey := RecordKey(msg.topic, msg.partition, msg.offset);
      var msgData := EncodeMessage(msg);
      AddRecord(txn, AddAll(log, ms[..i]), msg);
      txn := txn[msgKey := msgData];
      assert ms[..i + 1] == ms[..i] + [msg] && ms[..i + 1][..i] == ms[..i];
      i := i + 1;
    }
    assert ms[..i] == ms;
  }

  /** The part of a buffer that belongs to some of its partitions. */
  function Part(buffer: WriteBuffer, ks: set<Bytes>): WriteBuffer {
    map k | k in buffer && k in ks :: buffer[k]
  }

  /** Writes a buffer that was swapped out, its partitions in any order. */
  method WriteBuffered(db: Store, ghost log: Log, buffer: WriteBuffer) returns (txn: Store, ghost after: Log)
    requires LogStored(db, log) && BufferOk(buffer)
    requires forall k, i :: k in buffer && 0 <= i < |buffer[k]| ==> SpotOf(buffer[k][i]) !in log
    ensures LogStored(txn, after) && Flushed(log, buffer, after) && OnlyRecords(db, txn)
  {
    hide LogStored, RecordFamily, QueueOk, Flushed, OnlyRecords, AddAll, Holding;
    FlushedNothing(log);
    OnlyRecordsReflexive(db);
    txn, after := db, log;
    var rest := buffer.Keys;
    ghost var done: set<Bytes> := {};
    assert Part(buffer, done) == map[];
    while rest != {}
      invariant rest <= buffer.Keys && done == buffer.Keys - rest
      invariant LogStored(txn, after) && OnlyRecords(db, txn)
      invariant Flushed(log, Part(buffer, done), after)
      decreases |rest|
    {
      var k :| k in rest;
      var before := txn;
      assert QueueOk(k, buffer[k]);
      PartOk(buffer, done);
      txn := WriteMessages(txn, after, k, buffer[k]);
      FlushedNext(log, Part(buffer, done), after, k, buffer[k]);
      PartNext(buffer, done, k);
      OnlyRecordsTransitive(db, before, txn);
      after := AddAll(after, buffer[k]);
      rest := rest - {k};
      done := done + {k};
    }
    assert Part(buffer, done) == buffer;
  }

  lemma FlushedNothing(log: Log)
    ensures Flushed(log, map[], log)
  {
  }

  lemma PartOk(buffer: WriteBuffer, ks: set<Bytes>)
    requires BufferOk(buffer)
    ensures BufferOk(Part(buffer, ks))
  {
    hide QueueOk;
  }

  lemma PartNext(buffer: WriteBuffer, ks: set<Bytes>, k: Bytes)
    requires k in buffer
    ensures Part(buffer, ks)[k := buffer[k]] == Part(buffer, ks + {k})
  {
  }

  lemma OnlyRecordsReflexive(db: Store)
    ensures OnlyRecords(db, db)
  {
  }

  lemma OnlyRecordsTransitive(a: Store, b: Store, c: Store)
    requires OnlyRecords(a, b) && OnlyRecords(b, c)
    ensures OnlyRecords(a, c)
  {
    hide RecordFamily;
  }

  // ---------- scans ----------

  /** The fetch loop: decodes what the iterator yields from the seek key on, at most `max` records. */
  method ReadFrom(db: Store, ghost log: Log, topic: Bytes, partition: int, start: Int64,
                  max: nat) returns (rs: seq<Record>)
    requires LogStored(db, log) && ColonFree(topic)
    ensures FirstFrom(log, topic, partition, start, max, rs)
  {
    hide RecordKey, RecordPrefix, RecordBytes, ParseRecord, Scan, RecordFamily;
    var prefix := RecordPrefix(topic, partition);
    var seekKey := RecordKey(topic, partition, start);
    ghost var offsets := ScanOffsets(db, log, topic, partition, seekKey);
    var keys := Scan(db, prefix, seekKey);
    rs := [];
    while |rs| < |keys| && |rs| < max
      invariant |rs| <= |keys| && |rs| <= max
      invariant forall i :: 0 <= i < |rs| ==>
                  rs[i].offset == offsets[i] && rs[i] == log[Spot(topic, partition, offsets[i])]
    {
      var k := keys[|rs|];
      ghost var x := Spot(topic, partition, offsets[|rs|]);
      assert SpotOk(x) && KeyOf(x) == k;
      RecordRoundTrip(log[x]);
      var decoded := DecodeMessage(db[k]);
      rs := rs + [decoded.value];
    }
    FetchedIsFirst(log, topic, partition, start, max, offsets, rs);
  }

  lemma FetchedIsFirst(log: Log, topic: Bytes, partition: int, start: Int64, max: nat, offsets: seq<int>,
                       rs: seq<Record>)
    requires forall i :: 0 <= i < |offsets| ==> 0 <= offsets[i] < TWO_63 && Spot(topic, partition, offsets[i]) in log
    requires forall i, j :: 0 <= i < j < |offsets| ==> offsets[i] < offsets[j]
    requires forall x :: x in log ==> SpotOk(x)
    requires forall o :: o in offsets <==>
               Spot(topic, partition, o) in log && 0 <= o < TWO_63
               && !Less(RecordKey(topic, partition, o), RecordKey(topic, partition, start))
    requires |rs| <= |offsets| && (|rs| == max || |rs| == |offsets|) && |rs| <= max
    requires forall i :: 0 <= i < |rs| ==>
               rs[i].offset == offsets[i] && rs[i] == log[Spot(topic, partition, offsets[i])]
    ensures FirstFrom(log, topic, partition, start, max, rs)
  {
    hide RecordKey, Less;
    forall i | 0 <= i < |rs|
      ensures rs[i].offset >= start
    {
      assert offsets[i] in offsets;
      SeekFinds(topic, partition, start, offsets[i]);
    }
    forall o | o in Surviving(log, topic, partition, start)
      ensures (exists i :: 0 <= i < |rs| && rs[i].offset == o)
              || (|rs| == max && forall i :: 0 <= i < |rs| ==> rs[i].offset < o)
    {
      var x :| x in log && x.topic == topic && x.partition == partition && x.offset >= start && x.offset == o;
      assert x == Spot(topic, partition, o) && SpotOk(x);
      SeekFinds(topic, partition, start, o);
      var j :| 0 <= j < |offsets| && offsets[j] == o;
      if j < |rs| {
        assert rs[j].offset == o;
      }
    }
  }

  /** The records of one partition that a retention pass at `cutoff` removes. */
  predicate TooOld(log: Log, topic: Bytes, partition: int, cutoff: int, x: Spot) {
    x in log && x.topic == topic && x.partition == partition && log[x].timestamp < cutoff
  }

  /** Of the first `n` scanned offsets, `spots` are those too old, in order, and `oldKeys` their keys. */
  ghost predicate OldSoFar(log: Log, topic: Bytes, partition: int, cutoff: int, oldKeys: seq<Bytes>, spots: seq<Spot>,
                           offsets: seq<int>, n: nat) {
    && n <= |offsets| && |spots| == |oldKeys|
    && (forall i :: 0 <= i < |spots| ==>
          TooOld(log, topic, partition, cutoff, spots[i]) && SpotOk(spots[i]) && oldKeys[i] == KeyOf(spots[i]))
    && (forall i, j :: 0 <= i < j < |spots| ==> spots[i].offset < spots[j].offset)
    && (forall i, j :: 0 <= i < |spots| && n <= j < |offsets| ==> spots[i].offset < offsets[j])
    && (forall j :: 0 <= j < n && TooOld(log, topic, partition, cutoff, Spot(topic, partition, offsets[j]))
                    ==> Spot(topic, partition, offsets[j]) in spots)
  }

  lemma NoneOld(log: Log, topic: Bytes, partition: int, cutoff: int, offsets: seq<int>)
    ensures OldSoFar(log, topic, partition, cutoff, [], [], offsets, 0)
  {
  }

  lemma NextOld(log: Log, topic: Bytes, partition: int, cutoff: int, oldKeys: seq<Bytes>, spots: seq<Spot>,
                offsets: seq<int>, n: nat)
    requires OldSoFar(log, topic, partition, cutoff, oldKeys, spots, offsets, n) && n < |offsets|
    requires forall i, j :: 0 <= i < j < |offsets| ==> offsets[i] < offsets[j]
    requires Spot(topic, partition, offsets[n]) in log && SpotOk(Spot(topic, partition, offsets[n]))
    ensures var x := Spot(topic, partition, offsets[n]);
            if log[x].timestamp < cutoff
            then OldSoFar(log, topic, partition, cutoff, oldKeys + [KeyOf(x)], spots + [x], offsets, n + 1)
            else OldSoFar(log, topic, partition, cutoff, oldKeys, spots, offsets, n + 1)
  {
    hide SpotOk, KeyOf;
  }

  lemma AllOld(log: Log, topic: Bytes, partition: int, cutoff: int, oldKeys: seq<Bytes>, spots: seq<Spot>,
               offsets: seq<int>, x: Spot)
    requires OldSoFar(log, topic, partition, cutoff, oldKeys, spots, offsets, |offsets|)
    requires TooOld(log, topic, partition, cutoff, x) && x == Spot(topic, partition, x.offset) && x.offset in offsets
    ensures x in spots
  {
    hide SpotOk, KeyOf, TooOld;
    var j :| 0 <= j < |offsets| && offsets[j] == x.offset;
  }

  lemma OldResult(log: Log, topic: Bytes, partition: int, cutoff: int, oldKeys: seq<Bytes>, spots: seq<Spot>,
                  offsets: seq<int>, n: nat)
    requires OldSoFar(log, topic, partition, cutoff, oldKeys, spots, offsets, n)
    ensures |spots| == |oldKeys| && forall i :: 0 <= i < |spots| ==>
                                TooOld(log, topic, partition, cutoff, spots[i])
                                && SpotOk(spots[i]) && oldKeys[i] == KeyOf(spots[i])
    ensures forall i, j :: 0 <= i < j < |spots| ==> spots[i] != spots[j]
  {
    hide SpotOk, KeyOf, TooOld;
  }

  method FindOld(db: Store, ghost log: Log, topic: Bytes, partition: int, cutoff: int)
    returns (oldKeys: seq<Bytes>, ghost spots: seq<Spot>)
    requires LogStored(db, log) && ColonFree(topic)
    ensures |spots| == |oldKeys| && forall i :: 0 <= i < |spots| ==>
                                TooOld(log, topic, partition, cutoff, spots[i])
                                && SpotOk(spots[i]) && oldKeys[i] == KeyOf(spots[i])
    ensures forall i, j :: 0 <= i < j < |spots| ==> spots[i] != spots[j]
    ensures forall x :: TooOld(log, topic, partition, cutoff, x) ==> x in spots
  {
    hide RecordKey, RecordPrefix, RecordBytes, ParseRecord, Scan, RecordFamily, OldSoFar;
    var prefix := RecordPrefix(topic, partition);
    ghost var offsets := ScanOffsets(db, log, topic, partition, prefix);
    var keys := Scan(db, prefix, prefix);
    oldKeys, spots := [], [];
    NoneOld(log, topic, partition, cutoff, offsets);
    var n := 0;
    while n < |keys|
      invariant n <= |keys| && OldSoFar(log, topic, partition, cutoff, oldKeys, spots, offsets, n)
    {
      var k := keys[n];
      ghost var x := Spot(topic, partition, offsets[n]);
      assert SpotOk(x) && KeyOf(x) == k;
      RecordRoundTrip(log[x]);
      var decoded := DecodeMessage(db[k]);
      NextOld(log, topic, partition, cutoff, oldKeys, spots, offsets, n);
      if decoded.value.timestamp < cutoff {
        oldKeys := oldKeys + [k];
        spots := spots + [x];
      }
      n := n + 1;
    }
    forall x | TooOld(log, topic, partition, cutoff, x)
      ensures x in spots
    {
      assert SpotOk(x) && x == Spot(topic, partition, x.offset);
      ScanFromPrefix(topic, partition, x.offset);
      assert x.offset in offsets;
      AllOld(log, topic, partition, cutoff, oldKeys, spots, offsets, x);
    }
    OldResult(log, topic, partition, cutoff, oldKeys, spots, offsets, n);
  }

  lemma ScanFromPrefix(topic: Bytes, partition: int, o: int)
    requires 0 <= o < TWO_63
    ensures !Less(RecordKey(topic, partition, o), RecordPrefix(topic, partition))
  {
    hide RecordKey, RecordPrefix;
    RecordKeyIsPrefixed(topic, partition, o);
    PrefixNotLess(RecordPrefix(topic, partition), RecordKey(topic, partition, o));
  }

  /** What retention leaves of the log. */
  function Retained(log: Log, topic: Bytes, partition: int, cutoff: int): Log {
    map x | x in log && !TooOld(log, topic, partition, cutoff, x) :: log[x]
  }

  function SpotSet(spots: seq<Spot>): set<Spot> {
    set x | x in spots
  }

  method DeleteKeys(db: Store, ghost log: Log, oldKeys: seq<Bytes>, ghost spots: seq<Spot>) returns (txn: Store)
    requires LogStored(db, log)
    requires |spots| == |oldKeys|
    requires forall i :: 0 <= i < |spots| ==> spots[i] in log && SpotOk(spots[i]) && oldKeys[i] == KeyOf(spots[i])
    requires forall i, j :: 0 <= i < j < |spots| ==> spots[i] != spots[j]
    ensures LogStored(txn, log - SpotSet(spots)) && OnlyRecords(db, txn)
  {
    hide RecordKey, RecordBytes, RecordFamily, LogStored, KeyOf;
    txn := db;
    var i := 0;
    assert log - SpotSet(spots[..0]) == log;
    while i < |oldKeys|
      invariant i <= |oldKeys|
      invariant LogStored(txn, log - SpotSet(spots[..i])) && OnlyRecords(db, txn)
    {
      ghost var gone := SpotSet(spots[..i]);
      assert spots[..i + 1] == spots[..i] + [spots[i]];
      EraseStored(txn, log - gone, spots[i]);
      KeyOfFamily(spots[i]);
      assert (log - gone) - {spots[i]} == log - SpotSet(spots[..i + 1]);
      txn := txn - {oldKeys[i]};
      i := i + 1;
    }
    assert spots[..i] == spots;
  }

  // ---------- appending a batch ----------

  /** Every partition that occurs in the batch is listed with its positions, in order. */
  ghost predicate IsGrouping(ms: seq<PublishMessage>, groups: map<int, seq<nat>>) {
    forall q :: if q in groups then groups[q] == Positions(ms, q) && groups[q] != [] else Positions(ms, q) == []
  }

  /** `ks` are the partitions that occur in the batch. */
  ghost predicate Covers(ms: seq<PublishMessage>, ks: set<int>) {
    && (forall i :: 0 <= i < |ms| ==> ms[i].partition in ks)
    && (forall q :: q in ks ==> exists i :: 0 <= i < |ms| && ms[i].partition == q)
  }

  lemma GroupingCovers(ms: seq<PublishMessage>, groups: map<int, seq<nat>>)
    requires IsGrouping(ms, groups)
    ensures Covers(ms, groups.Keys)
  {
    forall i | 0 <= i < |ms|
      ensures ms[i].partition in groups.Keys
    {
      PositionIndex(ms, i);
    }
    forall q | q in groups.Keys
      ensures exists i :: 0 <= i < |ms| && ms[i].partition == q
    {
      assert ms[groups[q][0]].partition == q;
    }
  }

  /** Groups the positions of a batch by partition. */
  method GroupByPartition(ms: seq<PublishMessage>) returns (groups: map<int, seq<nat>>)
    ensures IsGrouping(ms, groups)
  {
    groups := map[];
    var i := 0;
    while i < |ms|
      invariant i <= |ms|
      invariant IsGrouping(ms[..i], groups)
    {
      var q := ms[i].partition;
      assert ms[..i + 1][..i] == ms[..i];
      groups := groups[q := (if q in groups then groups[q] else []) + [i]];
      i := i + 1;
    }
    assert ms[..i] == ms;
  }

  /** The next partition of a map iteration: any of those left. */
  method AnyOf<T(==)>(s: set<T>) returns (x: T)
    requires s != {}
    ensures x in s
  {
    x :| x in s;
  }

  /** The first `j` messages of the partition have their offsets, and the other partitions' are untouched. */
  ghost predicate Numbered(ms: seq<PublishMessage>, partition: int, at: seq<nat>, last: int, offsets: seq<int>,
                           offsets': seq<int>, j: nat) {
    && |offsets| == |offsets'| == |ms| && j <= |at|
    && (forall i :: 0 <= i < j ==> at[i] < |ms| && offsets'[at[i]] == last + 1 + i)
    && (forall i :: 0 <= i < |ms| && ms[i].partition != partition ==> offsets'[i] == offsets[i])
  }

  lemma NoneNumbered(ms: seq<PublishMessage>, partition: int, at: seq<nat>, last: int, offsets: seq<int>)
    requires |offsets| == |ms|
    ensures Numbered(ms, partition, at, last, offsets, offsets, 0)
  {
  }

  lemma NumberNext(ms: seq<PublishMessage>, partition: int, at: seq<nat>, last: int, offsets: seq<int>,
                   offsets': seq<int>, j: nat)
    requires Numbered(ms, partition, at, last, offsets, offsets', j) && j < |at| && at == Positions(ms, partition)
    ensures Numbered(ms, partition, at, last, offsets, offsets'[at[j] := last + 1 + j], j + 1)
  {
    hide Positions;
    forall i | 0 <= i < j
      ensures at[i] != at[j]
    {
      PositionsRank(ms, partition, i);
      PositionsRank(ms, partition, j);
    }
  }

  lemma AllNumbered(ms: seq<PublishMessage>, partition: int, at: seq<nat>, last: int, offsets: seq<int>,
                    offsets': seq<int>)
    requires Numbered(ms, partition, at, last, offsets, offsets', |at|) && at == Positions(ms, partition)
    ensures forall i :: 0 <= i < |ms| ==>
              offsets'[i] == if ms[i].partition == partition then last + 1 + EarlierInPartition(ms, i) else offsets[i]
  {
    hide Positions;
    forall i | 0 <= i < |ms| && ms[i].partition == partition
      ensures offsets'[i] == last + 1 + EarlierInPartition(ms, i)
    {
      PositionIndex(ms, i);
    }
  }

  /** The inner loop of a batch append: one partition's messages, in order. */
  method AppendPartition(p: Pending, topic: Bytes, partition: int, ms: seq<PublishMessage>, stamps: seq<Int64>,
                         at: seq<nat>,
                         offsets: seq<int>)
    returns (p': Pending, offsets': seq<int>)
    requires |stamps| == |ms| == |offsets| && RoomFor(p.counters, topic, ms, partition)
    requires at == Positions(ms, partition) && at != []
    ensures PartitionAppended(p, topic, ms, stamps, p', partition)
    ensures forall k :: k != PartitionKey(topic, partition) ==> SamePartition(p, p', k)
    ensures |offsets'| == |ms|
    ensures forall i :: 0 <= i < |ms| ==>
              offsets'[i] == if ms[i].partition == partition
                             then LastOffset(p.counters, PartitionKey(topic, partition)) + 1 + EarlierInPartition(ms, i)
                             else offsets[i]
  {
    hide PartitionKey, Stamp, SamePartition, Numbered;
    SameReflexive(p);
    assert ms[at[0]].partition == partition;
    PositionsCount(ms, partition);
    var k := PartitionKey(topic, partition);
    ghost var last := LastOffset(p.counters, k);
    ghost var messages := PartitionMessages(topic, partition, last, ms, stamps);
    p', offsets' := p, offsets;
    NoneNumbered(ms, partition, at, last, offsets);
    var j := 0;
    while j < |at|
      invariant j <= |at| && |offsets'| == |ms|
      invariant LastOffset(p'.counters, k) == last + j && (j > 0 ==> k in p'.counters && k in p'.buffer)
      invariant Buffered(p'.buffer, k) == Buffered(p.buffer, k) + messages[..j]
      invariant forall x :: x != k ==> SamePartition(p, p', x)
      invariant Numbered(ms, partition, at, last, offsets, offsets', j)
    {
      var item := at[j];
      var offset := LastOffset(p'.counters, k) + 1;
      var message := Stamp(topic, partition, offset, ms[item].key, ms[item].value, stamps[item]);
      assert messages[..j + 1] == messages[..j] + [message];
      ghost var before := p';
      p' := Pending(p'.counters[k := offset], BufferWrite(p'.buffer, k, message));
      AppendTouches(p, before, p', k, offset, message);
      NumberNext(ms, partition, at, last, offsets, offsets', j);
      offsets' := offsets'[item := offset];
      j := j + 1;
    }
    assert messages[..j] == messages;
    AllNumbered(ms, partition, at, last, offsets, offsets');
  }

  lemma SameReflexive(p: Pending)
    ensures forall k :: SamePartition(p, p, k)
  {
  }

  /** An append to one partition is not seen by the others. */
  lemma AppendTouches(p: Pending, q: Pending, q': Pending, k: Bytes, offset: int, m: Message)
    requires forall x :: x != k ==> SamePartition(p, q, x)
    requires q' == Pending(q.counters[k := offset], BufferWrite(q.buffer, k, m))
    ensures forall x :: x != k ==> SamePartition(p, q', x)
  {
    forall x | x != k
      ensures SamePartition(p, q', x)
    {
      assert SamePartition(p, q, x);
    }
  }

  /** A batch append: the partitions may be taken in any order, and the outcome is that of appending
      the messages one by one. */
  method AppendBatch(p: Pending, topic: Bytes, ms: seq<PublishMessage>, stamps: seq<Int64>)
    returns (p': Pending, offsets: seq<int>)
    requires |stamps| == |ms| && HasRoom(p.counters, topic, ms)
    ensures (p', offsets) == AppendEach(p, topic, ms, stamps)
    ensures |offsets| == |ms|
    ensures forall i :: 0 <= i < |ms| ==>
              offsets[i] == LastOffset(p.counters, PartitionKey(topic, ms[i].partition)) + 1 + EarlierInPartition(ms, i)
  {
    hide PartitionKey, PartitionAppended, SamePartition, EarlierInPartition, Positions, AppendEach, BatchPart,
         BatchAppended, Covers;
    var groups := GroupByPartition(ms);
    GroupingCovers(ms, groups);
    offsets := seq(|ms|, _ => 0);
    p' := p;
    var rest := groups.Keys;
    assert groups.Keys - rest == {};
    BatchPartNone(p, topic, ms, stamps, offsets);
    while rest != {}
      invariant rest <= groups.Keys && |offsets| == |ms|
      invariant BatchPart(p, topic, ms, stamps, groups.Keys - rest, p', offsets)
      decreases |rest|
    {
      var partition := AnyOf(rest);
      ghost var done, before, os := groups.Keys - rest, p', offsets;
      BatchPartRoom(p, topic, ms, stamps, done, p', offsets, partition);
      p', offsets := AppendPartition(p', topic, partition, ms, stamps, groups[partition], offsets);
      BatchPartNext(p, topic, ms, stamps, done, before, os, partition, p', offsets);
      rest := rest - {partition};
      assert groups.Keys - rest == done + {partition};
    }
    assert groups.Keys - rest == groups.Keys;
    BatchPartAll(p, topic, ms, stamps, groups.Keys, p', offsets);
    BatchIsEach(p, topic, ms, stamps, p', offsets);
    BatchOffsets(p, topic, ms, stamps, p', offsets);
  }

  lemma BatchPartNone(p: Pending, topic: Bytes, ms: seq<PublishMessage>, stamps: seq<Int64>, offsets: seq<int>)
    requires |stamps| == |ms| == |offsets| && HasRoom(p.counters, topic, ms)
    ensures BatchPart(p, topic, ms, stamps, {}, p, offsets)
  {
    SameReflexive(p);
  }

  lemma BatchOffsets(p: Pending, topic: Bytes, ms: seq<PublishMessage>, stamps: seq<Int64>, p': Pending,
                     offsets: seq<int>)
    requires |stamps| == |ms| && HasRoom(p.counters, topic, ms) && BatchAppended(p, topic, ms, stamps, p', offsets)
    ensures |offsets| == |ms|
    ensures forall i :: 0 <= i < |ms| ==>
              offsets[i] == LastOffset(p.counters, PartitionKey(topic, ms[i].partition)) + 1 + EarlierInPartition(ms, i)
  {
  }

  /** A batch of which the partitions `done` have been appended. */
  ghost predicate BatchPart(p: Pending, topic: Bytes, ms: seq<PublishMessage>, stamps: seq<Int64>, done: set<int>,
                            p': Pending, offsets: seq<int>)
    requires |stamps| == |ms| == |offsets| && HasRoom(p.counters, topic, ms)
  {
    && (forall i :: 0 <= i < |ms| && ms[i].partition in done ==>
          offsets[i] == LastOffset(p.counters, PartitionKey(topic, ms[i].partition)) + 1 + EarlierInPartition(ms, i))
    && (forall q :: q in done ==> PartitionAppended(p, topic, ms, stamps, p', q))
    && (forall k :: (forall q :: q in done ==> PartitionKey(topic, q) != k) ==> SamePartition(p, p', k))
  }

  lemma FreshKey(topic: Bytes, done: set<int>, partition: int)
    requires partition !in done
    ensures forall q :: q in done ==> PartitionKey(topic, q) != PartitionKey(topic, partition)
  {
    forall q | q in done
      ensures PartitionKey(topic, q) != PartitionKey(topic, partition)
    {
      PartitionKeyInjective(topic, q, topic, partition);
    }
  }

  lemma BatchPartRoom(p: Pending, topic: Bytes, ms: seq<PublishMessage>, stamps: seq<Int64>, done: set<int>,
                      p': Pending, offsets: seq<int>, partition: int)
    requires |stamps| == |ms| == |offsets| && HasRoom(p.counters, topic, ms) && partition !in done
    requires BatchPart(p, topic, ms, stamps, done, p', offsets)
    ensures SamePartition(p, p', PartitionKey(topic, partition))
    ensures RoomFor(p'.counters, topic, ms, partition)
  {
    hide PartitionKey, PartitionAppended;
    FreshKey(topic, done, partition);
  }

  lemma BatchPartNext(p: Pending, topic: Bytes, ms: seq<PublishMessage>, stamps: seq<Int64>, done: set<int>,
                      before: Pending, os: seq<int>, partition: int, after: Pending, offsets: seq<int>)
    requires |stamps| == |ms| == |os| == |offsets| && HasRoom(p.counters, topic, ms) && partition !in done
    requires BatchPart(p, topic, ms, stamps, done, before, os)
    requires PartitionAppended(before, topic, ms, stamps, after, partition)
    requires forall k :: k != PartitionKey(topic, partition) ==> SamePartition(before, after, k)
    requires forall i :: 0 <= i < |ms| ==>
               offsets[i] == if ms[i].partition == partition
                             then LastOffset(before.counters, PartitionKey(topic, partition)) + 1
                                  + EarlierInPartition(ms, i)
                             else os[i]
    ensures BatchPart(p, topic, ms, stamps, done + {partition}, after, offsets)
  {
    hide PartitionKey, PartitionAppended, EarlierInPartition;
    FreshKey(topic, done, partition);
    SameSymmetric(p, before, PartitionKey(topic, partition));
    AppendedElsewhere(before, p, topic, ms, stamps, after, after, partition);
    forall q | q in done
      ensures PartitionAppended(p, topic, ms, stamps, after, q)
    {
      AppendedElsewhere(p, p, topic, ms, stamps, before, after, q);
    }
    forall k | (forall q :: q in done + {partition} ==> PartitionKey(topic, q) != k)
      ensures SamePartition(p, after, k)
    {
      assert partition in done + {partition};
      SamePartitionTransitive(p, before, after, k);
    }
  }

  lemma SameSymmetric(a: Pending, b: Pending, k: Bytes)
    ensures SamePartition(a, b, k) <==> SamePartition(b, a, k)
  {
  }

  lemma BatchPartAll(p: Pending, topic: Bytes, ms: seq<PublishMessage>, stamps: seq<Int64>, done: set<int>,
                     p': Pending, offsets: seq<int>)
    requires |stamps| == |ms| == |offsets| && HasRoom(p.counters, topic, ms)
    requires BatchPart(p, topic, ms, stamps, done, p', offsets)
    requires Covers(ms, done)
    ensures BatchAppended(p, topic, ms, stamps, p', offsets)
  {
    hide PartitionKey, PartitionAppended, EarlierInPartition;
    forall k | (forall i :: 0 <= i < |ms| ==> PartitionKey(topic, ms[i].partition) != k)
      ensures SamePartition(p, p', k)
    {
      forall q | q in done
        ensures PartitionKey(topic, q) != k
      {
        var i :| 0 <= i < |ms| && ms[i].partition == q;
      }
    }
  }

  predicate RoomFor(counters: Counters, topic: Bytes, ms: seq<PublishMessage>, partition: int) {
    var last := LastOffset(counters, PartitionKey(topic, partition));
    (exists i :: 0 <= i < |ms| && ms[i].partition == partition) ==> -1 <= last && last + |ms| < TWO_63
  }

  // ---------- appends keep the books in order ----------

  lemma AppendKeepsOk(log: Log, p: Pending, topic: Bytes, m: PublishMessage, now: Int64)
    requires BufferOk(p.buffer) && Issued(log, p.buffer, p.counters)
    requires ColonFree(topic) && |m.key| < TWO_16 && |m.value| < TWO_32
    requires LastOffset(p.counters, PartitionKey(topic, m.partition)) + 1 < TWO_63
    ensures var q := AppendOne(p, topic, m, now).0;
            BufferOk(q.buffer) && Issued(log, q.buffer, q.counters)
  {
    hide PartitionKey, MessageOk;
    var k := PartitionKey(topic, m.partition);
    var q := AppendOne(p, topic, m, now).0;
    var offset := LastOffset(p.counters, k) + 1;
    var msg := Stamp(topic, m.partition, offset, m.key, m.value, now);
    StampOk(topic, m.partition, offset, m.key, m.value, now);
    CounterRaised(log, p.buffer, p.counters, k, offset);
    var ms := Buffered(p.buffer, k);
    assert QueueOk(k, ms) && (forall i :: 0 <= i < |ms| ==> ms[i].offset < offset && SpotOf(ms[i]) !in log) by {
      if k in p.buffer {
        assert QueueOk(k, p.buffer[k]) && QueueIssued(log, k, p.buffer[k], p.counters);
      }
    }
    assert q.buffer == p.buffer[k := ms + [msg]];
    assert QueueOk(k, ms + [msg]);
    assert SpotOf(msg) !in log by {
      assert SpotOf(msg) in log ==> SpotIssued(SpotOf(msg), p.counters);
    }
    assert QueueIssued(log, k, ms + [msg], q.counters);
    forall j | j in q.buffer
      ensures QueueIssued(log, j, q.buffer[j], q.counters)
    {
    }
  }

  lemma StampOk(topic: Bytes, partition: int, offset: int, key: Bytes, value: Bytes, now: Int64)
    requires ColonFree(topic) && |key| < TWO_16 && |value| < TWO_32 && 0 <= offset < TWO_63
    ensures MessageOk(Stamp(topic, partition, offset, key, value, now))
  {
  }

  lemma {:induction false} EachKeepsOk(log: Log, p: Pending, topic: Bytes, ms: seq<PublishMessage>, stamps: seq<Int64>)
    requires |stamps| == |ms| && HasRoom(p.counters, topic, ms)
    requires BufferOk(p.buffer) && Issued(log, p.buffer, p.counters) && ColonFree(topic)
    requires forall i :: 0 <= i < |ms| ==> |ms[i].key| < TWO_16 && |ms[i].value| < TWO_32
    ensures var q := AppendEach(p, topic, ms, stamps).0;
            BufferOk(q.buffer) && Issued(log, q.buffer, q.counters)
  {
    if ms != [] {
      hide PartitionKey, BufferOk, Issued, AppendOne;
      var n := |ms| - 1;
      var init, times := ms[..n], stamps[..n];
      assert forall i :: 0 <= i < n ==> init[i] == ms[i];
      EachKeepsOk(log, p, topic, init, times);
      var (before, os) := AppendEach(p, topic, init, times);
      RoomLeft(p, topic, ms, stamps, before, os);
      AppendKeepsOk(log, before, topic, ms[n], stamps[n]);
    }
  }

  lemma RoomLeft(p: Pending, topic: Bytes, ms: seq<PublishMessage>, stamps: seq<Int64>, before: Pending, os: seq<int>)
    requires |stamps| == |ms| > 0 && HasRoom(p.counters, topic, ms) && HasRoom(p.counters, topic, ms[..|ms| - 1])
    requires AppendEach(p, topic, ms[..|ms| - 1], stamps[..|ms| - 1]) == (before, os)
    ensures LastOffset(before.counters, PartitionKey(topic, ms[|ms| - 1].partition)) + 1 < TWO_63
  {
    hide PartitionKey, AppendEach;
    var n := |ms| - 1;
    EachIsBatch(p, topic, ms[..n], stamps[..n]);
    LastPartitionBefore(p, topic, ms, stamps, before, os);
    PositionsCount(ms[..n], ms[n].partition);
  }

  // ---------- what the calls promise, field by field ----------

  /** Everything stored before is still there; every buffered message is stored under its topic, partition and
      offset, with its timestamp, key and value; and nothing else is. */
  ghost predicate BufferStored(before: Log, buffer: WriteBuffer, after: Log) {
    && (forall x :: x in before ==> x in after && after[x] == before[x])
    && (forall k, i :: k in buffer && 0 <= i < |buffer[k]| ==> MessageStored(buffer[k][i], after))
    && (forall x :: x in after ==>
          x in before || exists k, i :: k in buffer && 0 <= i < |buffer[k]| && PlacedAt(buffer[k][i], x))
  }

  predicate MessageStored(m: Message, log: Log) {
    var x := Spot(m.topic, m.partition, m.offset);
    && x in log && log[x].offset == m.offset && log[x].timestamp == m.timestamp
    && log[x].key == m.key && log[x].value == m.value
  }

  predicate PlacedAt(m: Message, x: Spot) {
    x.topic == m.topic && x.partition == m.partition && x.offset == m.offset
  }

  lemma FlushedIsStored(before: Log, buffer: WriteBuffer)
    ensures forall after :: Flushed(before, buffer, after) ==> BufferStored(before, buffer, after)
  {
    forall after | Flushed(before, buffer, after)
      ensures BufferStored(before, buffer, after)
    {
      forall k, i | k in buffer && 0 <= i < |buffer[k]|
        ensures MessageStored(buffer[k][i], after)
      {
        assert after[SpotOf(buffer[k][i])] == RecordOf(buffer[k][i]);
      }
      forall x | x in after && x !in before
        ensures exists k, i :: k in buffer && 0 <= i < |buffer[k]| && PlacedAt(buffer[k][i], x)
      {
        var k :| k in buffer && Holding(buffer[k], x);
        var i :| 0 <= i < |buffer[k]| && SpotOf(buffer[k][i]) == x;
        assert PlacedAt(buffer[k][i], x);
      }
    }
  }

  /** The record of a partition at an offset from `start` on. */
  predicate InRange(log: Log, topic: Bytes, partition: int, start: int, o: int) {
    o >= start && Spot(topic, partition, o) in log
  }

  /** The answer of a fetch: stored records of the partition from `start` on, in offset order, at most `max`,
      and one can only be missing from it when it is full of lower offsets. */
  ghost predicate FirstOfPartition(log: Log, topic: Bytes, partition: int, start: int, max: int, rs: seq<Record>) {
    && |rs| <= max
    && (forall i :: 0 <= i < |rs| ==>
          InRange(log, topic, partition, start, rs[i].offset) && rs[i] == log[Spot(topic, partition, rs[i].offset)])
    && (forall i, j :: 0 <= i < j < |rs| ==> rs[i].offset < rs[j].offset)
    && (forall o :: InRange(log, topic, partition, start, o) ==>
          || (exists i :: 0 <= i < |rs| && rs[i].offset == o)
          || (|rs| == max && forall i :: 0 <= i < |rs| ==> rs[i].offset < o))
  }

  lemma FirstFromIs(log: Log, topic: Bytes, partition: int, start: int, max: nat, rs: seq<Record>)
    requires FirstFrom(log, topic, partition, start, max, rs)
    ensures FirstOfPartition(log, topic, partition, start, max, rs)
  {
    forall o | InRange(log, topic, partition, start, o)
      ensures o in Surviving(log, topic, partition, start)
    {
      assert Spot(topic, partition, o) in log;
    }
  }

  /** What has been appended is fetched: once the buffer that holds it has been flushed, a fetch from its offset
      or before, and not filled up by lower offsets, has a record with its key, value and timestamp. */
  lemma AppendedIsFetched(buffer: WriteBuffer, k: Bytes, i: nat, before: Log, log: Log, start: int, max: int,
                          rs: seq<Record>)
    requires k in buffer && i < |buffer[k]| && BufferStored(before, buffer, log)
    requires FirstOfPartition(log, buffer[k][i].topic, buffer[k][i].partition, start, max, rs)
    requires start <= buffer[k][i].offset
    requires |rs| < max || exists j :: 0 <= j < |rs| && rs[j].offset >= buffer[k][i].offset
    ensures exists j :: 0 <= j < |rs| && rs[j].offset == buffer[k][i].offset && rs[j].key == buffer[k][i].key
                        && rs[j].value == buffer[k][i].value && rs[j].timestamp == buffer[k][i].timestamp
  {
    var m := buffer[k][i];
    assert MessageStored(m, log);
    assert InRange(log, m.topic, m.partition, start, m.offset);
  }

  /** The record is of that partition, and older than the cutoff. */
  predicate Stale(log: Log, topic: Bytes, partition: int, cutoff: int, x: Spot) {
    x in log && x.topic == topic && x.partition == partition && log[x].timestamp < cutoff
  }

  lemma StaleIs(log: Log, topic: Bytes, partition: int, cutoff: int)
    ensures var after := Retained(log, topic, partition, cutoff);
            && (forall x :: x in after <==> x in log && !Stale(log, topic, partition, cutoff, x))
            && (forall x :: x in after ==> after[x] == log[x])
    ensures (set x | x in log && TooOld(log, topic, partition, cutoff, x))
         == set x | x in log && Stale(log, topic, partition, cutoff, x)
  {
  }

  /** The offset a store records for a partition, -1 if it records none. */
  method LoadOffset(db: Store, topic: Bytes, partition: int) returns (offset: int)
    ensures OffsetKey(topic, partition) !in db ==> offset == -1
    ensures OffsetKey(topic, partition) in db && |db[OffsetKey(topic, partition)]| >= 8 ==>
              offset == Signed64(GetU64(db[OffsetKey(topic, partition)], 0))
  {
    offset := -1;
    var offsetKey := OffsetKey(topic, partition);
    if offsetKey in db && |db[offsetKey]| >= 8 {
      offset := Signed64(GetU64(db[offsetKey], 0));
    }
  }

  datatype FetchResult = FetchedRecords(records: seq<Record>) | FetchPanicked

  class StreamStorage {
    var db: Store
    var partitionOffsets: Counters
    var writeBuffer: WriteBuffer

    /** The records that `db` holds, and the committed consumer offsets. */
    ghost var log: Log
    ghost var commits: map<Bytes, Int64>

    ghost predicate Valid()
      reads this
    {
      && LogStored(db, log) && CommitsStored(db, commits) && (forall t, p :: OffsetKey(t, p) !in db)
      && BufferOk(writeBuffer) && Issued(log, writeBuffer, partitionOffsets)
    }

    constructor ()
      ensures Valid() && log == map[] && commits == map[] && writeBuffer == map[] && partitionOffsets == map[]
    {
      db, partitionOffsets, writeBuffer := map[], map[], map[];
      log, commits := map[], map[];
    }

    /** The counter of a partition, created on first use from the stored offset, or -1. */
    method GetPartitionOffset(topic: Bytes, partition: int) returns (offset: int)
      requires Valid()
      modifies `partitionOffsets
      ensures Valid() && offset == LastOffset(old(partitionOffsets), PartitionKey(topic, partition))
      ensures var k := PartitionKey(topic, partition);
              offset == if k in old(partitionOffsets) then old(partitionOffsets)[k] else -1
      ensures partitionOffsets == old(partitionOffsets)[PartitionKey(topic, partition) := offset]
    {
      hide LogStored, CommitsStored, OffsetKey, BufferOk, PartitionKey, GetU64;
      var key := PartitionKey(topic, partition);
      if key in partitionOffsets {
        return partitionOffsets[key];
      }
      offset := LoadOffset(db, topic, partition);
      CounterRaised(log, writeBuffer, partitionOffsets, key, offset);
      partitionOffsets := partitionOffsets[key := offset];
    }

    /** Takes the next offset and buffers the message; says whether the partition's buffer has grown
        so large that a flush is started beside the caller. */
    method AppendMessage(topic: Bytes, partition: int, key: Bytes, value: Bytes, now: Int64)
      returns (offset: int, startFlush: bool)
      requires Valid() && ColonFree(topic) && |key| < TWO_16 && |value| < TWO_32
      requires LastOffset(partitionOffsets, PartitionKey(topic, partition)) + 1 < TWO_63
      modifies this
      ensures Valid() && db == old(db) && log == old(log) && commits == old(commits)
      ensures (Pending(partitionOffsets, writeBuffer), offset)
           == AppendOne(Pending(old(partitionOffsets), old(writeBuffer)), topic,
                        PublishMessage(partition, key, value), now)
      ensures var k := PartitionKey(topic, partition);
              && offset == (if k in old(partitionOffsets) then old(partitionOffsets)[k] else -1) + 1
              && partitionOffsets == old(partitionOffsets)[k := offset]
              && k in writeBuffer && writeBuffer == old(writeBuffer)[k := writeBuffer[k]]
              && var before := if k in old(writeBuffer) then old(writeBuffer)[k] else [];
                 |writeBuffer[k]| == |before| + 1 && writeBuffer[k][..|before|] == before
                 && var m := writeBuffer[k][|before|];
                    m.topic == topic && m.partition == partition && m.offset == offset
                    && m.key == key && m.value == value && m.timestamp == now
      ensures startFlush <==> |writeBuffer[PartitionKey(topic, partition)]| >= 1000
    {
      hide LogStored, CommitsStored, OffsetKey, BufferOk, PartitionKey;
      ghost var m := PublishMessage(partition, key, value);
      AppendKeepsOk(log, Pending(partitionOffsets, writeBuffer), topic, m, now);
      ghost var expected := AppendOne(Pending(partitionOffsets, writeBuffer), topic, m, now);
      var last := GetPartitionOffset(topic, partition);
      offset := last + 1;
      var partKey := PartitionKey(topic, partition);
      partitionOffsets := partitionOffsets[partKey := offset];
      var msg := Message(topic, partition, offset, key, value, now);
      writeBuffer := writeBuffer[partKey := (if partKey in writeBuffer then writeBuffer[partKey] else []) + [msg]];
      startFlush := |writeBuffer[partKey]| >= FLUSH_THRESHOLD;
      assert Pending(partitionOffsets, writeBuffer) == expected.0;
    }

    /** Appends a batch, message i stamped with stamps[i]. */
    method AppendMessageBatch(topic: Bytes, ms: seq<PublishMessage>, stamps: seq<Int64>) returns (offsets: seq<int>)
      requires Valid() && ColonFree(topic) && |stamps| == |ms| && HasRoom(partitionOffsets, topic, ms)
      requires forall i :: 0 <= i < |ms| ==> |ms[i].key| < TWO_16 && |ms[i].value| < TWO_32
      modifies this
      ensures Valid() && db == old(db) && log == old(log) && commits == old(commits)
      ensures (Pending(partitionOffsets, writeBuffer), offsets)
           == AppendEach(Pending(old(partitionOffsets), old(writeBuffer)), topic, ms, stamps)
      ensures |offsets| == |ms|
      ensures forall i :: 0 <= i < |ms| ==>
                offsets[i] == LastOffset(old(partitionOffsets), PartitionKey(topic, ms[i].partition)) + 1
                              + EarlierInPartition(ms, i)
      ensures EachBuffered(Pending(old(partitionOffsets), old(writeBuffer)), topic, ms, stamps,
                           Pending(partitionOffsets, writeBuffer), offsets)
    {
      hide PartitionKey, BufferOk, Issued, LogStored, CommitsStored, AppendEach, HasRoom, EachBuffered;
      EachKeepsOk(log, Pending(partitionOffsets, writeBuffer), topic, ms, stamps);
      var after;
      ghost var before := Pending(partitionOffsets, writeBuffer);
      after, offsets := AppendBatch(Pending(partitionOffsets, writeBuffer), topic, ms, stamps);
      BatchIsEach(before, topic, ms, stamps, after, offsets);
      AppendedIsEach(before, topic, ms, stamps, after, offsets);
      partitionOffsets, writeBuffer := after.counters, after.buffer;
    }

    /** Swaps the buffer out and writes it in one transaction. */
    method FlushWrites()
      requires Valid()
      modifies this
      ensures Valid() && writeBuffer == map[] && Flushed(old(log), old(writeBuffer), log)
      ensures BufferStored(old(log), old(writeBuffer), log)
      ensures partitionOffsets == old(partitionOffsets) && commits == old(commits)
    {
      FlushedIsStored(log, writeBuffer);
      hide LogStored, CommitsStored, OffsetKey, QueueOk, PartitionKey, OnlyRecords, Issued;
      if |writeBuffer| == 0 {
        return;
      }
      var buffer := writeBuffer;
      NoneStored(log, buffer, partitionOffsets);
      writeBuffer := map[];
      var txn;
      ghost var after;
      txn, after := WriteBuffered(db, log, buffer);
      OnlyRecordsFrame(db, txn, commits);
      FlushedIssued(log, buffer, after, partitionOffsets);
      db := txn;
      log := after;
    }

    /** The first `maxCount` surviving records from an offset on, counting what was still buffered.  A
        negative count panics, after the flush. */
    method FetchMessages(topic: Bytes, partition: int, startOffset: Int64, maxCount: int) returns (r: FetchResult)
      requires Valid() && ColonFree(topic)
      modifies this
      ensures Valid() && writeBuffer == map[] && Flushed(old(log), old(writeBuffer), log)
      ensures partitionOffsets == old(partitionOffsets) && commits == old(commits)
      ensures r.FetchPanicked? <==> maxCount < 0
      ensures BufferStored(old(log), old(writeBuffer), log)
      ensures r.FetchedRecords? ==> FirstFrom(log, topic, partition, startOffset, maxCount, r.records)
      ensures r.FetchedRecords? ==> FirstOfPartition(log, topic, partition, startOffset, maxCount, r.records)
    {
      FlushWrites();
      if maxCount < 0 {
        return FetchPanicked;
      }
      var rs := ReadFrom(db, log, topic, partition, startOffset, maxCount);
      FirstFromIs(log, topic, partition, startOffset, maxCount, rs);
      r := FetchedRecords(rs);
    }

    /** Removes a partition's records older than the retention period, and says how many. */
    method DeleteOldMessages(topic: Bytes, partition: int, retentionMs: Int64, now: Int64) returns (deleted: nat)
      requires Valid() && ColonFree(topic)
      modifies this
      ensures Valid() && log == Retained(old(log), topic, partition, WrapInt64(now - retentionMs))
      ensures deleted == |set x | x in old(log) && TooOld(old(log), topic, partition, WrapInt64(now - retentionMs), x)|
      ensures var cutoff := WrapInt64(now - retentionMs);
              && (forall x :: x in log <==> x in old(log) && !Stale(old(log), topic, partition, cutoff, x))
              && (forall x :: x in log ==> log[x] == old(log)[x])
              && deleted == |set x | x in old(log) && Stale(old(log), topic, partition, cutoff, x)|
      ensures writeBuffer == old(writeBuffer) && partitionOffsets == old(partitionOffsets) && commits == old(commits)
    {
      StaleIs(log, topic, partition, WrapInt64(now - retentionMs));
      hide LogStored, CommitsStored, OffsetKey, QueueOk, PartitionKey, OnlyRecords, WrapInt64;
      var cutoffTime := WrapInt64(now - retentionMs);
      var keysToDelete;
      ghost var spots;
      keysToDelete, spots := FindOld(db, log, topic, partition, cutoffTime);
      var txn := DeleteKeys(db, log, keysToDelete, spots);
      OnlyRecordsFrame(db, txn, commits);
      RetainedIs(log, topic, partition, cutoffTime, spots);
      RetainedIssued(log, topic, partition, cutoffTime, writeBuffer, partitionOffsets);
      db := txn;
      log := Retained(log, topic, partition, cutoffTime);
      deleted := |keysToDelete|;
    }

    /** Commits a consumer group's offset. */
    method CommitOffset(group: Bytes, topic: Bytes, partition: int, offset: Int64, now: Int64)
      requires Valid()
      modifies this
      ensures Valid() && commits == old(commits)[ConsumerKey(group, topic, partition) := offset]
      ensures log == old(log) && writeBuffer == old(writeBuffer) && partitionOffsets == old(partitionOffsets)
    {
      var key := ConsumerKey(group, topic, partition);
      var data := U64(offset) + U64(now);
      StreamKeys(group, topic, partition, 0);
      CommitStored(db, log, commits, key, offset, now);
      CommitKeepsCounters(db, key, data);
      db := db[key := data];
      commits := commits[key := offset];
    }

    /** The committed offset, 0 if there is none. */
    method GetConsumerOffset(group: Bytes, topic: Bytes, partition: int) returns (offset: Int64)
      requires Valid()
      ensures var key := ConsumerKey(group, topic, partition);
              offset == if key in commits then commits[key] else 0
    {
      var key := ConsumerKey(group, topic, partition);
      StreamKeys(group, topic, partition, 0);
      if key !in db {
        return 0;
      }
      offset := Signed64(GetU64(db[key], 0));
    }
  }

  /** A message that has just been appended is what a fetch of one message from its offset on returns. */
  method AppendThenFetch(storage: StreamStorage, topic: Bytes, partition: int, key: Bytes, value: Bytes, now: Int64)
    returns (offset: int, found: Record)
    requires storage.Valid() && ColonFree(topic) && |key| < TWO_16 && |value| < TWO_32
    requires LastOffset(storage.partitionOffsets, PartitionKey(topic, partition)) + 1 < TWO_63
    modifies storage
    ensures storage.Valid()
    ensures found.offset == offset && found.key == key && found.value == value && found.timestamp == now
  {
    hide Flushed, FirstFrom, PartitionKey, LogStored, CommitsStored, BufferOk, Issued, AppendOne, OffsetKey;
    hide BufferStored, FirstOfPartition;
    var startFlush;
    offset, startFlush := storage.AppendMessage(topic, partition, key, value, now);
    ghost var k, before, buffer := PartitionKey(topic, partition), storage.log, storage.writeBuffer;
    ghost var i := |buffer[k]| - 1;
    var r := storage.FetchMessages(topic, partition, offset, 1);
    OnlyOneFetched(buffer, k, i, before, storage.log, offset, r.records);
    found := r.records[0];
  }

  lemma OnlyOneFetched(buffer: WriteBuffer, k: Bytes, i: nat, before: Log, log: Log, offset: int, rs: seq<Record>)
    requires k in buffer && i < |buffer[k]| && BufferStored(before, buffer, log) && buffer[k][i].offset == offset
    requires FirstOfPartition(log, buffer[k][i].topic, buffer[k][i].partition, offset, 1, rs)
    ensures |rs| == 1 && rs[0].offset == offset && rs[0].key == buffer[k][i].key
            && rs[0].value == buffer[k][i].value && rs[0].timestamp == buffer[k][i].timestamp
  {
    var m := buffer[k][i];
    assert MessageStored(m, log);
    assert InRange(log, m.topic, m.partition, offset, offset);
    if |rs| == 1 {
      assert rs[0].offset >= offset;
    }
    AppendedIsFetched(buffer, k, i, before, log, offset, 1, rs);
  }

  lemma NoneStored(log: Log, buffer: WriteBuffer, counters: Counters)
    requires Issued(log, buffer, counters)
    ensures forall k, i :: k in buffer && 0 <= i < |buffer[k]| ==> SpotOf(buffer[k][i]) !in log
  {
    forall k, i | k in buffer && 0 <= i < |buffer[k]|
      ensures SpotOf(buffer[k][i]) !in log
    {
      assert QueueIssued(log, k, buffer[k], counters);
    }
  }

  lemma FlushedIssued(log: Log, buffer: WriteBuffer, after: Log, counters: Counters)
    requires Flushed(log, buffer, after) && BufferOk(buffer) && Issued(log, buffer, counters)
    ensures Issued(after, map[], counters)
  {
    hide PartitionKey, MessageOk;
    forall x | x in after
      ensures SpotIssued(x, counters)
    {
      if x in log {
        assert SpotIssued(x, counters);
      } else {
        var k :| k in buffer && Holding(buffer[k], x);
        assert QueueOk(k, buffer[k]) && QueueIssued(log, k, buffer[k], counters);
        var i :| 0 <= i < |buffer[k]| && SpotOf(buffer[k][i]) == x;
      }
    }
  }

  lemma RetainedIs(log: Log, topic: Bytes, partition: int, cutoff: int, spots: seq<Spot>)
    requires forall i :: 0 <= i < |spots| ==> TooOld(log, topic, partition, cutoff, spots[i])
    requires forall i, j :: 0 <= i < j < |spots| ==> spots[i] != spots[j]
    requires forall x :: TooOld(log, topic, partition, cutoff, x) ==> x in spots
    ensures log - SpotSet(spots) == Retained(log, topic, partition, cutoff)
    ensures |spots| == |set x | x in log && TooOld(log, topic, partition, cutoff, x)|
  {
    assert SpotSet(spots) == set x | x in log && TooOld(log, topic, partition, cutoff, x);
    SpotSetSize(spots);
  }

  lemma RetainedIssued(log: Log, topic: Bytes, partition: int, cutoff: int, buffer: WriteBuffer, counters: Counters)
    requires Issued(log, buffer, counters)
    ensures Issued(Retained(log, topic, partition, cutoff), buffer, counters)
  {
    hide SpotIssued, TooOld;
    var kept := Retained(log, topic, partition, cutoff);
    forall k | k in buffer
      ensures QueueIssued(kept, k, buffer[k], counters)
    {
      assert QueueIssued(log, k, buffer[k], counters);
    }
  }

  lemma {:induction false} SpotSetSize(spots: seq<Spot>)
    requires forall i, j :: 0 <= i < j < |spots| ==> spots[i] != spots[j]
    ensures |SpotSet(spots)| == |spots|
  {
    if spots != [] {
      var init, last := spots[..|spots| - 1], spots[|spots| - 1];
      SpotSetSize(init);
      assert spots == init + [last] && last !in init;
      assert SpotSet(spots) == SpotSet(init) + {last};
    }
  }

  lemma CommitKeepsCounters(db: Store, k: Bytes, data: Bytes)
    requires ConsumerFamily(k) && forall t, p :: OffsetKey(t, p) !in db
    ensures forall t, p :: OffsetKey(t, p) !in db[k := data]
  {
    hide OffsetKey, ConsumerFamily, RecordFamily;
    forall t, p
      ensures OffsetKey(t, p) != k
    {
      StreamKeys([], t, p, 0);
      StreamFamilies(k);
    }
  }
}
