/** How a store represents the stream logs, and what a range scan over it finds. */
module StreamRecords {
  import opened ByteStrings
  import opened OrderedStore
  import opened Decimal
  import opened Keys
  import opened StreamCodec

  type Store = map<Bytes, Bytes>

  /** Where a record is: topic, partition and offset. */
  datatype Spot = Spot(topic: Bytes, partition: int, offset: int)

  type Log = map<Spot, Record>

  predicate SpotOk(x: Spot) {
    ColonFree(x.topic) && 0 <= x.offset < TWO_63
  }

  function KeyOf(x: Spot): Bytes
    requires SpotOk(x)
  {
    RecordKey(x.topic, x.partition, x.offset)
  }

  /** Every record of the log is stored under its own key, and the record keys hold nothing else. */
  ghost predicate LogStored(db: Store, log: Log) {
    && (forall x :: x in log ==>
          SpotOk(x) && KeyOf(x) in db && db[KeyOf(x)] == RecordBytes(log[x])
          && RecordFits(log[x]) && log[x].offset == x.offset)
    && (forall k :: k in db && RecordFamily(k) ==> exists x :: x in log && SpotOk(x) && k == KeyOf(x))
  }

  /** Committed consumer offsets by key: eight bytes of offset, eight of commit time. */
  ghost predicate CommitsStored(db: Store, commits: map<Bytes, Int64>) {
    && (forall k :: ConsumerFamily(k) ==> (k in db <==> k in commits))
    && (forall k :: k in commits ==> ConsumerFamily(k) && |db[k]| == 16 && Signed64(GetU64(db[k], 0)) == commits[k])
  }

  lemma KeyOfInjective(x: Spot, y: Spot)
    requires SpotOk(x) && SpotOk(y)
    ensures KeyOf(x) == KeyOf(y) <==> x == y
  {
    RecordKeyInjective(x.topic, x.partition, x.offset, y.topic, y.partition, y.offset);
  }

  lemma KeyOfFamily(x: Spot)
    requires SpotOk(x)
    ensures RecordFamily(KeyOf(x)) && !ConsumerFamily(KeyOf(x))
  {
    StreamKeys([], x.topic, x.partition, x.offset);
    StreamFamilies(KeyOf(x));
  }

  lemma AppendStored(db: Store, log: Log, x: Spot, r: Record)
    requires LogStored(db, log) && SpotOk(x) && RecordFits(r) && r.offset == x.offset
    ensures LogStored(db[KeyOf(x) := RecordBytes(r)], log[x := r])
  {
    hide RecordKey, RecordBytes, RecordFamily, KeyOf;
    var db', log' := db[KeyOf(x) := RecordBytes(r)], log[x := r];
    forall y | y in log'
      ensures SpotOk(y) && KeyOf(y) in db' && db'[KeyOf(y)] == RecordBytes(log'[y])
    {
      KeyOfInjective(x, y);
    }
    forall k | k in db' && RecordFamily(k)
      ensures exists y :: y in log' && SpotOk(y) && k == KeyOf(y)
    {
      if k == KeyOf(x) {
        assert x in log';
      } else {
        var y :| y in log && SpotOk(y) && k == KeyOf(y);
        assert y in log';
      }
    }
  }

  lemma EraseStored(db: Store, log: Log, x: Spot)
    requires LogStored(db, log) && x in log
    ensures LogStored(db - {KeyOf(x)}, log - {x})
  {
    hide RecordKey, RecordBytes, RecordFamily, KeyOf;
    var db', log' := db - {KeyOf(x)}, log - {x};
    forall y | y in log'
      ensures SpotOk(y) && KeyOf(y) in db' && db'[KeyOf(y)] == RecordBytes(log'[y])
    {
      KeyOfInjective(x, y);
    }
    forall k | k in db' && RecordFamily(k)
      ensures exists y :: y in log' && SpotOk(y) && k == KeyOf(y)
    {
      var y :| y in log && SpotOk(y) && k == KeyOf(y);
      assert y in log';
    }
  }

  lemma CommitStored(db: Store, log: Log, commits: map<Bytes, Int64>, k: Bytes, offset: Int64, now: Int64)
    requires LogStored(db, log) && CommitsStored(db, commits) && ConsumerFamily(k)
    ensures LogStored(db[k := U64(offset) + U64(now)], log)
    ensures CommitsStored(db[k := U64(offset) + U64(now)], commits[k := offset])
  {
    hide U64, GetU64, RecordFamily, ConsumerFamily, KeyOf;
    var data := U64(offset) + U64(now);
    var db' := db[k := data];
    assert data[0..8] == U64(offset);
    ReadU64(data, 0, offset);
    SignedPattern(GetU64(data, 0), offset);
    forall x | x in log
      ensures KeyOf(x) != k
    {
      KeyOfFamily(x);
    }
    StreamFamilies(k);
    forall j | j in db' && RecordFamily(j)
      ensures exists x :: x in log && SpotOk(x) && j == KeyOf(x)
    {
      assert j in db;
    }
  }

  lemma RecordsKeepCommits(db: Store, db': Store, commits: map<Bytes, Int64>)
    requires CommitsStored(db, commits)
    requires forall k :: ConsumerFamily(k) ==> (k in db <==> k in db') && (k in db ==> db[k] == db'[k])
    ensures CommitsStored(db', commits)
  {
  }

  // ---------- range scans ----------

  /** The offsets of one partition's keys at or after `seek`, in the order of a prefix scan. */
  lemma ScanOffsets(db: Store, log: Log, topic: Bytes, partition: int, seek: Bytes) returns (offsets: seq<int>)
    requires LogStored(db, log) && ColonFree(topic)
    ensures var ks := Scan(db, RecordPrefix(topic, partition), seek);
            |offsets| == |ks| && forall i :: 0 <= i < |ks| ==>
                                   0 <= offsets[i] < TWO_63 && ks[i] == RecordKey(topic, partition, offsets[i])
                                   && Spot(topic, partition, offsets[i]) in log
    ensures forall i, j :: 0 <= i < j < |offsets| ==> offsets[i] < offsets[j]
    ensures forall o :: o in offsets <==>
              Spot(topic, partition, o) in log && 0 <= o < TWO_63 && !Less(RecordKey(topic, partition, o), seek)
  {
    hide RecordKey, RecordPrefix, RecordFamily, Scan, RecordBytes;
    var p := RecordPrefix(topic, partition);
    var ks := Scan(db, p, seek);
    offsets := [];
    while |offsets| < |ks|
      invariant |offsets| <= |ks|
      invariant forall i :: 0 <= i < |offsets| ==>
                  0 <= offsets[i] < TWO_63 && ks[i] == RecordKey(topic, partition, offsets[i])
                  && Spot(topic, partition, offsets[i]) in log
    {
      var k := ks[|offsets|];
      assert k in ks;
      PrefixedIsRecord(topic, partition, k);
      var x :| x in log && SpotOk(x) && k == KeyOf(x);
      RecordPrefixExact(topic, partition, x.topic, x.partition, x.offset);
      assert x == Spot(topic, partition, x.offset);
      offsets := offsets + [x.offset];
    }
    forall i, j | 0 <= i < j < |offsets|
      ensures offsets[i] < offsets[j]
    {
      RecordKeyOrder(topic, partition, offsets[i], offsets[j]);
    }
    forall o
      ensures o in offsets <==>
        Spot(topic, partition, o) in log && 0 <= o < TWO_63 && !Less(RecordKey(topic, partition, o), seek)
    {
      if o in offsets {
        var i :| 0 <= i < |offsets| && offsets[i] == o;
        assert ks[i] in ks;
      }
      if Spot(topic, partition, o) in log && 0 <= o < TWO_63 && !Less(RecordKey(topic, partition, o), seek) {
        var x := Spot(topic, partition, o);
        assert SpotOk(x) && KeyOf(x) in db;
        RecordPrefixExact(topic, partition, topic, partition, o);
        assert RecordKey(topic, partition, o) in ks;
        var i :| 0 <= i < |ks| && ks[i] == RecordKey(topic, partition, o);
        RecordKeyInjective(topic, partition, o, topic, partition, offsets[i]);
        assert offsets[i] == o;
      }
    }
  }

  lemma PrefixedIsRecord(topic: Bytes, partition: int, k: Bytes)
    requires RecordPrefix(topic, partition) <= k
    ensures RecordFamily(k)
  {
    var head := Ascii("stream:msg:");
    assert head <= RecordPrefix(topic, partition);
  }

  /** Keys of one partition sort as their offsets do; a negative seek offset sorts before all of them. */
  lemma RecordKeyOrder(topic: Bytes, partition: int, m: int, n: int)
    requires -TWO_63 <= m < TWO_63 && 0 <= n < TWO_63
    ensures m < n <==> Less(RecordKey(topic, partition, m), RecordKey(topic, partition, n))
    ensures m == n <==> RecordKey(topic, partition, m) == RecordKey(topic, partition, n)
  {
    var p := RecordPrefix(topic, partition);
    RecordKeyIsPrefixed(topic, partition, m);
    RecordKeyIsPrefixed(topic, partition, n);
    LessAfterPrefix(p, Pad20(m), Pad20(n));
    SamePrefix(p, Pad20(m), Pad20(n));
    Pad20Order(m, n);
  }

  /** Seeking to the key of `start`, negative or not, finds exactly the records from `start` on. */
  lemma SeekFinds(topic: Bytes, partition: int, start: Int64, o: int)
    requires 0 <= o < TWO_63
    ensures !Less(RecordKey(topic, partition, o), RecordKey(topic, partition, start)) <==> o >= start
  {
    var a, b := RecordKey(topic, partition, start), RecordKey(topic, partition, o);
    RecordKeyOrder(topic, partition, start, o);
    LessTotal(a, b);
    LessIrreflexive(a);
    if Less(a, b) {
      LessAsymmetric(a, b);
    }
  }

  // ---------- what a fetch must return ----------

  function Surviving(log: Log, topic: Bytes, partition: int, start: int): set<int> {
    set x | x in log && x.topic == topic && x.partition == partition && x.offset >= start :: x.offset
  }

  /** `rs` are the first `max` surviving records of the partition with offset at least `start`, in
      offset order, each with its own offset, timestamp, key and value. */
  ghost predicate FirstFrom(log: Log, topic: Bytes, partition: int, start: int, max: nat, rs: seq<Record>) {
    && |rs| <= max
    && (forall i, j :: 0 <= i < j < |rs| ==> rs[i].offset < rs[j].offset)
    && (forall i :: 0 <= i < |rs| ==>
          rs[i].offset >= start && Spot(topic, partition, rs[i].offset) in log
          && rs[i] == log[Spot(topic, partition, rs[i].offset)])
    && (forall o :: o in Surviving(log, topic, partition, start) ==>
          (exists i :: 0 <= i < |rs| && rs[i].offset == o)
          || (|rs| == max && forall i :: 0 <= i < |rs| ==> rs[i].offset < o))
  }

  /** The description determines the answer. */
  lemma {:induction false} FirstFromUnique(log: Log, topic: Bytes, partition: int, start: int, max: nat,
                                           rs: seq<Record>, qs: seq<Record>)
    requires FirstFrom(log, topic, partition, start, max, rs) && FirstFrom(log, topic, partition, start, max, qs)
    requires |rs| <= |qs|
    ensures rs == qs
  {
    var k := 0;
    while k < |rs|
      invariant k <= |rs|
      invariant rs[..k] == qs[..k]
    {
      SameNext(log, topic, partition, start, max, rs, qs, k);
      assert rs[..k + 1] == rs[..k] + [rs[k]] && qs[..k + 1] == qs[..k] + [qs[k]];
      k := k + 1;
    }
    assert rs[..k] == rs;
    assert forall i :: 0 <= i < |rs| ==> rs[i] == qs[..k][i] == qs[i];
    if |rs| < |qs| {
      ReturnedSurvives(log, topic, partition, start, max, qs, |rs|);
    }
    assert qs[..k] == qs;
  }

  lemma ReturnedSurvives(log: Log, topic: Bytes, partition: int, start: int, max: nat, rs: seq<Record>, i: nat)
    requires FirstFrom(log, topic, partition, start, max, rs) && i < |rs|
    ensures rs[i].offset in Surviving(log, topic, partition, start)
  {
    assert Spot(topic, partition, rs[i].offset) in log;
  }

  lemma SameNext(log: Log, topic: Bytes, partition: int, start: int, max: nat, rs: seq<Record>, qs: seq<Record>, k: nat)
    requires FirstFrom(log, topic, partition, start, max, rs) && FirstFrom(log, topic, partition, start, max, qs)
    requires k < |rs| && k < |qs| && rs[..k] == qs[..k]
    ensures rs[k] == qs[k]
  {
    NotAfter(log, topic, partition, start, max, rs, qs, k);
    NotAfter(log, topic, partition, start, max, qs, rs, k);
  }

  /** Neither answer can skip what the other one has next. */
  lemma NotAfter(log: Log, topic: Bytes, partition: int, start: int, max: nat, rs: seq<Record>, qs: seq<Record>, k: nat)
    requires FirstFrom(log, topic, partition, start, max, rs) && FirstFrom(log, topic, partition, start, max, qs)
    requires k < |rs| && k < |qs| && rs[..k] == qs[..k]
    ensures rs[k].offset <= qs[k].offset
  {
    var o := qs[k].offset;
    assert Spot(topic, partition, o) in log && o in Surviving(log, topic, partition, start);
    if exists i :: 0 <= i < |rs| && rs[i].offset == o {
      var i :| 0 <= i < |rs| && rs[i].offset == o;
      if i < k {
        assert rs[i] == rs[..k][i] == qs[..k][i] == qs[i];
      }
    }
  }
}
