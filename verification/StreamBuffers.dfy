/** Appending to partitions: offset counters, the shared write buffer, and what appending a whole
    batch amounts to. */
module StreamBuffers {
  import opened ByteStrings
  import opened Keys
  import opened StreamCodec

  /** The write buffer: the messages of each partition, in the order they were buffered. */
  type WriteBuffer = map<Bytes, seq<Message>>

  /** The last offset handed out per partition; -1 before the first. */
  type Counters = map<Bytes, int>

  datatype Pending = Pending(counters: Counters, buffer: WriteBuffer)

  datatype PublishMessage = PublishMessage(partition: int, key: Bytes, value: Bytes)

  function LastOffset(counters: Counters, k: Bytes): int {
    if k in counters then counters[k] else -1
  }

  function Buffered(buffer: WriteBuffer, k: Bytes): seq<Message> {
    if k in buffer then buffer[k] else []
  }

  function BufferWrite(buffer: WriteBuffer, k: Bytes, m: Message): WriteBuffer {
    buffer[k := Buffered(buffer, k) + [m]]
  }

  predicate IsInt64(n: int) {
    -TWO_63 <= n < TWO_63
  }

  /** The message that an append to a partition creates. */
  function Stamp(topic: Bytes, partition: int, offset: int, key: Bytes, value: Bytes, now: Int64): Message
    requires IsInt64(offset)
  {
    Message(topic, partition, offset, key, value, now)
  }

  /** One append: the next offset is taken and the message buffered under it. */
  function AppendOne(p: Pending, topic: Bytes, m: PublishMessage, now: Int64): (Pending, int) {
    var k := PartitionKey(topic, m.partition);
    var offset := LastOffset(p.counters, k) + 1;
    if IsInt64(offset) then
      (Pending(p.counters[k := offset],
               BufferWrite(p.buffer, k, Stamp(topic, m.partition, offset, m.key, m.value, now))), offset)
    else (p, offset)
  }

  /** Appending the messages of a batch one by one, message i at time stamps[i]. */
  function AppendEach(p: Pending, topic: Bytes, ms: seq<PublishMessage>, stamps: seq<Int64>): (Pending, seq<int>)
    requires |stamps| == |ms|
  {
    if ms == [] then (p, [])
    else
      var n := |ms| - 1;
      var (before, offsets) := AppendEach(p, topic, ms[..n], stamps[..n]);
      var (after, offset) := AppendOne(before, topic, ms[n], stamps[n]);
      (after, offsets + [offset])
  }

  // ---------- a batch, partition by partition ----------

  /** The positions of a batch that go to one partition, in order. */
  function Positions(ms: seq<PublishMessage>, partition: int): (at: seq<nat>)
    ensures forall j :: 0 <= j < |at| ==> at[j] < |ms| && ms[at[j]].partition == partition
  {
    if ms == [] then []
    else
      var n := |ms| - 1;
      var before := Positions(ms[..n], partition);
      if ms[n].partition == partition then before + [n] else before
  }

  /** How many earlier messages of the batch go to the same partition. */
  function EarlierInPartition(ms: seq<PublishMessage>, i: nat): nat
    requires i < |ms|
  {
    |Positions(ms[..i], ms[i].partition)|
  }

  /** The messages that a batch buffers for one partition when its last offset was `last`. */
  function PartitionMessages(topic: Bytes, partition: int, last: int, ms: seq<PublishMessage>,
                             stamps: seq<Int64>): seq<Message>
    requires |stamps| == |ms| && -1 <= last && last + |ms| < TWO_63
  {
    var at := Positions(ms, partition);
    PositionsCount(ms, partition);
    seq(|at|, j requires 0 <= j < |at| =>
      Stamp(topic, partition, last + 1 + j, ms[at[j]].key, ms[at[j]].value, stamps[at[j]]))
  }

  lemma {:induction false} PositionsCount(ms: seq<PublishMessage>, partition: int)
    ensures |Positions(ms, partition)| <= |ms|
  {
    if ms != [] {
      PositionsCount(ms[..|ms| - 1], partition);
    }
  }

  /** Position i is the (number of earlier ones)-th of its partition. */
  lemma {:induction false} PositionIndex(ms: seq<PublishMessage>, i: nat)
    requires i < |ms|
    ensures var at := Positions(ms, ms[i].partition);
            EarlierInPartition(ms, i) < |at| && at[EarlierInPartition(ms, i)] == i
    decreases |ms|
  {
    var n := |ms| - 1;
    if i < n {
      PositionIndex(ms[..n], i);
      assert ms[..n][..i] == ms[..i];
    }
  }

  lemma {:induction false} PositionsRank(ms: seq<PublishMessage>, partition: int, j: nat)
    requires j < |Positions(ms, partition)|
    ensures EarlierInPartition(ms, Positions(ms, partition)[j]) == j
    decreases |ms|
  {
    var n := |ms| - 1;
    var before := Positions(ms[..n], partition);
    if j < |before| {
      PositionsRank(ms[..n], partition, j);
      assert ms[..n][..before[j]] == ms[..before[j]];
    }
  }

  /** Room for a whole batch below the last int64 in every partition of a topic. */
  predicate HasRoom(counters: Counters, topic: Bytes, ms: seq<PublishMessage>) {
    forall i :: 0 <= i < |ms| ==>
      var last := LastOffset(counters, PartitionKey(topic, ms[i].partition));
      -1 <= last && last + |ms| < TWO_63
  }

  /** What appending a batch must come to, whatever order its partitions are taken in. */
  ghost predicate BatchAppended(p: Pending, topic: Bytes, ms: seq<PublishMessage>, stamps: seq<Int64>,
                                p': Pending, offsets: seq<int>)
    requires |stamps| == |ms| && HasRoom(p.counters, topic, ms)
  {
    && |offsets| == |ms|
    && (forall i :: 0 <= i < |ms| ==>
          offsets[i] == LastOffset(p.counters, PartitionKey(topic, ms[i].partition)) + 1 + EarlierInPartition(ms, i))
    && (forall partition :: (exists i :: 0 <= i < |ms| && ms[i].partition == partition) ==>
          PartitionAppended(p, topic, ms, stamps, p', partition))
    && (forall k :: (forall i :: 0 <= i < |ms| ==> PartitionKey(topic, ms[i].partition) != k) ==>
          SamePartition(p, p', k))
  }

  predicate SamePartition(p: Pending, p': Pending, k: Bytes) {
    && (k in p.counters <==> k in p'.counters) && (k in p.counters ==> p.counters[k] == p'.counters[k])
    && (k in p.buffer <==> k in p'.buffer) && (k in p.buffer ==> p.buffer[k] == p'.buffer[k])
  }

  predicate PartitionAppended(p: Pending, topic: Bytes, ms: seq<PublishMessage>, stamps: seq<Int64>, p': Pending,
                              partition: int)
    requires |stamps| == |ms|
  {
    var k := PartitionKey(topic, partition);
    var last := LastOffset(p.counters, k);
    && -1 <= last && last + |ms| < TWO_63
    && k in p'.counters && p'.counters[k] == last + |Positions(ms, partition)|
    && k in p'.buffer && p'.buffer[k] == Buffered(p.buffer, k) + PartitionMessages(topic, partition, last, ms, stamps)
  }

  lemma BatchUnique(p: Pending, topic: Bytes, ms: seq<PublishMessage>, stamps: seq<Int64>,
                    a: Pending, os: seq<int>, b: Pending, qs: seq<int>)
    requires |stamps| == |ms| && HasRoom(p.counters, topic, ms)
    requires BatchAppended(p, topic, ms, stamps, a, os) && BatchAppended(p, topic, ms, stamps, b, qs)
    ensures a == b && os == qs
  {
    hide Positions, PartitionMessages, EarlierInPartition, PartitionKey;
    forall k
      ensures SamePartition(a, b, k)
    {
      if i :| 0 <= i < |ms| && PartitionKey(topic, ms[i].partition) == k {
        assert PartitionAppended(p, topic, ms, stamps, a, ms[i].partition);
        assert PartitionAppended(p, topic, ms, stamps, b, ms[i].partition);
      } else {
        assert SamePartition(p, a, k) && SamePartition(p, b, k);
      }
    }
    SameEverywhere(a, b);
  }

  lemma SameEverywhere(a: Pending, b: Pending)
    requires forall k :: SamePartition(a, b, k)
    ensures a == b
  {
    forall k
      ensures k in a.counters <==> k in b.counters
      ensures k in a.counters ==> a.counters[k] == b.counters[k]
      ensures k in a.buffer <==> k in b.buffer
      ensures k in a.buffer ==> a.buffer[k] == b.buffer[k]
    {
      assert SamePartition(a, b, k);
    }
    assert a.counters == b.counters;
    assert a.buffer == b.buffer;
  }

  /** The last message of a batch is appended where the shorter batch left its partition. */
  lemma AppendNext(p: Pending, topic: Bytes, ms: seq<PublishMessage>, stamps: seq<Int64>, before: Pending)
    requires |stamps| == |ms| > 0 && HasRoom(p.counters, topic, ms) && HasRoom(p.counters, topic, ms[..|ms| - 1])
    requires var n := |ms| - 1;
             if exists i :: 0 <= i < n && ms[i].partition == ms[n].partition
             then PartitionAppended(p, topic, ms[..n], stamps[..n], before, ms[n].partition)
             else SamePartition(p, before, PartitionKey(topic, ms[n].partition))
    ensures var n := |ms| - 1;
            var (after, offset) := AppendOne(before, topic, ms[n], stamps[n]);
            && offset == LastOffset(p.counters, PartitionKey(topic, ms[n].partition)) + 1 + EarlierInPartition(ms, n)
            && PartitionAppended(p, topic, ms, stamps, after, ms[n].partition)
            && forall k :: k != PartitionKey(topic, ms[n].partition) ==> SamePartition(before, after, k)
  {
    hide PartitionKey, Positions, PartitionMessages, Stamp;
    var n := |ms| - 1;
    var partition := ms[n].partition;
    var k := PartitionKey(topic, partition);
    var last := LastOffset(p.counters, k);
    PositionsCount(ms[..n], partition);
    MessagesNext(topic, last, ms, stamps);
    if !(exists i :: 0 <= i < n && ms[i].partition == partition) {
      assert forall i :: 0 <= i < n ==> ms[..n][i] == ms[i];
      NoPositions(ms[..n], partition);
      NoMessages(topic, partition, last, ms[..n], stamps[..n]);
    }
    var part := PartitionMessages(topic, partition, last, ms[..n], stamps[..n]);
    assert Buffered(before.buffer, k) == Buffered(p.buffer, k) + part;
    var m := Stamp(topic, partition, last + 1 + |Positions(ms[..n], partition)|, ms[n].key, ms[n].value, stamps[n]);
    assert Buffered(p.buffer, k) + part + [m] == Buffered(p.buffer, k) + (part + [m]);
  }

  lemma NoMessages(topic: Bytes, partition: int, last: int, ms: seq<PublishMessage>, stamps: seq<Int64>)
    requires |stamps| == |ms| && -1 <= last && last + |ms| < TWO_63 && Positions(ms, partition) == []
    ensures PartitionMessages(topic, partition, last, ms, stamps) == []
  {
  }

  /** The last message of a batch extends the positions and the messages of its own partition. */
  lemma MessagesNext(topic: Bytes, last: int, ms: seq<PublishMessage>, stamps: seq<Int64>)
    requires |stamps| == |ms| > 0 && -1 <= last && last + |ms| < TWO_63
    ensures var n := |ms| - 1;
            var q := ms[n].partition;
            var before := |Positions(ms[..n], q)|;
            && before <= n && |Positions(ms, q)| == before + 1
            && PartitionMessages(topic, q, last, ms, stamps)
               == PartitionMessages(topic, q, last, ms[..n], stamps[..n])
                  + [Stamp(topic, q, last + 1 + before, ms[n].key, ms[n].value, stamps[n])]
  {
    PositionsCount(ms[..|ms| - 1], ms[|ms| - 1].partition);
  }

  lemma {:induction false} NoPositions(ms: seq<PublishMessage>, partition: int)
    requires forall i :: 0 <= i < |ms| ==> ms[i].partition != partition
    ensures Positions(ms, partition) == []
  {
    if ms != [] {
      NoPositions(ms[..|ms| - 1], partition);
    }
  }

  lemma {:induction false} EachIsBatch(p: Pending, topic: Bytes, ms: seq<PublishMessage>, stamps: seq<Int64>)
    requires |stamps| == |ms| && HasRoom(p.counters, topic, ms)
    ensures var (p', offsets) := AppendEach(p, topic, ms, stamps);
            BatchAppended(p, topic, ms, stamps, p', offsets)
  {
    if ms != [] {
      var n := |ms| - 1;
      var init, times := ms[..n], stamps[..n];
      assert HasRoom(p.counters, topic, init) by {
        assert forall i :: 0 <= i < |init| ==> init[i] == ms[i];
      }
      EachIsBatch(p, topic, init, times);
      var (before, os) := AppendEach(p, topic, init, times);
      BatchNext(p, topic, ms, stamps, before, os);
    }
  }

  /** A batch extended by one message. */
  lemma BatchNext(p: Pending, topic: Bytes, ms: seq<PublishMessage>, stamps: seq<Int64>, before: Pending, os: seq<int>)
    requires |stamps| == |ms| > 0 && HasRoom(p.counters, topic, ms) && HasRoom(p.counters, topic, ms[..|ms| - 1])
    requires BatchAppended(p, topic, ms[..|ms| - 1], stamps[..|ms| - 1], before, os)
    ensures var (after, offset) := AppendOne(before, topic, ms[|ms| - 1], stamps[|ms| - 1]);
            BatchAppended(p, topic, ms, stamps, after, os + [offset])
  {
    hide PartitionKey, PartitionAppended, AppendOne, SamePartition, Positions;
    var n := |ms| - 1;
    var init := ms[..n];
    LastPartitionBefore(p, topic, ms, stamps, before, os);
    AppendNext(p, topic, ms, stamps, before);
    var (after, offset) := AppendOne(before, topic, ms[n], stamps[n]);
    forall i | 0 <= i < n
      ensures EarlierInPartition(init, i) == EarlierInPartition(ms, i)
    {
      assert init[..i] == ms[..i];
    }
    forall q | (exists i :: 0 <= i < |ms| && ms[i].partition == q)
      ensures PartitionAppended(p, topic, ms, stamps, after, q)
    {
      if q != ms[n].partition {
        var i :| 0 <= i < |ms| && ms[i].partition == q;
        assert init[i].partition == q;
        PartitionKeyInjective(topic, q, topic, ms[n].partition);
        OtherPartition(p, topic, ms, stamps, before, after, q);
      }
    }
    forall k | (forall i :: 0 <= i < |ms| ==> PartitionKey(topic, ms[i].partition) != k)
      ensures SamePartition(p, after, k)
    {
      assert forall i :: 0 <= i < |init| ==> init[i] == ms[i];
      SamePartitionTransitive(p, before, after, k);
    }
  }

  /** Where the shorter batch left the partition of the last message. */
  lemma LastPartitionBefore(p: Pending, topic: Bytes, ms: seq<PublishMessage>, stamps: seq<Int64>, before: Pending,
                            os: seq<int>)
    requires |stamps| == |ms| > 0 && HasRoom(p.counters, topic, ms) && HasRoom(p.counters, topic, ms[..|ms| - 1])
    requires BatchAppended(p, topic, ms[..|ms| - 1], stamps[..|ms| - 1], before, os)
    ensures var n := |ms| - 1;
            if exists i :: 0 <= i < n && ms[i].partition == ms[n].partition
            then PartitionAppended(p, topic, ms[..n], stamps[..n], before, ms[n].partition)
            else SamePartition(p, before, PartitionKey(topic, ms[n].partition))
  {
    hide PartitionKey, PartitionAppended, SamePartition, Positions;
    var n := |ms| - 1;
    var init := ms[..n];
    assert forall i :: 0 <= i < n ==> init[i] == ms[i];
    if !(exists i :: 0 <= i < n && ms[i].partition == ms[n].partition) {
      forall i | 0 <= i < |init|
        ensures PartitionKey(topic, init[i].partition) != PartitionKey(topic, ms[n].partition)
      {
        PartitionKeyInjective(topic, init[i].partition, topic, ms[n].partition);
      }
    }
  }

  lemma SamePartitionTransitive(a: Pending, b: Pending, c: Pending, k: Bytes)
    requires SamePartition(a, b, k) && SamePartition(b, c, k)
    ensures SamePartition(a, c, k)
  {
  }

  lemma OtherPartition(p: Pending, topic: Bytes, ms: seq<PublishMessage>, stamps: seq<Int64>, before: Pending,
                       after: Pending,
                       q: int)
    requires |stamps| == |ms| > 0 && HasRoom(p.counters, topic, ms) && HasRoom(p.counters, topic, ms[..|ms| - 1])
    requires PartitionAppended(p, topic, ms[..|ms| - 1], stamps[..|ms| - 1], before, q)
    requires ms[|ms| - 1].partition != q && SamePartition(before, after, PartitionKey(topic, q))
    requires exists i :: 0 <= i < |ms| && ms[i].partition == q
    ensures PartitionAppended(p, topic, ms, stamps, after, q)
  {
    hide PartitionKey;
    var n := |ms| - 1;
    var last := LastOffset(p.counters, PartitionKey(topic, q));
    var i :| 0 <= i < |ms| && ms[i].partition == q;
    assert PartitionMessages(topic, q, last, ms, stamps) == PartitionMessages(topic, q, last, ms[..n], stamps[..n]);
  }

  /** Taking a batch partition by partition, in any order, leaves the counters, the buffers and the
      returned offsets as appending the messages one by one does. */
  lemma BatchIsEach(p: Pending, topic: Bytes, ms: seq<PublishMessage>, stamps: seq<Int64>, p': Pending,
                    offsets: seq<int>)
    requires |stamps| == |ms| && HasRoom(p.counters, topic, ms)
    ensures BatchAppended(p, topic, ms, stamps, p', offsets) <==> AppendEach(p, topic, ms, stamps) == (p', offsets)
  {
    hide BatchAppended, AppendEach;
    EachIsBatch(p, topic, ms, stamps);
    var (q, os) := AppendEach(p, topic, ms, stamps);
    if BatchAppended(p, topic, ms, stamps, p', offsets) {
      BatchUnique(p, topic, ms, stamps, p', offsets, q, os);
    }
  }

  /** What is said about a partition carries over to states that agree on it. */
  lemma AppendedElsewhere(p: Pending, q: Pending, topic: Bytes, ms: seq<PublishMessage>, stamps: seq<Int64>,
                          before: Pending, after: Pending, partition: int)
    requires |stamps| == |ms| && PartitionAppended(p, topic, ms, stamps, before, partition)
    requires SamePartition(p, q, PartitionKey(topic, partition))
    requires SamePartition(before, after, PartitionKey(topic, partition))
    ensures PartitionAppended(q, topic, ms, stamps, after, partition)
  {
  }

  // ---------- a batch, message by message ----------

  /** The last offset handed out in a partition, and what is buffered for it. */
  function LastIn(p: Pending, k: Bytes): int {
    if k in p.counters then p.counters[k] else -1
  }

  function BufferedIn(p: Pending, k: Bytes): seq<Message> {
    if k in p.buffer then p.buffer[k] else []
  }

  /** The messages of the batch before position i that go to a partition. */
  function SentBefore(ms: seq<PublishMessage>, i: nat, partition: int): set<nat>
    requires i <= |ms|
  {
    set j: nat | j < i && ms[j].partition == partition
  }

  /** Message i is stamped with its own time, has the next offset of its partition after those of the batch
      before it, is buffered behind them with its own key and value; nothing else is buffered. */
  ghost predicate EachBuffered(p: Pending, topic: Bytes, ms: seq<PublishMessage>, stamps: seq<Int64>, p': Pending,
                               offsets: seq<int>)
    requires |stamps| == |ms|
  {
    && |offsets| == |ms|
    && (forall i :: 0 <= i < |ms| ==>
          MessageBuffered(p, topic, ms[i], stamps[i], |SentBefore(ms, i, ms[i].partition)|, offsets[i], p'))
    && (forall i :: 0 <= i < |ms| ==>
          var k, n := PartitionKey(topic, ms[i].partition), |SentBefore(ms, |ms|, ms[i].partition)|;
          && LastIn(p', k) == LastIn(p, k) + n
          && |BufferedIn(p', k)| == |BufferedIn(p, k)| + n && BufferedIn(p, k) <= BufferedIn(p', k))
    && (forall k :: (forall i :: 0 <= i < |ms| ==> PartitionKey(topic, ms[i].partition) != k) ==>
          SamePartition(p, p', k))
  }

  predicate MessageBuffered(p: Pending, topic: Bytes, m: PublishMessage, now: Int64, earlier: nat, offset: int,
                            p': Pending)
  {
    var k := PartitionKey(topic, m.partition);
    var at := |BufferedIn(p, k)| + earlier;
    && offset == LastIn(p, k) + 1 + earlier
    && at < |BufferedIn(p', k)|
    && var b := BufferedIn(p', k)[at];
       b.topic == topic && b.partition == m.partition && b.offset == offset
       && b.key == m.key && b.value == m.value && b.timestamp == now
  }

  lemma {:induction false} SentCount(ms: seq<PublishMessage>, i: nat, partition: int)
    requires i <= |ms|
    ensures |SentBefore(ms, i, partition)| == |Positions(ms[..i], partition)|
    decreases i
  {
    if i == 0 {
      assert SentBefore(ms, 0, partition) == {};
    } else {
      SentCount(ms, i - 1, partition);
      assert ms[..i][..i - 1] == ms[..i - 1];
      assert SentBefore(ms, i, partition) ==
             SentBefore(ms, i - 1, partition) + if ms[i - 1].partition == partition then {i - 1} else {};
    }
  }

  lemma AppendedIsEach(p: Pending, topic: Bytes, ms: seq<PublishMessage>, stamps: seq<Int64>, p': Pending,
                       offsets: seq<int>)
    requires |stamps| == |ms| && HasRoom(p.counters, topic, ms)
    requires BatchAppended(p, topic, ms, stamps, p', offsets)
    ensures EachBuffered(p, topic, ms, stamps, p', offsets)
  {
    hide PartitionKey, Positions, PartitionAppended;
    forall i | 0 <= i < |ms|
      ensures MessageBuffered(p, topic, ms[i], stamps[i], |SentBefore(ms, i, ms[i].partition)|, offsets[i], p')
      ensures var k, n := PartitionKey(topic, ms[i].partition), |SentBefore(ms, |ms|, ms[i].partition)|;
              && LastIn(p', k) == LastIn(p, k) + n
              && |BufferedIn(p', k)| == |BufferedIn(p, k)| + n && BufferedIn(p, k) <= BufferedIn(p', k)
    {
      assert PartitionAppended(p, topic, ms, stamps, p', ms[i].partition);
      OneBuffered(p, topic, ms, stamps, p', offsets[i], i);
    }
  }

  lemma OneBuffered(p: Pending, topic: Bytes, ms: seq<PublishMessage>, stamps: seq<Int64>, p': Pending, offset: int,
                    i: nat)
    requires |stamps| == |ms| && i < |ms| && PartitionAppended(p, topic, ms, stamps, p', ms[i].partition)
    requires offset == LastOffset(p.counters, PartitionKey(topic, ms[i].partition)) + 1 + EarlierInPartition(ms, i)
    ensures MessageBuffered(p, topic, ms[i], stamps[i], |SentBefore(ms, i, ms[i].partition)|, offset, p')
    ensures var k, n := PartitionKey(topic, ms[i].partition), |SentBefore(ms, |ms|, ms[i].partition)|;
            && LastIn(p', k) == LastIn(p, k) + n
            && |BufferedIn(p', k)| == |BufferedIn(p, k)| + n && BufferedIn(p, k) <= BufferedIn(p', k)
  {
    hide PartitionKey, Positions;
    SentCount(ms, i, ms[i].partition);
    SentCount(ms, |ms|, ms[i].partition);
    assert ms[..|ms|] == ms;
    PositionIndex(ms, i);
  }
}
