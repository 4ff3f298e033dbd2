/** The append protocol under interleaving.  Any number of goroutines append and flush; each step
    below is one region of the code that runs under a lock, one atomic operation, or one store
    transaction, and a schedule is any sequence of such steps.  A step whose goroutine is not at
    that point of its code changes nothing. */
module StreamInterleaving {
  import opened ByteStrings
  import opened Keys
  import opened StreamCodec
  import opened StreamBuffers

  /** A partition key and an offset. */
  type Place = (Bytes, int)

  datatype Draft = Draft(topic: Bytes, partition: int, key: Bytes, value: Bytes)

  /** Where a goroutine is. */
  datatype Thread =
    | Idle
    | MustCreate(draft: Draft)              // found no counter under the read lock
    | HasCounter(draft: Draft, cell: nat)   // about to add one to its counter
    | Reserved(message: Message)            // took an offset, has not buffered the message yet
    | Flushing(batch: WriteBuffer)          // swapped the buffer out, has not committed it yet

  /** Where a message is. */
  datatype Where =
    | InThread(thread: nat)
    | InBuffer(index: nat)
    | InBatch(owner: nat, position: nat)
    | InStore
    | Lost
    | Removed

  /** `cells` are the counters ever allocated; `issued`, `whereabouts`, `lost` and `removed` only record
      history: what was reserved, where it is, which batches failed to commit and what retention took. */
  datatype State = State(
    counters: map<Bytes, nat>,
    cells: seq<int>,
    threads: map<nat, Thread>,
    buffer: WriteBuffer,
    stored: map<Place, Message>,
    issued: map<Place, Message>,
    whereabouts: map<Place, Where>,
    lost: set<Place>,
    removed: set<Place>)

  const Initial: State := State(map[], [], map[], map[], map[], map[], map[], {}, {})

  function ThreadOf(s: State, t: nat): Thread {
    if t in s.threads then s.threads[t] else Idle
  }

  function KeyOf(d: Draft): Bytes {
    PartitionKey(d.topic, d.partition)
  }

  function HomeOf(m: Message): Bytes {
    PartitionKey(m.topic, m.partition)
  }

  // ---------- steps ----------

  datatype Step =
    | Lookup(t: nat, draft: Draft)      // getPartitionOffset, read lock
    | Create(t: nat)                    // getPartitionOffset, write lock with second check
    | Reserve(t: nat, now: Int64)       // Add(1), then the message is made
    | Buffer(t: nat)                    // append to the write buffer
    | Swap(t: nat)                      // flushWrites, buffer lock
    | Commit(t: nat)                    // flushWrites, transaction committed
    | CommitFails(t: nat)               // flushWrites, transaction failed
    | Retain(gone: set<Place>)          // a retention transaction

  /** The last of some messages with a given offset: what a transaction that sets them in order leaves. */
  function LastWith(ms: seq<Message>, offset: int): Message
    requires exists i :: 0 <= i < |ms| && ms[i].offset == offset
  {
    var n := |ms| - 1;
    if ms[n].offset == offset then ms[n]
    else
      assert exists i :: 0 <= i < n && ms[..n][i].offset == offset by {
        var i :| 0 <= i < |ms| && ms[i].offset == offset;
        assert ms[..n][i].offset == offset;
      }
      LastWith(ms[..n], offset)
  }

  predicate Contains(batch: WriteBuffer, x: Place) {
    x.0 in batch && exists i :: 0 <= i < |batch[x.0]| && batch[x.0][i].offset == x.1
  }

  function PlacesOf(batch: WriteBuffer): set<Place> {
    set k, i | k in batch && 0 <= i < |batch[k]| :: (k, batch[k][i].offset)
  }

  lemma PlacesAre(batch: WriteBuffer, x: Place)
    ensures x in PlacesOf(batch) <==> Contains(batch, x)
  {
    if Contains(batch, x) {
      var i :| 0 <= i < |batch[x.0]| && batch[x.0][i].offset == x.1;
      assert (x.0, batch[x.0][i].offset) in PlacesOf(batch);
    }
  }

  function WriteAll(stored: map<Place, Message>, batch: WriteBuffer): map<Place, Message> {
    map x | x in stored.Keys + PlacesOf(batch) ::
      if Contains(batch, x) then LastWith(batch[x.0], x.1) else
        PlacesAre(batch, x); stored[x]
  }

  function MoveBatch(w: map<Place, Where>, t: nat, to: Where): map<Place, Where> {
    map x | x in w :: if w[x].InBatch? && w[x].owner == t then to else w[x]
  }

  function LookupStep(s: State, t: nat, d: Draft): State {
    if !ThreadOf(s, t).Idle? then s
    else if KeyOf(d) in s.counters then s.(threads := s.threads[t := HasCounter(d, s.counters[KeyOf(d)])])
    else s.(threads := s.threads[t := MustCreate(d)])
  }

  /** Another goroutine may have created the counter since the lookup, so the map is checked again. */
  function CreateStep(s: State, t: nat): State {
    if !ThreadOf(s, t).MustCreate? then s
    else
      var d := ThreadOf(s, t).draft;
      if KeyOf(d) in s.counters then s.(threads := s.threads[t := HasCounter(d, s.counters[KeyOf(d)])])
      else s.(cells := s.cells + [-1], counters := s.counters[KeyOf(d) := |s.cells|],
           threads := s.threads[t := HasCounter(d, |s.cells|)])
  }

  predicate CanReserve(s: State, t: nat) {
    ThreadOf(s, t).HasCounter? && ThreadOf(s, t).cell < |s.cells| && IsInt64(s.cells[ThreadOf(s, t).cell] + 1)
  }

  function ReserveStep(s: State, t: nat, now: Int64): State {
    if !CanReserve(s, t) then s
    else
      var HasCounter(d, c) := ThreadOf(s, t);
      var offset := s.cells[c] + 1;
      var m := Stamp(d.topic, d.partition, offset, d.key, d.value, now);
      s.(cells := s.cells[c := offset], threads := s.threads[t := Reserved(m)],
      issued := s.issued[(KeyOf(d), offset) := m], whereabouts := s.whereabouts[(KeyOf(d), offset) := InThread(t)])
  }

  function BufferStep(s: State, t: nat): State {
    if !ThreadOf(s, t).Reserved? then s
    else
      var m := ThreadOf(s, t).message;
      var k := HomeOf(m);
      s.(buffer := BufferWrite(s.buffer, k, m), threads := s.threads[t := Idle],
      whereabouts := s.whereabouts[(k, m.offset) := InBuffer(|Buffered(s.buffer, k)|)])
  }

  function SwapStep(s: State, t: nat): State {
    if !ThreadOf(s, t).Idle? || s.buffer == map[] then s
    else
      s.(buffer := map[], threads := s.threads[t := Flushing(s.buffer)],
      whereabouts := map x | x in s.whereabouts ::
        if s.whereabouts[x].InBuffer? then InBatch(t, s.whereabouts[x].index) else s.whereabouts[x])
  }

  function CommitStep(s: State, t: nat): State {
    if !ThreadOf(s, t).Flushing? then s
    else
      s.(stored := WriteAll(s.stored, ThreadOf(s, t).batch), threads := s.threads[t := Idle],
      whereabouts := MoveBatch(s.whereabouts, t, InStore))
  }

  function FailStep(s: State, t: nat): State {
    if !ThreadOf(s, t).Flushing? then s
    else
      s.(lost := s.lost + PlacesOf(ThreadOf(s, t).batch), threads := s.threads[t := Idle],
      whereabouts := MoveBatch(s.whereabouts, t, Lost))
  }

  function RetainStep(s: State, gone: set<Place>): State {
    s.(stored := s.stored - gone, removed := s.removed + s.stored.Keys * gone,
    whereabouts := map x | x in s.whereabouts ::
      if s.whereabouts[x].InStore? && x in gone then Removed else s.whereabouts[x])
  }

  function Apply(s: State, step: Step): State {
    match step
    case Lookup(t, d) => LookupStep(s, t, d)
    case Create(t) => CreateStep(s, t)
    case Reserve(t, now) => ReserveStep(s, t, now)
    case Buffer(t) => BufferStep(s, t)
    case Swap(t) => SwapStep(s, t)
    case Commit(t) => CommitStep(s, t)
    case CommitFails(t) => FailStep(s, t)
    case Retain(gone) => RetainStep(s, gone)
  }

  /** A whole run: the state after a schedule. */
  function Exec(schedule: seq<Step>): State {
    if schedule == [] then Initial
    else Apply(Exec(schedule[..|schedule| - 1]), schedule[|schedule| - 1])
  }

  // ---------- the invariant ----------

  /** Offset `x.1` of partition `x.0` is at `w`, as the data itself shows. */
  predicate At(s: State, x: Place, w: Where) {
    match w
    case InThread(t) => ThreadOf(s, t).Reserved? && x == (HomeOf(ThreadOf(s, t).message), ThreadOf(s, t).message.offset)
    case InBuffer(i) => x.0 in s.buffer && i < |s.buffer[x.0]| && s.buffer[x.0][i].offset == x.1
    case InBatch(t, i) =>
      && ThreadOf(s, t).Flushing? && x.0 in ThreadOf(s, t).batch
      && i < |ThreadOf(s, t).batch[x.0]| && ThreadOf(s, t).batch[x.0][i].offset == x.1
    case InStore => x in s.stored
    case Lost => x in s.lost
    case Removed => x in s.removed
  }

  /** The message found there, while there still is one. */
  predicate Carries(s: State, x: Place, w: Where, m: Message)
    requires At(s, x, w)
  {
    match w
    case InThread(t) => ThreadOf(s, t).message == m
    case InBuffer(i) => s.buffer[x.0][i] == m
    case InBatch(t, i) => ThreadOf(s, t).batch[x.0][i] == m
    case InStore => s.stored[x] == m
    case Lost => true
    case Removed => true
  }

  /** Different partitions have different counters. */
  predicate CellsApart(counters: map<Bytes, nat>, cells: seq<int>) {
    && (forall k :: k in counters ==> counters[k] < |cells|)
    && (forall j, k :: j in counters && k in counters && counters[j] == counters[k] ==> j == k)
    && (forall c :: 0 <= c < |cells| ==> -1 <= cells[c] < TWO_63)
  }

  /** Whoever holds a counter holds the one its partition is counted by. */
  predicate HoldersAgree(threads: map<nat, Thread>, counters: map<Bytes, nat>) {
    forall t :: t in threads && threads[t].HasCounter? ==>
      KeyOf(threads[t].draft) in counters && counters[KeyOf(threads[t].draft)] == threads[t].cell
  }

  predicate CountersApart(s: State) {
    CellsApart(s.counters, s.cells) && HoldersAgree(s.threads, s.counters)
  }

  predicate Counted(counters: map<Bytes, nat>, cells: seq<int>, x: Place) {
    x.0 in counters && counters[x.0] < |cells| && 0 <= x.1 <= cells[counters[x.0]]
  }

  /** Exactly the offsets 0..counter of each partition have been issued, each to a message of that
      partition and offset. */
  ghost predicate IssuedWithin(issued: map<Place, Message>, counters: map<Bytes, nat>, cells: seq<int>) {
    && (forall x :: x in issued <==> Counted(counters, cells, x))
    && (forall x :: x in issued ==> x == (HomeOf(issued[x]), issued[x].offset))
  }

  ghost predicate IssuedExactly(s: State) {
    IssuedWithin(s.issued, s.counters, s.cells)
  }

  /** Every issued offset is in exactly one place, no other offset is anywhere, and what is found is
      the message it was issued to. */
  ghost predicate Placed(s: State) {
    && s.whereabouts.Keys == s.issued.Keys
    && (forall x, w :: At(s, x, w) <==> x in s.whereabouts && s.whereabouts[x] == w)
    && (forall x, w :: At(s, x, w) && x in s.issued ==> Carries(s, x, w, s.issued[x]))
  }

  ghost predicate Inv(s: State) {
    CountersApart(s) && IssuedExactly(s) && Placed(s)
  }

  lemma InitialInv()
    ensures Inv(Initial)
  {
  }

  // ---------- steps that move no message ----------

  /** Everything a message can be in is the same in both states. */
  ghost predicate SameHoldings(s: State, s': State) {
    && s'.buffer == s.buffer && s'.stored == s.stored && s'.lost == s.lost && s'.removed == s.removed
    && s'.issued == s.issued && s'.whereabouts == s.whereabouts
    && forall t :: (ThreadOf(s, t).Reserved? || ThreadOf(s', t).Reserved?
                    || ThreadOf(s, t).Flushing? || ThreadOf(s', t).Flushing?) ==>
                     ThreadOf(s', t) == ThreadOf(s, t)
  }

  lemma SamePlaced(s: State, s': State)
    requires Placed(s) && SameHoldings(s, s')
    ensures Placed(s')
  {
    hide PartitionKey;
    forall x, w
      ensures At(s', x, w) <==> At(s, x, w)
      ensures At(s, x, w) && x in s.issued ==> Carries(s', x, w, s.issued[x])
    {
      assert w.InThread? ==> ThreadOf(s, w.thread).Reserved? || ThreadOf(s', w.thread).Reserved? || !At(s, x, w);
      assert w.InBatch? ==> ThreadOf(s, w.owner).Flushing? || ThreadOf(s', w.owner).Flushing? || !At(s, x, w);
    }
  }

  /** A goroutine that holds no message moves on to a point where it holds none. */
  lemma EmptyHanded(s: State, t: nat, th: Thread)
    requires !ThreadOf(s, t).Reserved? && !ThreadOf(s, t).Flushing? && !th.Reserved? && !th.Flushing?
    ensures SameHoldings(s, s.(threads := s.threads[t := th]))
  {
  }

  lemma HolderMoves(threads: map<nat, Thread>, counters: map<Bytes, nat>, t: nat, th: Thread)
    requires HoldersAgree(threads, counters)
    requires th.HasCounter? ==> KeyOf(th.draft) in counters && counters[KeyOf(th.draft)] == th.cell
    ensures HoldersAgree(threads[t := th], counters)
  {
    hide KeyOf;
  }

  lemma LookupInv(s: State, t: nat, d: Draft)
    requires Inv(s)
    ensures Inv(LookupStep(s, t, d))
  {
    hide KeyOf, Placed, IssuedWithin, CellsApart, HoldersAgree, SameHoldings;
    if ThreadOf(s, t).Idle? {
      var th := if KeyOf(d) in s.counters then HasCounter(d, s.counters[KeyOf(d)]) else MustCreate(d);
      EmptyHanded(s, t, th);
      HolderMoves(s.threads, s.counters, t, th);
      SamePlaced(s, s.(threads := s.threads[t := th]));
    }
  }

  lemma CreateInv(s: State, t: nat)
    requires Inv(s)
    ensures Inv(CreateStep(s, t))
  {
    hide KeyOf, Placed, IssuedWithin, CellsApart;
    SamePlaced(s, CreateStep(s, t));
    if ThreadOf(s, t).MustCreate? && KeyOf(ThreadOf(s, t).draft) !in s.counters {
      NewCell(s.counters, s.cells, s.issued, KeyOf(ThreadOf(s, t).draft));
    }
  }

  /** A new counter is nobody else's and stands at -1, so that it issues nothing by itself. */
  lemma NewCell(counters: map<Bytes, nat>, cells: seq<int>, issued: map<Place, Message>, k: Bytes)
    requires CellsApart(counters, cells) && IssuedWithin(issued, counters, cells) && k !in counters
    ensures CellsApart(counters[k := |cells|], cells + [-1])
    ensures IssuedWithin(issued, counters[k := |cells|], cells + [-1])
  {
    hide HomeOf;
    var more, longer := counters[k := |cells|], cells + [-1];
    forall x: Place
      ensures Counted(more, longer, x) <==> Counted(counters, cells, x)
    {
      if x.0 in counters {
        assert counters[x.0] < |cells|;
      }
    }
  }

  // ---------- reserve ----------

  lemma ReserveInv(s: State, t: nat, now: Int64)
    requires Inv(s)
    ensures Inv(ReserveStep(s, t, now))
  {
    if CanReserve(s, t) {
      ReserveCounters(s, t, now);
      ReservePlaced(s, t, now);
    }
  }

  lemma ReserveCounters(s: State, t: nat, now: Int64)
    requires CountersApart(s) && IssuedExactly(s) && CanReserve(s, t)
    ensures CountersApart(ReserveStep(s, t, now)) && IssuedExactly(ReserveStep(s, t, now))
  {
    hide KeyOf, HomeOf, CellsApart, IssuedWithin;
    var HasCounter(d, c) := ThreadOf(s, t);
    assert s.counters[KeyOf(d)] == c;
    StampedHome(d, s.cells[c] + 1, now);
    CountOne(s.counters, s.cells, s.issued, KeyOf(d),
             Stamp(d.topic, d.partition, s.cells[c] + 1, d.key, d.value, now));
  }

  /** Adding one to a counter issues exactly the next offset of its partition. */
  lemma CountOne(counters: map<Bytes, nat>, cells: seq<int>, issued: map<Place, Message>, k: Bytes, m: Message)
    requires CellsApart(counters, cells) && IssuedWithin(issued, counters, cells)
    requires k in counters && HomeOf(m) == k && m.offset == cells[counters[k]] + 1
    ensures CellsApart(counters, cells[counters[k] := m.offset])
    ensures IssuedWithin(issued[(k, m.offset) := m], counters, cells[counters[k] := m.offset])
  {
    hide HomeOf;
    var raised := cells[counters[k] := m.offset];
    forall x: Place
      ensures Counted(counters, raised, x) <==> Counted(counters, cells, x) || x == (k, m.offset)
    {
      assert x == (x.0, x.1);
    }
  }

  lemma StampedHome(d: Draft, offset: int, now: Int64)
    requires IsInt64(offset)
    ensures HomeOf(Stamp(d.topic, d.partition, offset, d.key, d.value, now)) == KeyOf(d)
  {
  }

  lemma ReservePlaced(s: State, t: nat, now: Int64)
    requires Inv(s) && CanReserve(s, t)
    ensures Placed(ReserveStep(s, t, now))
  {
    hide PartitionKey;
    var s' := ReserveStep(s, t, now);
    var HasCounter(d, c) := ThreadOf(s, t);
    assert s.counters[KeyOf(d)] == c;
    var y := (KeyOf(d), s.cells[c] + 1);
    assert y !in s.issued;
    forall x, w
      ensures At(s', x, w) <==> x in s'.whereabouts && s'.whereabouts[x] == w
      ensures At(s', x, w) && x in s'.issued ==> Carries(s', x, w, s'.issued[x])
    {
      ReserveAt(s, t, now, x, w);
    }
  }

  lemma ReserveAt(s: State, t: nat, now: Int64, x: Place, w: Where)
    requires Inv(s) && CanReserve(s, t)
    ensures var s' := ReserveStep(s, t, now);
            && (At(s', x, w) <==> x in s'.whereabouts && s'.whereabouts[x] == w)
            && (At(s', x, w) && x in s'.issued ==> Carries(s', x, w, s'.issued[x]))
  {
    hide HomeOf, KeyOf, CellsApart;
    var HasCounter(d, c) := ThreadOf(s, t);
    assert s.counters[KeyOf(d)] == c;
    StampedHome(d, s.cells[c] + 1, now);
    assert (KeyOf(d), s.cells[c] + 1) !in s.issued by {
      assert !Counted(s.counters, s.cells, (KeyOf(d), s.cells[c] + 1));
    }
    assert At(s, x, w) <==> x in s.whereabouts && s.whereabouts[x] == w;
  }

  // ---------- buffer ----------

  lemma BufferInv(s: State, t: nat)
    requires Inv(s)
    ensures Inv(BufferStep(s, t))
  {
    if ThreadOf(s, t).Reserved? {
      hide HomeOf, KeyOf, CellsApart, IssuedWithin, Placed, HoldersAgree;
      HolderMoves(s.threads, s.counters, t, Idle);
      BufferPlaced(s, t);
    }
  }

  lemma BufferPlaced(s: State, t: nat)
    requires Inv(s) && ThreadOf(s, t).Reserved?
    ensures Placed(BufferStep(s, t))
  {
    var s' := BufferStep(s, t);
    var y := (HomeOf(ThreadOf(s, t).message), ThreadOf(s, t).message.offset);
    assert At(s, y, InThread(t));
    forall x, w
      ensures At(s', x, w) <==> x in s'.whereabouts && s'.whereabouts[x] == w
      ensures At(s', x, w) && x in s'.issued ==> Carries(s', x, w, s'.issued[x])
    {
      BufferAt(s, t, x, w);
    }
  }

  lemma BufferAt(s: State, t: nat, x: Place, w: Where)
    requires Inv(s) && ThreadOf(s, t).Reserved?
    ensures var s' := BufferStep(s, t);
            && (At(s', x, w) <==> x in s'.whereabouts && s'.whereabouts[x] == w)
            && (At(s', x, w) && x in s'.issued ==> Carries(s', x, w, s'.issued[x]))
  {
    hide PartitionKey, CountersApart, IssuedExactly;
    var y := (HomeOf(ThreadOf(s, t).message), ThreadOf(s, t).message.offset);
    assert At(s, y, InThread(t)) && Carries(s, y, InThread(t), s.issued[y]);
    assert At(s, x, w) <==> x in s.whereabouts && s.whereabouts[x] == w;
    assert x == (x.0, x.1);
  }

  // ---------- swap ----------

  lemma SwapInv(s: State, t: nat)
    requires Inv(s)
    ensures Inv(SwapStep(s, t))
  {
    if ThreadOf(s, t).Idle? && s.buffer != map[] {
      hide HomeOf, KeyOf, CellsApart, IssuedWithin, Placed, HoldersAgree;
      HolderMoves(s.threads, s.counters, t, Flushing(s.buffer));
      SwapPlaced(s, t);
    }
  }

  lemma SwapPlaced(s: State, t: nat)
    requires Placed(s) && ThreadOf(s, t).Idle? && s.buffer != map[]
    ensures Placed(SwapStep(s, t))
  {
    var s' := SwapStep(s, t);
    forall x, w
      ensures At(s', x, w) <==> x in s'.whereabouts && s'.whereabouts[x] == w
      ensures At(s', x, w) && x in s'.issued ==> Carries(s', x, w, s'.issued[x])
    {
      SwapAt(s, t, x, w);
    }
  }

  lemma SwapAt(s: State, t: nat, x: Place, w: Where)
    requires Placed(s) && ThreadOf(s, t).Idle? && s.buffer != map[]
    ensures var s' := SwapStep(s, t);
            && (At(s', x, w) <==> x in s'.whereabouts && s'.whereabouts[x] == w)
            && (At(s', x, w) && x in s'.issued ==> Carries(s', x, w, s'.issued[x]))
  {
    hide HomeOf;
    var v := if w.InBatch? && w.owner == t then InBuffer(w.position) else w;
    assert At(s, x, v) <==> x in s.whereabouts && s.whereabouts[x] == v;
    if x in s.whereabouts {
      assert At(s, x, s.whereabouts[x]);
    }
  }

  // ---------- commit, failed commit, retention ----------

  lemma {:induction false} LastWithIs(ms: seq<Message>, offset: int)
    requires exists i :: 0 <= i < |ms| && ms[i].offset == offset
    ensures exists i :: 0 <= i < |ms| && ms[i].offset == offset && ms[i] == LastWith(ms, offset)
  {
    var n := |ms| - 1;
    if ms[n].offset != offset {
      var i :| 0 <= i < |ms| && ms[i].offset == offset;
      assert ms[..n][i].offset == offset;
      LastWithIs(ms[..n], offset);
      var j :| 0 <= j < n && ms[..n][j].offset == offset && ms[..n][j] == LastWith(ms[..n], offset);
      assert ms[j] == LastWith(ms, offset);
    }
  }

  lemma CommitInv(s: State, t: nat)
    requires Inv(s)
    ensures Inv(CommitStep(s, t)) && Inv(FailStep(s, t))
  {
    if ThreadOf(s, t).Flushing? {
      hide HomeOf, KeyOf, CellsApart, IssuedWithin, Placed, HoldersAgree;
      HolderMoves(s.threads, s.counters, t, Idle);
      CommitPlaced(s, t);
    }
  }

  lemma CommitPlaced(s: State, t: nat)
    requires Placed(s) && ThreadOf(s, t).Flushing?
    ensures Placed(CommitStep(s, t)) && Placed(FailStep(s, t))
  {
    var s', f := CommitStep(s, t), FailStep(s, t);
    forall x, w
      ensures At(s', x, w) <==> x in s'.whereabouts && s'.whereabouts[x] == w
      ensures At(s', x, w) && x in s'.issued ==> Carries(s', x, w, s'.issued[x])
    {
      CommitAt(s, t, x, w);
    }
    forall x, w
      ensures At(f, x, w) <==> x in f.whereabouts && f.whereabouts[x] == w
      ensures At(f, x, w) && x in f.issued ==> Carries(f, x, w, f.issued[x])
    {
      FailAt(s, t, x, w);
    }
  }

  /** A place is in a batch that is being flushed exactly when that is its whereabouts. */
  lemma InBatchIs(s: State, t: nat, x: Place)
    requires Placed(s) && ThreadOf(s, t).Flushing?
    ensures Contains(ThreadOf(s, t).batch, x) <==>
              x in s.whereabouts && s.whereabouts[x].InBatch? && s.whereabouts[x].owner == t
    ensures Contains(ThreadOf(s, t).batch, x) ==> LastWith(ThreadOf(s, t).batch[x.0], x.1) == s.issued[x]
  {
    hide HomeOf;
    var batch := ThreadOf(s, t).batch;
    if Contains(batch, x) {
      LastWithIs(batch[x.0], x.1);
      var i :| 0 <= i < |batch[x.0]| && batch[x.0][i].offset == x.1 && batch[x.0][i] == LastWith(batch[x.0], x.1);
      assert At(s, x, InBatch(t, i)) && Carries(s, x, InBatch(t, i), s.issued[x]);
    }
    if x in s.whereabouts && s.whereabouts[x].InBatch? && s.whereabouts[x].owner == t {
      assert At(s, x, s.whereabouts[x]);
    }
  }

  lemma CommitAt(s: State, t: nat, x: Place, w: Where)
    requires Placed(s) && ThreadOf(s, t).Flushing?
    ensures var s' := CommitStep(s, t);
            && (At(s', x, w) <==> x in s'.whereabouts && s'.whereabouts[x] == w)
            && (At(s', x, w) && x in s'.issued ==> Carries(s', x, w, s'.issued[x]))
  {
    hide HomeOf, Contains, PlacesOf, LastWith;
    InBatchIs(s, t, x);
    PlacesAre(ThreadOf(s, t).batch, x);
    assert At(s, x, w) <==> x in s.whereabouts && s.whereabouts[x] == w;
    assert At(s, x, InStore) <==> x in s.whereabouts && s.whereabouts[x] == InStore;
  }

  lemma FailAt(s: State, t: nat, x: Place, w: Where)
    requires Placed(s) && ThreadOf(s, t).Flushing?
    ensures var s' := FailStep(s, t);
            && (At(s', x, w) <==> x in s'.whereabouts && s'.whereabouts[x] == w)
            && (At(s', x, w) && x in s'.issued ==> Carries(s', x, w, s'.issued[x]))
  {
    hide HomeOf, Contains, PlacesOf, LastWith;
    InBatchIs(s, t, x);
    PlacesAre(ThreadOf(s, t).batch, x);
    assert At(s, x, w) <==> x in s.whereabouts && s.whereabouts[x] == w;
    assert At(s, x, Lost) <==> x in s.whereabouts && s.whereabouts[x] == Lost;
  }

  lemma RetainInv(s: State, gone: set<Place>)
    requires Inv(s)
    ensures Inv(RetainStep(s, gone))
  {
    hide HomeOf, CellsApart, IssuedWithin, HoldersAgree;
    var s' := RetainStep(s, gone);
    forall x, w
      ensures At(s', x, w) <==> x in s'.whereabouts && s'.whereabouts[x] == w
      ensures At(s', x, w) && x in s'.issued ==> Carries(s', x, w, s'.issued[x])
    {
      assert At(s, x, w) <==> x in s.whereabouts && s.whereabouts[x] == w;
      assert At(s, x, InStore) <==> x in s.whereabouts && s.whereabouts[x] == InStore;
      assert At(s, x, Removed) <==> x in s.whereabouts && s.whereabouts[x] == Removed;
    }
  }

  // ---------- every schedule ----------

  lemma StepInv(s: State, step: Step)
    requires Inv(s)
    ensures Inv(Apply(s, step))
  {
    match step
    case Lookup(t, d) => LookupInv(s, t, d);
    case Create(t) => CreateInv(s, t);
    case Reserve(t, now) => ReserveInv(s, t, now);
    case Buffer(t) => BufferInv(s, t);
    case Swap(t) => SwapInv(s, t);
    case Commit(t) => CommitInv(s, t);
    case CommitFails(t) => CommitInv(s, t);
    case Retain(gone) => RetainInv(s, gone);
  }

  lemma {:induction false} ExecInv(schedule: seq<Step>)
    ensures Inv(Exec(schedule))
  {
    hide Inv, Apply;
    if schedule == [] {
      InitialInv();
    } else {
      ExecInv(schedule[..|schedule| - 1]);
      StepInv(Exec(schedule[..|schedule| - 1]), schedule[|schedule| - 1]);
    }
  }

  /** The last offset handed out for a partition, -1 if there is no counter yet. */
  function CounterOf(s: State, k: Bytes): int {
    if k in s.counters && s.counters[k] < |s.cells| then s.cells[s.counters[k]] else -1
  }

  /** No offset is lost and none is used twice.  After every schedule, an offset of a partition is
      somewhere exactly when it is between 0 and the partition's counter; then it is in exactly one
      place, and what is there is the message that the offset was issued to. */
  lemma OffsetsPartitioned(schedule: seq<Step>, k: Bytes, offset: int)
    ensures var s := Exec(schedule);
            && ((exists w :: At(s, (k, offset), w)) <==> 0 <= offset <= CounterOf(s, k))
            && (forall v, w :: At(s, (k, offset), v) && At(s, (k, offset), w) ==> v == w)
            && (forall w :: At(s, (k, offset), w) ==>
                  (k, offset) in s.issued && Carries(s, (k, offset), w, s.issued[(k, offset)])
                  && HomeOf(s.issued[(k, offset)]) == k && s.issued[(k, offset)].offset == offset)
  {
    hide HomeOf, HoldersAgree;
    ExecInv(schedule);
    var s := Exec(schedule);
    var x := (k, offset);
    assert x in s.issued <==> Counted(s.counters, s.cells, x);
    if x in s.whereabouts {
      assert At(s, x, s.whereabouts[x]);
    }
    assert forall w :: At(s, x, w) <==> x in s.whereabouts && s.whereabouts[x] == w;
  }

  /** What an offset was issued to never changes. */
  lemma StepKeepsIssued(s: State, step: Step, x: Place)
    requires Inv(s) && x in s.issued
    ensures x in Apply(s, step).issued && Apply(s, step).issued[x] == s.issued[x]
  {
    hide HomeOf, Placed;
    if step.Reserve? && CanReserve(s, step.t) {
      var HasCounter(d, c) := ThreadOf(s, step.t);
      assert s.counters[KeyOf(d)] == c && Counted(s.counters, s.cells, x);
    }
  }

  /** A reservation is fresh: no offset is handed out to two messages, whatever happens in between. */
  lemma {:induction false} OffsetsUnique(schedule: seq<Step>, i: nat, j: nat)
    requires i < j < |schedule| && schedule[i].Reserve? && schedule[j].Reserve?
    requires CanReserve(Exec(schedule[..i]), schedule[i].t) && CanReserve(Exec(schedule[..j]), schedule[j].t)
    ensures var m := ThreadOf(Exec(schedule[..i + 1]), schedule[i].t);
            var n := ThreadOf(Exec(schedule[..j + 1]), schedule[j].t);
            && m.Reserved? && n.Reserved?
            && (HomeOf(m.message), m.message.offset) != (HomeOf(n.message), n.message.offset)
  {
    hide HomeOf, Exec, Inv;
    ReservedAt(schedule, i);
    ReservedAt(schedule, j);
    var m := ThreadOf(Exec(schedule[..i + 1]), schedule[i].t).message;
    IssuedStays(schedule, i + 1, j, (HomeOf(m), m.offset));
  }

  lemma ReservedAt(schedule: seq<Step>, i: nat)
    requires i < |schedule| && schedule[i].Reserve? && CanReserve(Exec(schedule[..i]), schedule[i].t)
    ensures var th := ThreadOf(Exec(schedule[..i + 1]), schedule[i].t);
            && th.Reserved?
            && (HomeOf(th.message), th.message.offset) in Exec(schedule[..i + 1]).issued
            && (HomeOf(th.message), th.message.offset) !in Exec(schedule[..i]).issued
  {
    hide HomeOf, KeyOf, Placed;
    ExecInv(schedule[..i]);
    assert schedule[..i + 1][..i] == schedule[..i];
    var s := Exec(schedule[..i]);
    var HasCounter(d, c) := ThreadOf(s, schedule[i].t);
    StampedHome(d, s.cells[c] + 1, schedule[i].now);
    assert s.counters[KeyOf(d)] == c;
    assert (KeyOf(d), s.cells[c] + 1) in s.issued <==> Counted(s.counters, s.cells, (KeyOf(d), s.cells[c] + 1));
  }

  lemma {:induction false} IssuedStays(schedule: seq<Step>, i: nat, j: nat, x: Place)
    requires i <= j <= |schedule| && x in Exec(schedule[..i]).issued
    ensures x in Exec(schedule[..j]).issued && Exec(schedule[..j]).issued[x] == Exec(schedule[..i]).issued[x]
    decreases j
  {
    hide Inv, Apply;
    if i < j {
      IssuedStays(schedule, i, j - 1, x);
      ExecInv(schedule[..j - 1]);
      assert schedule[..j][..j - 1] == schedule[..j - 1];
      StepKeepsIssued(Exec(schedule[..j - 1]), schedule[j - 1], x);
    }
  }

  /** The offset is still with the publisher that took it. */
  ghost predicate WithPublisher(s: State, x: Place) {
    exists t :: At(s, x, InThread(t))
  }

  ghost predicate InWriteBuffer(s: State, x: Place) {
    exists i :: At(s, x, InBuffer(i))
  }

  /** Somebody has swapped it out of the buffer and not committed it yet. */
  ghost predicate BeingFlushed(s: State, x: Place) {
    exists t :: ThreadOf(s, t).Flushing? && Contains(ThreadOf(s, t).batch, x)
  }

  /** A reader finds it, or it is gone for a reason of its own. */
  predicate Settled(s: State, x: Place) {
    x in s.stored || x in s.removed || x in s.lost
  }

  /** Every offset handed out is settled unless it is with its publisher, in the buffer or being flushed. */
  lemma SettledIff(schedule: seq<Step>, x: Place)
    requires x in Exec(schedule).issued
    ensures var s := Exec(schedule);
            && (Settled(s, x) <==> !WithPublisher(s, x) && !InWriteBuffer(s, x) && !BeingFlushed(s, x))
            && (x in s.stored ==> s.stored[x] == s.issued[x])
  {
    ExecInv(schedule);
    PlacedSettled(Exec(schedule), x);
  }

  lemma PlacedSettled(s: State, x: Place)
    requires Placed(s) && x in s.issued
    ensures Settled(s, x) <==> !WithPublisher(s, x) && !InWriteBuffer(s, x) && !BeingFlushed(s, x)
    ensures x in s.stored ==> s.stored[x] == s.issued[x]
  {
    hide HomeOf, Contains;
    assert At(s, x, s.whereabouts[x]);
    forall t | ThreadOf(s, t).Flushing?
      ensures Contains(ThreadOf(s, t).batch, x) <==> s.whereabouts[x].InBatch? && s.whereabouts[x].owner == t
    {
      InBatchIs(s, t, x);
    }
    assert At(s, x, InStore) <==> s.whereabouts[x] == InStore;
    assert At(s, x, Lost) <==> s.whereabouts[x] == Lost;
    assert At(s, x, Removed) <==> s.whereabouts[x] == Removed;
    assert At(s, x, InStore) ==> Carries(s, x, InStore, s.issued[x]);
  }

  /** For every schedule that leaves the buffer empty, as a fetch's own flush does, every offset whose
      publisher has returned is settled exactly when nobody is flushing any of them. */
  lemma EmptyBufferSettledIff(schedule: seq<Step>)
    requires Exec(schedule).buffer == map[]
    ensures var s := Exec(schedule);
            (forall x :: x in s.issued && !WithPublisher(s, x) ==> Settled(s, x))
            <==> (forall t :: ThreadOf(s, t).Flushing? ==> PlacesOf(ThreadOf(s, t).batch) == {})
  {
    hide Exec, WithPublisher, BeingFlushed, Contains, PlacesOf, Settled;
    var s := Exec(schedule);
    ExecInv(schedule);
    forall x | x in s.issued
      ensures Settled(s, x) <==> !WithPublisher(s, x) && !BeingFlushed(s, x)
    {
      SettledIff(schedule, x);
    }
    if t :| ThreadOf(s, t).Flushing? && PlacesOf(ThreadOf(s, t).batch) != {} {
      var x :| x in PlacesOf(ThreadOf(s, t).batch);
      FlushedIsIssued(s, t, x);
      assert x in s.issued && !WithPublisher(s, x) && !Settled(s, x);
    } else {
      forall x
        ensures !BeingFlushed(s, x)
      {
        NoPlacesNotFlushed(s, x);
      }
    }
  }

  lemma FlushedIsIssued(s: State, t: nat, x: Place)
    requires Placed(s) && ThreadOf(s, t).Flushing? && x in PlacesOf(ThreadOf(s, t).batch)
    ensures x in s.issued && BeingFlushed(s, x) && !WithPublisher(s, x)
  {
    hide HomeOf;
    PlacesAre(ThreadOf(s, t).batch, x);
    InBatchIs(s, t, x);
    assert At(s, x, s.whereabouts[x]);
  }

  lemma NoPlacesNotFlushed(s: State, x: Place)
    requires forall t :: ThreadOf(s, t).Flushing? ==> PlacesOf(ThreadOf(s, t).batch) == {}
    ensures !BeingFlushed(s, x)
  {
    if t :| ThreadOf(s, t).Flushing? && Contains(ThreadOf(s, t).batch, x) {
      PlacesAre(ThreadOf(s, t).batch, x);
    }
  }

  /** Read after write.  When no goroutine is between taking an offset and buffering it, or between
      swapping a buffer out and committing it, and the buffer is empty, as after a fetch's own flush,
      then every offset ever handed out is stored with its message, was removed by retention, or was
      in a batch whose commit failed. */
  lemma QuietStateIsStored(schedule: seq<Step>, k: Bytes, offset: int)
    requires var s := Exec(schedule);
             s.buffer == map[] && forall t :: !ThreadOf(s, t).Reserved? && !ThreadOf(s, t).Flushing?
    requires 0 <= offset <= CounterOf(Exec(schedule), k)
    ensures var s := Exec(schedule);
            var x := (k, offset);
            || (x in s.stored && x in s.issued && s.stored[x] == s.issued[x]
                && HomeOf(s.stored[x]) == k && s.stored[x].offset == offset)
            || x in s.removed || x in s.lost
  {
    hide HomeOf;
    OffsetsPartitioned(schedule, k, offset);
    var s := Exec(schedule);
    var w :| At(s, (k, offset), w);
    assert Carries(s, (k, offset), w, s.issued[(k, offset)]);
  }

  // ---------- what a call comes to when nothing intervenes ----------

  lemma ExecNext(schedule: seq<Step>, step: Step)
    ensures Exec(schedule + [step]) == Apply(Exec(schedule), step)
  {
    assert (schedule + [step])[..|schedule|] == schedule;
  }

  lemma ExecFour(schedule: seq<Step>, a: Step, b: Step, c: Step, d: Step)
    ensures Exec(schedule + [a, b, c, d]) == Apply(Apply(Apply(Apply(Exec(schedule), a), b), c), d)
  {
    hide Exec, Apply;
    ExecNext(schedule, a);
    ExecNext(schedule + [a], b);
    ExecNext(schedule + [a] + [b], c);
    ExecNext(schedule + [a] + [b] + [c], d);
    assert schedule + [a, b, c, d] == schedule + [a] + [b] + [c] + [d];
  }

  /** The next offset of the partition, and the message, with everything that was passed, behind the others in its
      partition's buffer; nothing else has changed. */
  predicate AppendedAlone(s: State, t: nat, d: Draft, now: Int64, after: State) {
    var k, offset := PartitionKey(d.topic, d.partition), CounterOf(s, PartitionKey(d.topic, d.partition)) + 1;
    && CounterOf(after, k) == offset
    && (forall j :: j in s.counters && j != k ==> CounterOf(after, j) == CounterOf(s, j))
    && k in after.buffer && after.buffer == s.buffer[k := after.buffer[k]]
    && ThreadOf(after, t).Idle? && after.stored == s.stored && after.lost == s.lost && after.removed == s.removed
    && var before := if k in s.buffer then s.buffer[k] else [];
       && |after.buffer[k]| == |before| + 1 && after.buffer[k][..|before|] == before
       && var m := after.buffer[k][|before|];
          && m.topic == d.topic && m.partition == d.partition && m.offset == offset
          && m.key == d.key && m.value == d.value && m.timestamp == now
          && after.issued == s.issued[(k, offset) := m]
  }

  /** A publisher that nothing interrupts appends as the sequential storage does, after every schedule. */
  lemma AppendAlone(schedule: seq<Step>, t: nat, d: Draft, now: Int64)
    requires ThreadOf(Exec(schedule), t).Idle? && CounterOf(Exec(schedule), KeyOf(d)) + 1 < TWO_63
    ensures AppendedAlone(Exec(schedule), t, d, now,
                          Exec(schedule + [Lookup(t, d), Create(t), Reserve(t, now), Buffer(t)]))
  {
    hide Exec;
    ExecInv(schedule);
    ExecFour(schedule, Lookup(t, d), Create(t), Reserve(t, now), Buffer(t));
    var s := Exec(schedule);
    Counts(s, t, d);
    hide LookupStep, CreateStep, ReserveStep, BufferStep, Inv, AppendedAlone, HasItsCounter;
    ReserveAndBuffer(s, t, d, now, CreateStep(LookupStep(s, t, d), t));
  }

  lemma ReserveAndBuffer(s: State, t: nat, d: Draft, now: Int64, ready: State)
    requires HasItsCounter(s, t, d, ready) && CounterOf(s, KeyOf(d)) + 1 < TWO_63
    ensures AppendedAlone(s, t, d, now, BufferStep(ReserveStep(ready, t, now), t))
  {
    var k, c := PartitionKey(d.topic, d.partition), ThreadOf(ready, t).cell;
    var reserved := ReserveStep(ready, t, now);
    assert reserved.cells == ready.cells[c := ready.cells[c] + 1] && reserved.counters == ready.counters;
    hide PartitionKey;
    assert ThreadOf(reserved, t).Reserved?;
    var after := BufferStep(reserved, t);
    var before := if k in s.buffer then s.buffer[k] else [];
    assert after.buffer[k] == before + [ThreadOf(reserved, t).message];
  }

  /** Where a publisher is once it has its counter. */
  predicate HasItsCounter(s: State, t: nat, d: Draft, ready: State) {
    && ThreadOf(ready, t).HasCounter? && ThreadOf(ready, t).draft == d
    && ThreadOf(ready, t).cell < |ready.cells|
    && KeyOf(d) in ready.counters && ready.counters[KeyOf(d)] == ThreadOf(ready, t).cell
    && CounterOf(ready, KeyOf(d)) == CounterOf(s, KeyOf(d))
    && CellsApart(ready.counters, ready.cells)
    && (forall j :: j in s.counters ==> j in ready.counters && CounterOf(ready, j) == CounterOf(s, j))
    && ready.buffer == s.buffer && ready.issued == s.issued && ready.stored == s.stored
    && ready.lost == s.lost && ready.removed == s.removed
  }

  lemma Counts(s: State, t: nat, d: Draft)
    requires Inv(s) && ThreadOf(s, t).Idle?
    ensures HasItsCounter(s, t, d, CreateStep(LookupStep(s, t, d), t))
  {
    hide Placed, IssuedExactly, KeyOf, HoldersAgree;
    if KeyOf(d) !in s.counters {
      NewCounter(s, t, d);
    }
  }

  lemma NewCounter(s: State, t: nat, d: Draft)
    requires CellsApart(s.counters, s.cells) && ThreadOf(s, t).Idle? && KeyOf(d) !in s.counters
    ensures HasItsCounter(s, t, d, CreateStep(LookupStep(s, t, d), t))
  {
    hide KeyOf;
    var ready := CreateStep(LookupStep(s, t, d), t);
    assert ready.cells == s.cells + [-1] && ready.counters == s.counters[KeyOf(d) := |s.cells|];
    assert forall j :: j in s.counters ==> ready.cells[s.counters[j]] == s.cells[s.counters[j]];
  }

  /** Every buffered message is stored under its partition and offset, unchanged; what was stored stays, and nothing
      else is stored. */
  ghost predicate FlushedAlone(s: State, t: nat, after: State) {
    && after.buffer == map[] && ThreadOf(after, t).Idle?
    && (forall k, i :: k in s.buffer && 0 <= i < |s.buffer[k]| ==>
          var x := (k, s.buffer[k][i].offset);
          x in after.stored && after.stored[x] == s.buffer[k][i])
    && (forall x :: x in s.stored ==> x in after.stored && after.stored[x] == s.stored[x])
    && (forall x :: x in after.stored ==>
          x in s.stored
          || (x.0 in s.buffer && exists i :: 0 <= i < |s.buffer[x.0]| && s.buffer[x.0][i].offset == x.1))
    && after.issued == s.issued && after.lost == s.lost && after.removed == s.removed
  }

  /** A flush that nothing interrupts stores the buffer, after every schedule. */
  lemma FlushAlone(schedule: seq<Step>, t: nat)
    requires ThreadOf(Exec(schedule), t).Idle? && Exec(schedule).buffer != map[]
    ensures FlushedAlone(Exec(schedule), t, Exec(schedule + [Swap(t), Commit(t)]))
  {
    hide Exec, Inv, SwapStep, CommitStep, FlushedAlone;
    ExecInv(schedule);
    var s := Exec(schedule);
    ExecNext(schedule, Swap(t));
    ExecNext(schedule + [Swap(t)], Commit(t));
    assert schedule + [Swap(t), Commit(t)] == schedule + [Swap(t)] + [Commit(t)];
    BatchWritten(s);
    SwappedAndCommitted(s, t);
  }

  lemma SwappedAndCommitted(s: State, t: nat)
    requires ThreadOf(s, t).Idle? && s.buffer != map[] && BufferWritten(s, WriteAll(s.stored, s.buffer))
    ensures FlushedAlone(s, t, CommitStep(SwapStep(s, t), t))
  {
    hide WriteAll, MoveBatch;
    var after := CommitStep(SwapStep(s, t), t);
    assert after.stored == WriteAll(s.stored, s.buffer) && after.buffer == map[];
  }

  ghost predicate BufferWritten(s: State, stored: map<Place, Message>) {
    && (forall k, i :: k in s.buffer && 0 <= i < |s.buffer[k]| ==>
          var x := (k, s.buffer[k][i].offset);
          x in stored && stored[x] == s.buffer[k][i])
    && (forall x :: x in s.stored ==> x in stored && stored[x] == s.stored[x])
    && (forall x :: x in stored ==> x in s.stored || Contains(s.buffer, x))
  }

  lemma BatchWritten(s: State)
    requires Inv(s)
    ensures BufferWritten(s, WriteAll(s.stored, s.buffer))
  {
    hide HomeOf, LastWith, CountersApart, IssuedExactly;
    forall x
      ensures x in PlacesOf(s.buffer) <==> Contains(s.buffer, x)
    {
      PlacesAre(s.buffer, x);
    }
    forall k, i | k in s.buffer && 0 <= i < |s.buffer[k]|
      ensures LastWith(s.buffer[k], s.buffer[k][i].offset) == s.buffer[k][i] && (k, s.buffer[k][i].offset) !in s.stored
    {
      var x := (k, s.buffer[k][i].offset);
      assert At(s, x, InBuffer(i));
      assert !At(s, x, InStore);
      OnlyWith(s, k, i);
    }
  }

  lemma OnlyWith(s: State, k: Bytes, i: nat)
    requires Inv(s) && k in s.buffer && i < |s.buffer[k]|
    ensures LastWith(s.buffer[k], s.buffer[k][i].offset) == s.buffer[k][i]
  {
    hide HomeOf, CountersApart, IssuedExactly, LastWith;
    var x := (k, s.buffer[k][i].offset);
    forall j: nat | j < |s.buffer[k]| && s.buffer[k][j].offset == x.1
      ensures j == i
    {
      assert At(s, x, InBuffer(j)) && At(s, x, InBuffer(i));
    }
    LastIs(s.buffer[k], i);
  }

  lemma {:induction false} LastIs(ms: seq<Message>, i: nat)
    requires i < |ms| && forall j :: 0 <= j < |ms| && ms[j].offset == ms[i].offset ==> j == i
    ensures LastWith(ms, ms[i].offset) == ms[i]
    decreases |ms|
  {
    var n := |ms| - 1;
    if i < n {
      LastIs(ms[..n], i);
    }
  }

  /** A commit that fails loses exactly its batch; retention removes exactly what it names of what is stored. */
  lemma LosesAndRemoves(s: State, t: nat, gone: set<Place>)
    ensures ThreadOf(s, t).Flushing? ==>
              var after := Apply(s, CommitFails(t));
              && after.stored == s.stored && after.buffer == s.buffer && after.issued == s.issued
              && (forall x :: x in after.lost <==> x in s.lost || Contains(ThreadOf(s, t).batch, x))
    ensures var after := Apply(s, Retain(gone));
            && after.stored == s.stored - gone && after.buffer == s.buffer && after.issued == s.issued
            && (forall x :: x in after.removed <==> x in s.removed || (x in gone && x in s.stored))
  {
    if ThreadOf(s, t).Flushing? {
      forall x
        ensures x in PlacesOf(ThreadOf(s, t).batch) <==> Contains(ThreadOf(s, t).batch, x)
      {
        PlacesAre(ThreadOf(s, t).batch, x);
      }
    }
  }
}
