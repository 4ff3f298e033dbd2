/** Fetches among publishers and flushers.  A fetch first flushes: it swaps the buffer out and commits it,
    two steps between which anything may happen; then it reads the store in one step. */
module StreamFetching {
  import opened ByteStrings
  import opened StreamBuffers
  import opened StreamCodec
  import opened StreamInterleaving

  /** A fetch under way.  `due` records, as history, where each offset was whose publisher had buffered it
      before the fetch began, once the fetch had swapped the buffer out. */
  datatype Fetch = Fetch(partition: Bytes, start: int, due: map<Place, Where>)

  datatype FetchState = FetchState(log: State, fetches: map<nat, Fetch>)

  datatype FetchStep =
    | Other(step: Step)                                // a publisher, a flusher, retention, or a fetch's commit
    | Begin(t: nat, partition: Bytes, start: int)      // FetchMessages, the swap of its flush
    | View(t: nat)                                     // FetchMessages, the read transaction

  /** A goroutine that is fetching does nothing else but commit what it has swapped out. */
  predicate Free(s: FetchState, step: Step) {
    match step
    case Lookup(t, _) => t !in s.fetches
    case Create(t) => t !in s.fetches
    case Reserve(t, _) => t !in s.fetches
    case Buffer(t) => t !in s.fetches
    case Swap(t) => t !in s.fetches
    case _ => true
  }

  /** The offsets that are no longer with their publishers. */
  function DueAfter(s: State): map<Place, Where> {
    map x | x in s.whereabouts && !s.whereabouts[x].InThread? :: s.whereabouts[x]
  }

  predicate CanView(s: FetchState, t: nat) {
    t in s.fetches && ThreadOf(s.log, t).Idle?
  }

  /** What the read transaction of a fetch finds: the stored messages of its partition from its start on. */
  function Seen(s: FetchState, t: nat): map<Place, Message>
    requires t in s.fetches
  {
    map x | x in s.log.stored && x.0 == s.fetches[t].partition && x.1 >= s.fetches[t].start :: s.log.stored[x]
  }

  function Apply(s: FetchState, e: FetchStep): FetchState {
    match e
    case Other(step) => if Free(s, step) then s.(log := StreamInterleaving.Apply(s.log, step)) else s
    case Begin(t, partition, start) =>
      if t !in s.fetches && ThreadOf(s.log, t).Idle? then
        var swapped := SwapStep(s.log, t);
        FetchState(swapped, s.fetches[t := Fetch(partition, start, DueAfter(swapped))])
      else s
    case View(t) => if CanView(s, t) then s.(fetches := s.fetches - {t}) else s
  }

  function Exec(steps: seq<FetchStep>): FetchState {
    if steps == [] then FetchState(Initial, map[])
    else Apply(Exec(steps[..|steps| - 1]), steps[|steps| - 1])
  }

  // ---------- where a due offset can be later ----------

  /** An offset that has left the buffer is committed, or its commit fails, and retention may remove it. */
  predicate Later(then': Where, now: Where) {
    || now == then'
    || (then'.InBatch? && (now.InStore? || now.Lost? || now.Removed?))
    || (then'.InStore? && now.Removed?)
  }

  predicate Tracked(due: map<Place, Where>, now: map<Place, Where>) {
    forall x :: x in due ==>
      x in now && (due[x].InBatch? || due[x].InStore? || due[x].Lost? || due[x].Removed?) && Later(due[x], now[x])
  }

  ghost predicate FetchInv(s: FetchState) {
    Inv(s.log) && forall t :: t in s.fetches ==> Tracked(s.fetches[t].due, s.log.whereabouts)
  }

  /** Only a publisher's own step, a swap, a commit, its failure and retention move an offset, and each moves
      it onwards. */
  lemma StepMovesOn(s: State, step: Step, due: map<Place, Where>)
    requires Inv(s) && Tracked(due, s.whereabouts)
    ensures Tracked(due, StreamInterleaving.Apply(s, step).whereabouts)
  {
    hide HomeOf, KeyOf, CountersApart, Contains, PlacesOf, WriteAll;
    var s' := StreamInterleaving.Apply(s, step);
    forall x | x in due
      ensures x in s'.whereabouts && Later(due[x], s'.whereabouts[x])
    {
      OneMovesOn(s, step, x);
    }
  }

  lemma OneMovesOn(s: State, step: Step, x: Place)
    requires Inv(s) && x in s.whereabouts && !s.whereabouts[x].InThread? && !s.whereabouts[x].InBuffer?
    ensures var s' := StreamInterleaving.Apply(s, step);
            x in s'.whereabouts && Later(s.whereabouts[x], s'.whereabouts[x])
  {
    hide Inv, KeyOf, HomeOf, Contains, PlacesOf, WriteAll, BufferWrite;
    Whereabouts(s, x);
    match step
    case Reserve(t, now) =>
      hide BufferStep, SwapStep, CommitStep, FailStep, RetainStep;
      if CanReserve(s, t) {
        ReservesNew(s, t, x);
      }
    case Buffer(t) =>
      hide ReserveStep, SwapStep, CommitStep, FailStep, RetainStep;
      if ThreadOf(s, t).Reserved? {
        HoldsItsOwn(s, t);
      }
    case _ =>
      hide ReserveStep, BufferStep;
  }

  lemma Whereabouts(s: State, x: Place)
    requires Inv(s) && x in s.whereabouts
    ensures x in s.issued && At(s, x, s.whereabouts[x])
  {
  }

  lemma HoldsItsOwn(s: State, t: nat)
    requires Inv(s) && ThreadOf(s, t).Reserved?
    ensures var x := (HomeOf(ThreadOf(s, t).message), ThreadOf(s, t).message.offset);
            x in s.whereabouts && s.whereabouts[x] == InThread(t)
  {
    hide HomeOf;
    var m := ThreadOf(s, t).message;
    assert At(s, (HomeOf(m), m.offset), InThread(t));
  }

  lemma ReservesNew(s: State, t: nat, x: Place)
    requires Inv(s) && CanReserve(s, t) && x in s.issued
    ensures x != (KeyOf(ThreadOf(s, t).draft), s.cells[ThreadOf(s, t).cell] + 1)
  {
    hide KeyOf, HomeOf, Placed;
    var HasCounter(d, c) := ThreadOf(s, t);
    assert s.counters[KeyOf(d)] == c;
    assert x in s.issued <==> Counted(s.counters, s.cells, x);
  }

  lemma BeginTracks(s: State, t: nat)
    requires Inv(s) && ThreadOf(s, t).Idle?
    ensures Inv(SwapStep(s, t)) && Tracked(DueAfter(SwapStep(s, t)), SwapStep(s, t).whereabouts)
  {
    hide HomeOf, KeyOf, CountersApart, IssuedExactly;
    SwapInv(s, t);
    var s' := SwapStep(s, t);
    forall x | x in s'.whereabouts
      ensures !s'.whereabouts[x].InBuffer?
    {
      assert At(s', x, s'.whereabouts[x]);
    }
  }

  lemma StepKeepsFetchInv(s: FetchState, e: FetchStep)
    requires FetchInv(s)
    ensures FetchInv(Apply(s, e))
  {
    hide Inv, Tracked, StreamInterleaving.Apply, SwapStep, DueAfter;
    match e
    case Other(step) =>
      StepInv(s.log, step);
      forall t | t in s.fetches
        ensures Tracked(s.fetches[t].due, StreamInterleaving.Apply(s.log, step).whereabouts)
      {
        StepMovesOn(s.log, step, s.fetches[t].due);
      }
    case Begin(t, partition, start) =>
      if t !in s.fetches && ThreadOf(s.log, t).Idle? {
        BeginTracks(s.log, t);
        SwapIsStep(s.log, t);
        forall u | u in s.fetches
          ensures Tracked(s.fetches[u].due, SwapStep(s.log, t).whereabouts)
        {
          StepMovesOn(s.log, Swap(t), s.fetches[u].due);
        }
      }
    case View(t) =>
  }

  lemma SwapIsStep(s: State, t: nat)
    ensures StreamInterleaving.Apply(s, Swap(t)) == SwapStep(s, t)
  {
  }

  lemma {:induction false} ExecFetchInv(steps: seq<FetchStep>)
    ensures FetchInv(Exec(steps))
    decreases |steps|
  {
    hide FetchInv, Apply;
    if steps == [] {
      InitialFetchInv();
    } else {
      ExecFetchInv(steps[..|steps| - 1]);
      StepKeepsFetchInv(Exec(steps[..|steps| - 1]), steps[|steps| - 1]);
    }
  }

  lemma InitialFetchInv()
    ensures FetchInv(FetchState(Initial, map[]))
  {
    InitialInv();
  }

  // ---------- read after write ----------

  /** Somebody else had swapped the offset out before the fetch began, and has not committed it yet. */
  predicate Overtaken(s: FetchState, t: nat, x: Place)
    requires t in s.fetches && x in s.fetches[t].due
  {
    var w := s.fetches[t].due[x];
    && w.InBatch? && w.owner != t
    && ThreadOf(s.log, w.owner).Flushing? && Contains(ThreadOf(s.log, w.owner).batch, x)
  }

  /** After every run of publishers, flushers, retention and fetches, when a fetch reads: an offset that had
      been buffered before the fetch began is found, with its own message, if it is in the fetch's range
      and was neither removed by retention nor lost with a failed commit, and it is neither found nor
      removed nor lost exactly when another flush had swapped it out before the fetch began and has still
      not committed it. */
  lemma FetchMissesIff(steps: seq<FetchStep>, t: nat, x: Place)
    requires CanView(Exec(steps), t) && x in Exec(steps).fetches[t].due
    ensures var s := Exec(steps);
            && x in s.log.issued
            && (!Settled(s.log, x) <==> Overtaken(s, t, x))
            && (x in s.log.stored ==> s.log.stored[x] == s.log.issued[x])
            && (x.0 == s.fetches[t].partition && x.1 >= s.fetches[t].start ==> (x in Seen(s, t) <==> x in s.log.stored))
  {
    hide HomeOf, CountersApart, IssuedExactly, Contains, Exec;
    ExecFetchInv(steps);
    var s := Exec(steps);
    var due := s.fetches[t].due;
    assert Tracked(due, s.log.whereabouts);
    PlacedSettled(s.log, x);
    assert At(s.log, x, s.log.whereabouts[x]);
    forall u | ThreadOf(s.log, u).Flushing?
      ensures Contains(ThreadOf(s.log, u).batch, x)
         <==> s.log.whereabouts[x].InBatch? && s.log.whereabouts[x].owner == u
    {
      InBatchIs(s.log, u, x);
    }
  }

  /** A fetch finds everything that was buffered before it began, retention and failed commits apart, exactly
      when no flush that was under way then still has to commit one of these offsets. */
  lemma ReadsWritesIff(steps: seq<FetchStep>, t: nat)
    requires CanView(Exec(steps), t)
    ensures var s := Exec(steps);
            (forall x :: x in s.fetches[t].due ==> Settled(s.log, x))
            <==> (forall x :: x in s.fetches[t].due ==> !Overtaken(s, t, x))
  {
    hide Exec, Settled, Overtaken;
    forall x | x in Exec(steps).fetches[t].due
      ensures Settled(Exec(steps).log, x) <==> !Overtaken(Exec(steps), t, x)
    {
      FetchMissesIff(steps, t, x);
    }
  }

  /** What is due: every offset handed out before the fetch began, unless it was still with its publisher. */
  lemma DueIs(steps: seq<FetchStep>, t: nat, partition: Bytes, start: int, x: Place)
    requires t !in Exec(steps).fetches && ThreadOf(Exec(steps).log, t).Idle?
    ensures var s := Exec(steps);
            x in Exec(steps + [Begin(t, partition, start)]).fetches[t].due
            <==> x in s.log.issued && !WithPublisher(s.log, x)
  {
    hide HomeOf, CountersApart, IssuedExactly, Exec;
    ExecSnoc(steps, Begin(t, partition, start));
    ExecFetchInv(steps);
    var s := Exec(steps).log;
    if x in s.whereabouts {
      assert At(s, x, s.whereabouts[x]);
    }
  }

  lemma ExecSnoc(steps: seq<FetchStep>, e: FetchStep)
    ensures Exec(steps + [e]) == Apply(Exec(steps), e)
  {
    assert (steps + [e])[..|steps|] == steps;
  }

  /** It does happen: the message has been published, a flusher has swapped it out, and a fetch that begins
      only then finds an empty buffer, flushes nothing, reads, and misses it. */
  lemma FetchCanMiss(d: Draft)
    ensures var k := KeyOf(d);
            var s := Exec([Other(Lookup(0, d)), Other(Create(0)), Other(Reserve(0, 0)), Other(Buffer(0)),
                           Other(Swap(1)), Begin(2, k, 0)]);
            && CanView(s, 2) && ThreadOf(s.log, 0).Idle?
            && (k, 0) in s.log.issued && (k, 0) in s.fetches[2].due
            && (k, 0) !in Seen(s, 2) && !Settled(s.log, (k, 0))
  {
    hide Exec, StreamInterleaving.Apply, SwapStep;
    var k := KeyOf(d);
    var a, b, c := Other(Lookup(0, d)), Other(Create(0)), Other(Reserve(0, 0));
    var e, f, g := Other(Buffer(0)), Other(Swap(1)), Begin(2, k, 0);
    ExecSix(a, b, c, e, f, g);
    PublishedAndSwapped(d);
    NothingToSwap(AfterSwap(d), 2);
  }

  /** The state in which goroutine 1 has swapped the one published message out. */
  function AfterSwap(d: Draft): State {
    var k, m := KeyOf(d), Stamped(d);
    State(map[k := 0], [0], map[0 := Idle, 1 := Flushing(map[k := [m]])], map[], map[], map[(k, 0) := m],
          map[(k, 0) := InBatch(1, 0)], {}, {})
  }

  lemma NothingToSwap(s: State, t: nat)
    requires s.buffer == map[]
    ensures SwapStep(s, t) == s
  {
  }

  lemma PublishedAndSwapped(d: Draft)
    ensures var s := StreamInterleaving.Apply(StreamInterleaving.Apply(StreamInterleaving.Apply(Initial, Lookup(0, d)),
                                                                       Create(0)), Reserve(0, 0));
            StreamInterleaving.Apply(StreamInterleaving.Apply(s, Buffer(0)), Swap(1)) == AfterSwap(d)
  {
    hide KeyOf, HomeOf;
    var k, m := KeyOf(d), Stamped(d);
    StampedAt(d);
    var s1 := Initial.(threads := map[0 := MustCreate(d)]);
    assert LookupStep(Initial, 0, d) == s1;
    var s2 := s1.(cells := [-1], counters := map[k := 0], threads := map[0 := HasCounter(d, 0)]);
    assert CreateStep(s1, 0) == s2;
    var s3 := s2.(cells := [0], threads := map[0 := Reserved(m)], issued := map[(k, 0) := m],
                  whereabouts := map[(k, 0) := InThread(0)]);
    assert ReserveStep(s2, 0, 0) == s3;
    BufferAndSwap(s3, k, m);
  }

  lemma BufferAndSwap(s: State, k: Bytes, m: Message)
    requires s.threads == map[0 := Reserved(m)] && s.buffer == map[] && HomeOf(m) == k && m.offset == 0
    requires s.whereabouts == map[(k, 0) := InThread(0)]
    ensures StreamInterleaving.Apply(StreamInterleaving.Apply(s, Buffer(0)), Swap(1))
         == s.(threads := map[0 := Idle, 1 := Flushing(map[k := [m]])], whereabouts := map[(k, 0) := InBatch(1, 0)])
  {
    hide HomeOf, StreamInterleaving.Apply;
    var s' := s.(buffer := map[k := [m]], threads := map[0 := Idle], whereabouts := map[(k, 0) := InBuffer(0)]);
    OneBuffered(s, k, m);
    OneSwapped(s', k, m);
  }

  lemma OneBuffered(s: State, k: Bytes, m: Message)
    requires s.threads == map[0 := Reserved(m)] && s.buffer == map[] && HomeOf(m) == k && m.offset == 0
    requires s.whereabouts == map[(k, 0) := InThread(0)]
    ensures StreamInterleaving.Apply(s, Buffer(0))
         == s.(buffer := map[k := [m]], threads := map[0 := Idle], whereabouts := map[(k, 0) := InBuffer(0)])
  {
    hide HomeOf, BufferWrite, Buffered;
    BufferedOne(s, m, k);
  }

  lemma OneSwapped(s: State, k: Bytes, m: Message)
    requires s.threads == map[0 := Idle] && s.buffer == map[k := [m]] && s.whereabouts == map[(k, 0) := InBuffer(0)]
    ensures StreamInterleaving.Apply(s, Swap(1))
         == s.(buffer := map[], threads := map[0 := Idle, 1 := Flushing(map[k := [m]])],
               whereabouts := map[(k, 0) := InBatch(1, 0)])
  {
    assert k in s.buffer;
  }

  function Stamped(d: Draft): Message {
    Stamp(d.topic, d.partition, 0, d.key, d.value, 0)
  }

  lemma StampedAt(d: Draft)
    ensures HomeOf(Stamped(d)) == KeyOf(d) && Stamped(d).offset == 0
  {
  }

  lemma BufferedOne(s: State, m: Message, k: Bytes)
    requires s.buffer == map[]
    ensures BufferWrite(s.buffer, k, m) == map[k := [m]] && Buffered(s.buffer, k) == []
  {
    assert [] + [m] == [m];
  }

  lemma ExecSix(a: FetchStep, b: FetchStep, c: FetchStep, d: FetchStep, e: FetchStep, f: FetchStep)
    ensures Exec([a, b, c, d, e, f])
         == Apply(Apply(Apply(Apply(Apply(Apply(FetchState(Initial, map[]), a), b), c), d), e), f)
  {
    hide Apply, Exec;
    ExecEmpty();
    ExecSnoc([], a);
    ExecSnoc([a], b);
    ExecSnoc([a, b], c);
    ExecSnoc([a, b, c], d);
    ExecSnoc([a, b, c, d], e);
    ExecSnoc([a, b, c, d, e], f);
    assert [] + [a] == [a] && [a] + [b] == [a, b] && [a, b] + [c] == [a, b, c];
    assert [a, b, c] + [d] == [a, b, c, d] && [a, b, c, d] + [e] == [a, b, c, d, e];
    assert [a, b, c, d, e] + [f] == [a, b, c, d, e, f];
  }

  lemma ExecEmpty()
    ensures Exec([]) == FetchState(Initial, map[])
  {
  }

  // ---------- gaps ----------

  /** Nobody is on the way to storing this offset. */
  ghost predicate NotUnderWay(s: State, x: Place) {
    !WithPublisher(s, x) && !InWriteBuffer(s, x) && !BeingFlushed(s, x)
  }

  /** When a fetch reads, it has no gap below an offset that it finds, retention and failed commits apart,
      exactly when no lower offset of its range is still on its way into the store.  Offsets are handed out
      before they are buffered, so that they can be stored in another order. */
  lemma NoGapIff(steps: seq<FetchStep>, t: nat, k: Bytes, m: int)
    requires CanView(Exec(steps), t) && (k, m) in Seen(Exec(steps), t)
    ensures var s := Exec(steps);
            var start := s.fetches[t].start;
            (forall n :: start <= n < m && 0 <= n ==>
               (k, n) in Seen(s, t) || (k, n) in s.log.removed || (k, n) in s.log.lost)
            <==> (forall n :: start <= n < m && 0 <= n ==> NotUnderWay(s.log, (k, n)))
  {
    hide Exec, NotUnderWay;
    ExecFetchInv(steps);
    var s := Exec(steps);
    forall n | s.fetches[t].start <= n < m && 0 <= n
      ensures Settled(s.log, (k, n)) <==> NotUnderWay(s.log, (k, n))
    {
      LowerIsIssued(s.log, k, m, n);
      IssuedSettled(s.log, (k, n));
    }
  }

  lemma LowerIsIssued(s: State, k: Bytes, m: int, n: int)
    requires Inv(s) && (k, m) in s.stored && 0 <= n < m
    ensures (k, n) in s.issued
  {
    hide HomeOf, CountersApart;
    assert At(s, (k, m), InStore);
    assert (k, m) in s.issued <==> Counted(s.counters, s.cells, (k, m));
    assert (k, n) in s.issued <==> Counted(s.counters, s.cells, (k, n));
  }

  lemma IssuedSettled(s: State, x: Place)
    requires Inv(s) && x in s.issued
    ensures Settled(s, x) <==> NotUnderWay(s, x)
  {
    PlacedSettled(s, x);
  }

  /** A gap is skipped for good.  If a fetch finds offset m while a lower one is still with its publisher, a
      consumer that goes on from m + 1 does not get the lower one even once it is stored. */
  lemma SkippedForGood(steps: seq<FetchStep>, u: nat, t: nat, k: Bytes, m: int, n: int)
    requires CanView(Exec(steps), u) && (k, m) in Seen(Exec(steps), u) && n < m
    requires At(Exec(steps).log, (k, n), InThread(t)) && t !in Exec(steps).fetches
    ensures var s := Exec(steps + [View(u), Other(Buffer(t)), Begin(u, k, m + 1), Other(Commit(u))]);
            CanView(s, u) && (k, n) in s.log.stored && (k, n) !in Seen(s, u) && (k, n) !in Seen(Exec(steps), u)
  {
    hide Exec, StreamInterleaving.Apply, SwapStep, BufferStep, CommitStep, DueAfter, HomeOf;
    var s := Exec(steps);
    StepsAre(s.log, t);
    StepsAre(SwapStep(BufferStep(s.log, t), u), u);
    ExecFour(steps, View(u), Other(Buffer(t)), Begin(u, k, m + 1), Other(Commit(u)));
    ExecFetchInv(steps);
    NotYetStored(s.log, t, (k, n));
    BufferedIsCommitted(s.log, t, u, (k, n));
  }

  lemma StepsAre(s: State, t: nat)
    ensures StreamInterleaving.Apply(s, Buffer(t)) == BufferStep(s, t)
    ensures StreamInterleaving.Apply(s, Commit(t)) == CommitStep(s, t)
  {
  }

  lemma NotYetStored(s: State, t: nat, x: Place)
    requires Inv(s) && At(s, x, InThread(t))
    ensures x !in s.stored
  {
    hide HomeOf, CountersApart;
    assert !At(s, x, InStore);
  }

  lemma BufferedIsCommitted(s: State, t: nat, u: nat, x: Place)
    requires At(s, x, InThread(t)) && ThreadOf(s, u).Idle? && t != u
    ensures ThreadOf(BufferStep(s, t), u).Idle?
    ensures var swapped := SwapStep(BufferStep(s, t), u);
            ThreadOf(swapped, u).Flushing? && x in CommitStep(swapped, u).stored
            && ThreadOf(CommitStep(swapped, u), u).Idle?
  {
    hide HomeOf, LastWith;
    var m := ThreadOf(s, t).message;
    var b := BufferWrite(s.buffer, x.0, m);
    assert b[x.0][|b[x.0]| - 1] == m;
    assert Contains(b, x);
    PlacesAre(b, x);
  }

  lemma ExecFour(steps: seq<FetchStep>, a: FetchStep, b: FetchStep, c: FetchStep, d: FetchStep)
    ensures Exec(steps + [a, b, c, d]) == Apply(Apply(Apply(Apply(Exec(steps), a), b), c), d)
  {
    hide Apply, Exec;
    ExecSnoc(steps, a);
    ExecSnoc(steps + [a], b);
    ExecSnoc(steps + [a] + [b], c);
    ExecSnoc(steps + [a] + [b] + [c], d);
    assert steps + [a, b, c, d] == steps + [a] + [b] + [c] + [d];
  }

  /** There are such gaps: two publishers have taken offsets 0 and 1, only the second has buffered its message,
      and a fetch stores and finds that one. */
  lemma FetchCanHaveGap(d: Draft)
    ensures var k := KeyOf(d);
            var s := Exec([Other(Lookup(0, d)), Other(Create(0)), Other(Lookup(1, d)), Other(Reserve(0, 0))]
                          + [Other(Reserve(1, 0)), Other(Buffer(1)), Begin(2, k, 0), Other(Commit(2))]);
            && CanView(s, 2) && (k, 1) in Seen(s, 2) && (k, 0) !in Seen(s, 2)
            && At(s.log, (k, 0), InThread(0)) && 0 !in s.fetches
  {
    hide Exec, StreamInterleaving.Apply;
    var k := KeyOf(d);
    var first := [Other(Lookup(0, d)), Other(Create(0)), Other(Lookup(1, d)), Other(Reserve(0, 0))];
    ExecEmpty();
    ExecFour([], first[0], first[1], first[2], first[3]);
    assert [] + first == first;
    ExecFour(first, Other(Reserve(1, 0)), Other(Buffer(1)), Begin(2, k, 0), Other(Commit(2)));
    TwoReserved(d);
    hide SwapStep;
    SecondCommitted(d);
  }

  /** The state in which the publishers 0 and 1 hold the messages `m` and `l` under offsets 0 and 1. */
  function BothReserved(k: Bytes, m: Message, l: Message): State {
    State(map[k := 0], [1], map[0 := Reserved(m), 1 := Reserved(l)], map[], map[], map[(k, 0) := m, (k, 1) := l],
          map[(k, 0) := InThread(0), (k, 1) := InThread(1)], {}, {})
  }

  function StampedNext(d: Draft): Message {
    Stamp(d.topic, d.partition, 1, d.key, d.value, 0)
  }

  lemma TwoReserved(d: Draft)
    ensures var s := StreamInterleaving.Apply(StreamInterleaving.Apply(StreamInterleaving.Apply(Initial, Lookup(0, d)),
                                                                       Create(0)), Lookup(1, d));
            StreamInterleaving.Apply(StreamInterleaving.Apply(s, Reserve(0, 0)), Reserve(1, 0)) ==
            BothReserved(KeyOf(d), Stamped(d), StampedNext(d))
  {
    hide KeyOf, ReserveStep;
    var s1 := Initial.(threads := map[0 := MustCreate(d)]);
    assert LookupStep(Initial, 0, d) == s1;
    var s2 := s1.(cells := [-1], counters := map[KeyOf(d) := 0], threads := map[0 := HasCounter(d, 0)]);
    assert CreateStep(s1, 0) == s2;
    var s3 := s2.(threads := map[0 := HasCounter(d, 0), 1 := HasCounter(d, 0)]);
    assert LookupStep(s2, 1, d) == s3;
    OneAfterAnother(d, s3);
  }

  lemma OneAfterAnother(d: Draft, s: State)
    requires s == Initial.(cells := [-1], counters := map[KeyOf(d) := 0],
                           threads := map[0 := HasCounter(d, 0), 1 := HasCounter(d, 0)])
    ensures ReserveStep(ReserveStep(s, 0, 0), 1, 0) == BothReserved(KeyOf(d), Stamped(d), StampedNext(d))
  {
    hide KeyOf;
    var k, m := KeyOf(d), Stamped(d);
    var once := s.(cells := [0], threads := map[0 := Reserved(m), 1 := HasCounter(d, 0)], issued := map[(k, 0) := m],
                   whereabouts := map[(k, 0) := InThread(0)]);
    assert ReserveStep(s, 0, 0) == once;
    assert ReserveStep(once, 1, 0) == BothReserved(k, m, StampedNext(d));
  }

  /** What the second publisher's message does on its way into the store. */
  lemma SecondCommitted(d: Draft)
    ensures var k := KeyOf(d);
            var s := BothReserved(k, Stamped(d), StampedNext(d));
            var swapped := SwapStep(StreamInterleaving.Apply(s, Buffer(1)), 2);
            var after := StreamInterleaving.Apply(swapped, Commit(2));
            && ThreadOf(StreamInterleaving.Apply(s, Buffer(1)), 2).Idle?
            && ThreadOf(after, 2).Idle? && (k, 1) in after.stored && (k, 0) !in after.stored
            && At(after, (k, 0), InThread(0))
  {
    hide KeyOf, HomeOf, LastWith;
    var k, m, l := KeyOf(d), Stamped(d), StampedNext(d);
    StampedHome(d);
    hide BufferWrite, Buffered, WriteAll, Contains;
    var s := BothReserved(k, m, l);
    BufferedOne(s, l, k);
    OneWritten(k, l);
    var buffered := StreamInterleaving.Apply(s, Buffer(1));
    assert buffered.buffer == map[k := [l]] && buffered.threads == map[0 := Reserved(m), 1 := Idle];
    assert k in buffered.buffer;
    var swapped := SwapStep(buffered, 2);
    assert swapped.threads == map[0 := Reserved(m), 1 := Idle, 2 := Flushing(map[k := [l]])];
    assert StreamInterleaving.Apply(swapped, Commit(2)).stored == WriteAll(map[], map[k := [l]]);
  }

  lemma OneWritten(k: Bytes, l: Message)
    requires l.offset == 1
    ensures (k, 1) in WriteAll(map[], map[k := [l]]) && (k, 0) !in WriteAll(map[], map[k := [l]])
  {
    hide LastWith;
    assert [l][0] == l && Contains(map[k := [l]], (k, 1));
    PlacesAre(map[k := [l]], (k, 1));
    PlacesAre(map[k := [l]], (k, 0));
  }

  lemma StampedHome(d: Draft)
    ensures HomeOf(Stamped(d)) == KeyOf(d) && HomeOf(StampedNext(d)) == KeyOf(d)
    ensures Stamped(d).offset == 0 && StampedNext(d).offset == 1
  {
  }
}
