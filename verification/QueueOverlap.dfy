/** Transactions on the acknowledging queues that overlap.  The store runs without conflict detection: each
    transaction works on a snapshot from when it began, and its commit writes whatever it decided there,
    over anything committed in between.

    The index of messages by state is kept beside the messages, because transactions that overlap can pull
    the two apart.  Schedules are sequences of steps, one transaction per thread at a time. */
module QueueOverlap {
  import opened ByteStrings
  import opened OrderedStore
  import opened QueueCodec
  import opened AckQueue

  datatype IndexEntry = IndexEntry(queue: Bytes, state: int, id: Bytes)

  datatype Shared = Shared(acks: AckState, index: set<IndexEntry>)

  function EntryOf(a: Address, state: int): IndexEntry {
    IndexEntry(a.0, state, a.1)
  }

  function ListedIds(s: Shared, queue: Bytes, state: int): set<Bytes> {
    set e | e in s.index && e.queue == queue && e.state == state :: e.id
  }

  // ---------- what a transaction writes ----------

  /** The messages and index entries a transaction removes, and those it then writes. */
  datatype Effect = Effect(gone: set<Address>, puts: map<Address, QueueMessage>,
                           unlisted: set<IndexEntry>, listed: set<IndexEntry>, configs: map<Bytes, QueueConfig>)

  const NoEffect: Effect := Effect({}, map[], {}, {}, map[])

  function Overwrite(s: Shared, e: Effect): Shared {
    Shared(AckState((s.acks.msgs - e.gone) + e.puts, s.acks.configs + e.configs), (s.index - e.unlisted) + e.listed)
  }

  /** A pop takes the id its index lists first; the message itself may be missing. */
  datatype PopTarget = Takes(id: Bytes) | Refuses(error: AckError) | KeyNotFound

  function TargetOf(s: Shared, queue: Bytes): PopTarget {
    var ids := ListedIds(s, queue, STATE_PENDING);
    if queue == [] then Refuses(InvalidQueue)
    else if ids == {} then Refuses(QueueEmpty)
    else if (queue, Least(ids)) in s.acks.msgs then Takes(Least(ids))
    else KeyNotFound
  }

  /** The ids a sweep requeues: listed as in flight, and expired. */
  function Due(s: Shared, queue: Bytes, now: Int64): set<Bytes> {
    set id | id in ListedIds(s, queue, STATE_IN_FLIGHT) && (queue, id) in s.acks.msgs
             && Expired(s.acks.msgs[(queue, id)], now) :: id
  }

  function Added(queue: Bytes, m: QueueMessage): Effect {
    NoEffect.(puts := map[(queue, m.id) := m], listed := {IndexEntry(queue, m.state, m.id)})
  }

  function Removed(s: Shared, a: Address): Effect
    requires a in s.acks.msgs
  {
    NoEffect.(gone := {a}, unlisted := {EntryOf(a, s.acks.msgs[a].state)})
  }

  /** What an operation decides to write, from the snapshot it sees. */
  function EffectOf(s: Shared, op: Op): Effect {
    match op
    case PushOp(q, id, value, now) =>
      if q == [] then NoEffect else Added(q, FreshMessage(id, value, 0, now))
    case PopOp(q, consumer, timeout, now) =>
      var target := TargetOf(s, q);
      if target.Takes? && (q, target.id) in s.acks.msgs then
        var a := (q, target.id);
        NoEffect.(puts := map[a := Stored(Leased(s.acks.msgs[a], consumer, timeout, now))],
        unlisted := {EntryOf(a, STATE_PENDING)}, listed := {EntryOf(a, STATE_IN_FLIGHT)})
      else NoEffect
    case AckOp(q, id) =>
      if q == [] || id == [] || (q, id) !in s.acks.msgs then NoEffect else Removed(s, (q, id))
    case NackOp(q, id, requeue, newId, now) =>
      if q == [] || id == [] || (q, id) !in s.acks.msgs then NoEffect
      else
        var m := s.acks.msgs[(q, id)];
        (match Judge(s.acks, q, m, requeue)
         case DeadLetter(target) =>
           var added := Added(target, FreshMessage(newId, m.value, m.deliveryCount, now));
           Removed(s, (q, id)).(puts := added.puts, listed := added.listed)
         case Discard => Removed(s, (q, id))
         case Requeue =>
           NoEffect.(puts := map[(q, id) := Requeued(m)], unlisted := {IndexEntry(q, m.state, id)},
           listed := {IndexEntry(q, STATE_PENDING, id)}))
    case SweepOp(q, now) =>
      if q == [] then NoEffect
      else
        var due := Due(s, q, now);
        NoEffect.(puts := map a | a in s.acks.msgs && a.0 == q && a.1 in due :: Requeued(s.acks.msgs[a]),
        unlisted := set id | id in due :: IndexEntry(q, STATE_IN_FLIGHT, id),
        listed := set id | id in due :: IndexEntry(q, STATE_PENDING, id))
    case ConfigOp(c) =>
      if c.name == [] then NoEffect
      else NoEffect.(configs := map[c.name := c.(maxRetries := c.maxRetries % TWO_32)])
  }

  // ---------- index and messages ----------

  /** Every message is pending or in flight and listed as what it is, and none is listed as pending that is
      not.  It may be listed as in flight when it is not, and missing messages may be listed. */
  ghost predicate Listed(s: Shared) {
    forall a :: a in s.acks.msgs ==> ListedAs(s, a, s.acks.msgs[a].state)
  }

  predicate ListedAs(s: Shared, a: Address, state: int) {
    && state in {STATE_PENDING, STATE_IN_FLIGHT}
    && EntryOf(a, state) in s.index
    && (EntryOf(a, STATE_PENDING) in s.index ==> state == STATE_PENDING)
  }

  /** What the index entries that an effect writes for an address have to do with the message it writes. */
  ghost predicate CoherentAt(seen: Shared, e: Effect, a: Address) {
    && (a in e.puts ==>
          && e.puts[a].state in {STATE_PENDING, STATE_IN_FLIGHT}
          && (e.puts[a].state == STATE_IN_FLIGHT ==> EntryOf(a, STATE_PENDING) in e.unlisted))
    && (a in e.gone ==> a in seen.acks.msgs)
    && (a in e.gone && a !in e.puts ==>
          forall state :: EntryOf(a, state) in e.unlisted <==> state == seen.acks.msgs[a].state)
  }

  ghost predicate Coherent(seen: Shared, e: Effect) {
    && (forall a :: CoherentAt(seen, e, a))
    && (forall a, state :: EntryOf(a, state) in e.listed <==> a in e.puts && e.puts[a].state == state)
    && (forall a, state :: EntryOf(a, state) in e.unlisted ==> a in e.gone || a in e.puts)
  }

  lemma TargetIsListed(s: Shared, queue: Bytes)
    requires TargetOf(s, queue).Takes?
    ensures var a := (queue, TargetOf(s, queue).id);
            a in s.acks.msgs && EntryOf(a, STATE_PENDING) in s.index
  {
    var ids := ListedIds(s, queue, STATE_PENDING);
    assert IsLeast(Least(ids), ids);
  }

  lemma EffectCoherent(s: Shared, op: Op)
    requires Listed(s)
    ensures Coherent(s, EffectOf(s, op))
  {
    hide Judge, Expired, TargetOf, Due;
    match op
    case PushOp(q, id, value, now) =>
    case PopOp(q, consumer, timeout, now) =>
      if TargetOf(s, q).Takes? {
        TargetIsListed(s, q);
      }
    case AckOp(q, id) =>
    case NackOp(q, id, requeue, newId, now) =>
    case SweepOp(q, now) => SweepCoherent(s, q, now);
    case ConfigOp(c) =>
  }

  lemma SweepCoherent(s: Shared, queue: Bytes, now: Int64)
    requires Listed(s)
    ensures Coherent(s, EffectOf(s, SweepOp(queue, now)))
  {
    hide Expired, ListedIds;
    var e := EffectOf(s, SweepOp(queue, now));
    forall a: Address, state
      ensures EntryOf(a, state) in e.listed <==> a in e.puts && e.puts[a].state == state
      ensures EntryOf(a, state) in e.unlisted ==> a in e.puts
    {
      assert a == (a.0, a.1);
      assert queue != [] ==> (EntryOf(a, state) in e.listed <==>
               a.0 == queue && state == STATE_PENDING && a.1 in Due(s, queue, now));
    }
  }

  lemma OverwriteKeepsListed(s: Shared, seen: Shared, e: Effect)
    requires Listed(s) && Coherent(seen, e)
    ensures Listed(Overwrite(s, e))
  {
    var after := Overwrite(s, e);
    forall a | a in after.acks.msgs
      ensures ListedAs(after, a, after.acks.msgs[a].state)
    {
      assert CoherentAt(seen, e, a);
      if a !in e.puts {
        assert ListedAs(s, a, s.acks.msgs[a].state);
      }
    }
  }

  // ---------- a transaction that does not overlap ----------

  /** Every message is listed under its state, and nothing else is listed. */
  ghost predicate IndexExact(s: Shared) {
    forall a: Address, state :: EntryOf(a, state) in s.index <==> a in s.acks.msgs && s.acks.msgs[a].state == state
  }

  predicate IdsAreNew(s: Shared, op: Op) {
    forall a :: a in s.acks.msgs ==> a.1 !in Generated(op)
  }

  lemma ListedIsIds(s: Shared, queue: Bytes, state: int)
    requires IndexExact(s)
    ensures ListedIds(s, queue, state) == IdsIn(s.acks, queue, state)
  {
    forall id
      ensures id in ListedIds(s, queue, state) <==> id in IdsIn(s.acks, queue, state)
    {
      assert EntryOf((queue, id), state) == IndexEntry(queue, state, id);
    }
  }

  lemma SweepAlone(s: Shared, queue: Bytes, now: Int64)
    requires IndexExact(s)
    ensures Overwrite(s, EffectOf(s, SweepOp(queue, now))).acks == Sweep(s.acks, queue, now)
  {
    hide Expired;
    ListedIsIds(s, queue, STATE_IN_FLIGHT);
    forall a | a in s.acks.msgs && a.0 == queue
      ensures a.1 in Due(s, queue, now) <==> Sweepable(s.acks, queue, a, now)
    {
      assert a == (queue, a.1);
      assert a.1 in IdsIn(s.acks, queue, STATE_IN_FLIGHT) <==> s.acks.msgs[a].state == STATE_IN_FLIGHT;
    }
  }

  lemma PopAlone(s: Shared, queue: Bytes, consumer: Bytes, timeout: Int64, now: Int64)
    requires WellFormed(s.acks) && IndexExact(s)
    ensures Overwrite(s, EffectOf(s, PopOp(queue, consumer, timeout, now))).acks
         == AckQueue.Pop(s.acks, queue, consumer, timeout, now)
  {
    hide Least, IdsIn, ListedIds, IndexExact;
    ListedIsIds(s, queue, STATE_PENDING);
    if NextPending(s.acks, queue).Success? {
      NextPendingIsPending(s.acks, queue);
    }
  }

  lemma NackAlone(s: Shared, queue: Bytes, id: Bytes, requeue: bool, newId: Bytes, now: Int64)
    requires WellFormed(s.acks)
    ensures Overwrite(s, EffectOf(s, NackOp(queue, id, requeue, newId, now))).acks
         == Nack(s.acks, queue, id, requeue, newId, now)
  {
    hide Judge, GoodMessage, WellFormed, EntryOf, Overwrite;
    var a := (queue, id);
    if queue != [] && id != [] && a in s.acks.msgs {
      var m := s.acks.msgs[a];
      GoodAt(s.acks, a);
      match Judge(s.acks, queue, m, requeue)
      case DeadLetter(target) =>
        Written(s, {a}, (target, newId), FreshMessage(newId, m.value, m.deliveryCount, now));
      case Discard => WrittenNone(s, {a});
      case Requeue => Written(s, {}, a, Requeued(m));
    } else {
      WrittenNone(s, {});
    }
  }

  lemma Written(s: Shared, gone: set<Address>, a: Address, m: QueueMessage)
    ensures forall e: Effect :: e.gone == gone && e.puts == map[a := m] && e.configs == map[] ==>
              Overwrite(s, e).acks == AckState((s.acks.msgs - gone)[a := m], s.acks.configs)
    ensures gone == {} ==> s.acks.msgs - gone == s.acks.msgs
  {
    assert (s.acks.msgs - gone) + map[a := m] == (s.acks.msgs - gone)[a := m];
    assert s.acks.configs + map[] == s.acks.configs;
  }

  lemma WrittenNone(s: Shared, gone: set<Address>)
    ensures forall e: Effect :: e.gone == gone && e.puts == map[] && e.configs == map[] ==>
              Overwrite(s, e).acks == AckState(s.acks.msgs - gone, s.acks.configs)
    ensures gone == {} ==> s.acks.msgs - gone == s.acks.msgs
  {
    assert (s.acks.msgs - gone) + map[] == s.acks.msgs - gone;
    assert s.acks.configs + map[] == s.acks.configs;
  }

  lemma PlainAlone(s: Shared, op: Op)
    requires op.PushOp? || op.AckOp? || op.ConfigOp?
    ensures Overwrite(s, EffectOf(s, op)).acks == Step(s.acks, op)
  {
    hide EntryOf;
  }

  lemma MessagesAlone(s: Shared, op: Op)
    requires WellFormed(s.acks) && IndexExact(s)
    ensures Overwrite(s, EffectOf(s, op)).acks == Step(s.acks, op)
  {
    hide EffectOf, Overwrite, AckQueue.Pop, Nack, Sweep, Push, Ack, SetConfig, IndexExact, WellFormed;
    match op
    case PopOp(q, consumer, timeout, now) => PopAlone(s, q, consumer, timeout, now);
    case NackOp(q, id, requeue, newId, now) => NackAlone(s, q, id, requeue, newId, now);
    case SweepOp(q, now) => SweepAlone(s, q, now);
    case _ => PlainAlone(s, op);
  }

  /** No entry of a message's old state is left over. */
  ghost predicate Thorough(s: Shared, e: Effect) {
    forall a :: (a in e.gone || a in e.puts) && a in s.acks.msgs ==>
                  EntryOf(a, s.acks.msgs[a].state) in e.unlisted + e.listed
  }

  lemma EffectThorough(s: Shared, op: Op)
    requires Listed(s) && IdsAreNew(s, op)
    ensures Thorough(s, EffectOf(s, op))
  {
    hide Judge, Expired, TargetOf;
    if op.PopOp? && TargetOf(s, op.queue).Takes? {
      TargetIsListed(s, op.queue);
    }
  }

  lemma ExactIsListed(s: Shared)
    requires WellFormed(s.acks) && IndexExact(s)
    ensures Listed(s)
  {
  }

  lemma IndexAlone(s: Shared, e: Effect)
    requires IndexExact(s) && Coherent(s, e) && Thorough(s, e)
    ensures IndexExact(Overwrite(s, e))
  {
    forall a: Address, state
      ensures var after := Overwrite(s, e);
              EntryOf(a, state) in after.index <==> a in after.acks.msgs && after.acks.msgs[a].state == state
    {
      assert CoherentAt(s, e, a);
    }
  }

  /** Committed on the snapshot it saw, an operation does to the messages what the state machine says, and
      the index stays exact. */
  lemma AloneIsStep(s: Shared, op: Op)
    requires WellFormed(s.acks) && IndexExact(s) && IdsAreNew(s, op)
    ensures Overwrite(s, EffectOf(s, op)).acks == Step(s.acks, op)
    ensures IndexExact(Overwrite(s, EffectOf(s, op)))
  {
    hide EffectOf, Step, Overwrite, IndexExact, Listed, Coherent, Thorough;
    MessagesAlone(s, op);
    ExactIsListed(s);
    EffectCoherent(s, op);
    EffectThorough(s, op);
    IndexAlone(s, EffectOf(s, op));
  }

  // ---------- schedules ----------

  /** A transaction under way, with the snapshot it works on. */
  datatype Txn = Txn(op: Op, seen: Shared)

  datatype System = System(shared: Shared, open: map<nat, Txn>)

  /** A rejection looks up the queue's configuration in a transaction of its own, while it is under way. */
  datatype OverlapStep =
    | Begin(t: nat, op: Op)
    | ReadConfigs(t: nat)
    | Commit(t: nat)

  const Start: System := System(Shared(Empty, {}), map[])

  function Decided(x: Txn): Effect {
    EffectOf(x.seen, x.op)
  }

  function Next(s: System, step: OverlapStep): System {
    match step
    case Begin(t, op) =>
      if t in s.open then s else s.(open := s.open[t := Txn(op, s.shared)])
    case ReadConfigs(t) =>
      if t !in s.open then s
      else
        var x := s.open[t];
        s.(open := s.open[t := x.(seen := x.seen.(acks := x.seen.acks.(configs := s.shared.acks.configs)))])
    case Commit(t) =>
      if t !in s.open then s else System(Overwrite(s.shared, Decided(s.open[t])), s.open - {t})
  }

  function Schedule(steps: seq<OverlapStep>): System {
    if steps == [] then Start else Next(Schedule(steps[..|steps| - 1]), steps[|steps| - 1])
  }

  lemma ScheduleNext(steps: seq<OverlapStep>, step: OverlapStep)
    ensures Schedule(steps + [step]) == Next(Schedule(steps), step)
  {
    assert (steps + [step])[..|steps|] == steps;
  }

  // ---------- what overlapping leaves of the index ----------

  ghost predicate AllListed(s: System) {
    Listed(s.shared) && forall t :: t in s.open ==> Listed(s.open[t].seen)
  }

  /** After every schedule, however its transactions overlap, and in every snapshot, each message is listed
      as what it is, and a listing as pending is right as long as the message exists. */
  lemma {:induction false} ScheduleListed(steps: seq<OverlapStep>)
    ensures AllListed(Schedule(steps))
  {
    hide Listed, EffectOf, Overwrite;
    if steps == [] {
      ExactIsListed(Start.shared);
    } else {
      var s, step := Schedule(steps[..|steps| - 1]), steps[|steps| - 1];
      ScheduleListed(steps[..|steps| - 1]);
      if step.t in s.open {
        var x := s.open[step.t];
        EffectCoherent(x.seen, x.op);
        OverwriteKeepsListed(s.shared, x.seen, Decided(x));
        ConfigsUnlisted(x.seen, s.shared.acks.configs);
      }
    }
  }

  lemma ConfigsUnlisted(s: Shared, configs: map<Bytes, QueueConfig>)
    requires Listed(s)
    ensures Listed(s.(acks := s.acks.(configs := configs)))
  {
    var after := s.(acks := s.acks.(configs := configs));
    forall a | a in after.acks.msgs
      ensures ListedAs(after, a, after.acks.msgs[a].state)
    {
      assert ListedAs(s, a, s.acks.msgs[a].state);
    }
  }

  /** A queue's index lists a message as pending that does not exist.  Once such an id comes first, every
      pop of the queue fails, although the queue may hold pending messages. */
  predicate Dangles(s: Shared, a: Address) {
    EntryOf(a, STATE_PENDING) in s.index && a !in s.acks.msgs
  }

  /** For every schedule, a commit makes an address dangle exactly when it deletes a message there that is
      pending by now and was in flight in the snapshot. */
  lemma DanglesIff(steps: seq<OverlapStep>, t: nat, a: Address)
    requires t in Schedule(steps).open && !Dangles(Schedule(steps).shared, a)
    ensures var s := Schedule(steps);
            var x := s.open[t];
            Dangles(Schedule(steps + [Commit(t)]).shared, a) <==>
            && a in Decided(x).gone && a !in Decided(x).puts
            && a in s.shared.acks.msgs && s.shared.acks.msgs[a].state == STATE_PENDING
            && a in x.seen.acks.msgs && x.seen.acks.msgs[a].state == STATE_IN_FLIGHT
  {
    hide Schedule, EffectOf;
    var s := Schedule(steps);
    ScheduleNext(steps, Commit(t));
    ScheduleListed(steps);
    EffectCoherent(s.open[t].seen, s.open[t].op);
    assert CoherentAt(s.open[t].seen, Decided(s.open[t]), a);
    if a in s.open[t].seen.acks.msgs {
      assert ListedAs(s.open[t].seen, a, s.open[t].seen.acks.msgs[a].state);
    }
    if a in s.shared.acks.msgs {
      assert ListedAs(s.shared, a, s.shared.acks.msgs[a].state);
    }
  }

  // ---------- what a commit overwrites ----------

  datatype Write = Untouched | Put(m: QueueMessage) | Deleted

  function WriteOf(e: Effect, a: Address): Write {
    if a in e.puts then Put(e.puts[a]) else if a in e.gone then Deleted else Untouched
  }

  /** What commits have written last at an address, not counting the first `x` steps. */
  function LastWrite(steps: seq<OverlapStep>, x: nat, a: Address): Write {
    if |steps| <= x then Untouched
    else
      var n := |steps| - 1;
      var s, step := Schedule(steps[..n]), steps[n];
      if step.Commit? && step.t in s.open && WriteOf(Decided(s.open[step.t]), a) != Untouched
      then WriteOf(Decided(s.open[step.t]), a)
      else LastWrite(steps[..n], x, a)
  }

  /** What is stored at an address; `Deleted` if nothing is. */
  function StoredAt(s: Shared, a: Address): Write {
    if a in s.acks.msgs then Put(s.acks.msgs[a]) else Deleted
  }

  lemma {:induction false} LastWriteIs(steps: seq<OverlapStep>, x: nat, a: Address)
    requires x <= |steps|
    ensures StoredAt(Schedule(steps).shared, a) ==
            if LastWrite(steps, x, a) == Untouched then StoredAt(Schedule(steps[..x]).shared, a)
            else LastWrite(steps, x, a)
    decreases |steps|
  {
    hide EffectOf;
    if x == |steps| {
      assert steps[..x] == steps;
    } else {
      var n := |steps| - 1;
      LastWriteIs(steps[..n], x, a);
      assert steps[..n][..x] == steps[..x];
    }
  }

  /** How many steps had been taken when the thread's transaction began. */
  function BegunAt(steps: seq<OverlapStep>, t: nat): nat {
    if steps == [] then 0
    else
      var n := |steps| - 1;
      if steps[n].Begin? && steps[n].t == t && t !in Schedule(steps[..n]).open then n
      else BegunAt(steps[..n], t)
  }

  predicate SnapshotOk(steps: seq<OverlapStep>, t: nat) {
    var s := Schedule(steps);
    t in s.open ==>
      && BegunAt(steps, t) <= |steps|
      && Schedule(steps[..BegunAt(steps, t)]).shared.acks.msgs == s.open[t].seen.acks.msgs
      && Schedule(steps[..BegunAt(steps, t)]).shared.index == s.open[t].seen.index
  }

  lemma {:induction false} SnapshotsOk(steps: seq<OverlapStep>, t: nat)
    ensures SnapshotOk(steps, t)
    decreases |steps|
  {
    hide EffectOf, Overwrite;
    if steps != [] {
      var n := |steps| - 1;
      SnapshotsOk(steps[..n], t);
      var b := BegunAt(steps[..n], t);
      assert b <= n ==> steps[..n][..b] == steps[..b];
    }
  }

  /** The address that the open transaction of a thread is about to lease. */
  predicate AboutToLease(s: System, t: nat, a: Address) {
    && t in s.open && s.open[t].op.PopOp? && a.0 == s.open[t].op.queue
    && TargetOf(s.open[t].seen, a.0) == Takes(a.1)
  }

  predicate InFlightIn(w: Write) {
    w.Put? && w.m.state == STATE_IN_FLIGHT
  }

  /** For every schedule, a pop leases its message over a lease that another consumer still holds exactly
      when the last commit that wrote the message, of those since the pop began, left it in flight.  It
      brings back a message that is gone exactly when that commit deleted it. */
  lemma DoubleLeaseIff(steps: seq<OverlapStep>, t: nat, a: Address)
    requires AboutToLease(Schedule(steps), t, a)
    ensures var last := LastWrite(steps, BegunAt(steps, t), a);
            var found := StoredAt(Schedule(steps).shared, a);
            && (InFlightIn(found) <==> InFlightIn(last))
            && (found == Deleted <==> last == Deleted)
    ensures InFlightIn(StoredAt(Schedule(steps + [Commit(t)]).shared, a))
  {
    hide Schedule, LastWrite, BegunAt;
    var s := Schedule(steps);
    SnapshotsOk(steps, t);
    LastWriteIs(steps, BegunAt(steps, t), a);
    ScheduleNext(steps, Commit(t));
    ScheduleListed(steps);
    TargetIsListed(s.open[t].seen, a.0);
    assert ListedAs(s.open[t].seen, a, s.open[t].seen.acks.msgs[a].state);
  }

  // ---------- transactions one after the other ----------

  function InSequence(ops: seq<Op>): seq<OverlapStep> {
    if ops == [] then []
    else InSequence(ops[..|ops| - 1]) + [Begin(0, ops[|ops| - 1]), ReadConfigs(0), Commit(0)]
  }

  lemma ScheduleThree(steps: seq<OverlapStep>, a: OverlapStep, b: OverlapStep, c: OverlapStep)
    ensures Schedule(steps + [a, b, c]) == Next(Next(Next(Schedule(steps), a), b), c)
  {
    hide Schedule, Next;
    ScheduleNext(steps, a);
    ScheduleNext(steps + [a], b);
    ScheduleNext(steps + [a] + [b], c);
    assert steps + [a, b, c] == steps + [a] + [b] + [c];
  }

  /** Transactions that do not overlap are a run of the state machine, and keep the index exact. */
  lemma {:induction false} SequenceIsRun(ops: seq<Op>)
    requires FreshIds(ops)
    ensures var s := Schedule(InSequence(ops));
            s.open == map[] && s.shared.acks == Run(ops) && IndexExact(s.shared)
  {
    hide EffectOf, Overwrite, Step;
    if ops != [] {
      var init, op := ops[..|ops| - 1], ops[|ops| - 1];
      SequenceIsRun(init);
      var s := Schedule(InSequence(init)).shared;
      ScheduleThree(InSequence(init), Begin(0, op), ReadConfigs(0), Commit(0));
      RunWellFormed(init);
      AddressesAreGenerated(init);
      AloneIsStep(s, op);
    }
  }

  // ---------- transactions that overlap ----------

  lemma ScheduleFour(steps: seq<OverlapStep>, a: OverlapStep, b: OverlapStep, c: OverlapStep, d: OverlapStep)
    ensures Schedule(steps + [a, b, c]) == Next(Next(Next(Schedule(steps), a), b), c)
    ensures Schedule(steps + [a, b, c, d]) == Next(Next(Next(Next(Schedule(steps), a), b), c), d)
  {
    hide Schedule, Next;
    ScheduleThree(steps, a, b, c);
    ScheduleNext(steps + [a, b, c], d);
    assert steps + [a, b, c, d] == steps + [a, b, c] + [d];
  }

  /** Whenever two pops of a queue that has a message begin before either commits, both lease that message:
      the second finds it in flight for the first consumer and leaves it in flight for its own, counted as
      delivered once. */
  lemma OverlappingPopsDoubleLease(steps: seq<OverlapStep>, t: nat, u: nat, pop: Op, other: Op)
    requires t != u && t !in Schedule(steps).open && u !in Schedule(steps).open
    requires pop.PopOp? && other.PopOp? && pop.queue == other.queue
    requires TargetOf(Schedule(steps).shared, pop.queue).Takes?
    ensures var a := (pop.queue, TargetOf(Schedule(steps).shared, pop.queue).id);
            var s, both := Schedule(steps + [Begin(t, pop), Begin(u, other), Commit(t)]),
                           Schedule(steps + [Begin(t, pop), Begin(u, other), Commit(t), Commit(u)]);
            && AboutToLease(s, u, a)
            && a in Schedule(steps).shared.acks.msgs && a in s.shared.acks.msgs && a in both.shared.acks.msgs
            && s.shared.acks.msgs[a].state == STATE_IN_FLIGHT && s.shared.acks.msgs[a].consumerId == pop.consumer
            && both.shared.acks.msgs[a].consumerId == other.consumer
            && both.shared.acks.msgs[a].deliveryCount == s.shared.acks.msgs[a].deliveryCount
  {
    hide Schedule, TargetOf;
    ScheduleFour(steps, Begin(t, pop), Begin(u, other), Commit(t), Commit(u));
    TargetIsListed(Schedule(steps).shared, pop.queue);
  }

  /** Whenever an acknowledgement of an expired message overlaps a sweep that commits first, the queue is
      left with a pending entry for a message that is gone. */
  lemma SweptAndAcknowledgedDangles(steps: seq<OverlapStep>, t: nat, u: nat, a: Address, now: Int64)
    requires t != u && t !in Schedule(steps).open && u !in Schedule(steps).open
    requires a.0 != [] && a.1 != [] && Sweepable(Schedule(steps).shared.acks, a.0, a, now)
    ensures var both := [Begin(t, SweepOp(a.0, now)), Begin(u, AckOp(a.0, a.1)), Commit(t), Commit(u)];
            Dangles(Schedule(steps + both).shared, a)
  {
    hide Schedule, Expired;
    var s := Schedule(steps).shared;
    ScheduleFour(steps, Begin(t, SweepOp(a.0, now)), Begin(u, AckOp(a.0, a.1)), Commit(t), Commit(u));
    ScheduleListed(steps);
    assert ListedAs(s, a, s.acks.msgs[a].state);
    assert a == (a.0, a.1) && a.1 in Due(s, a.0, now);
  }

  /** A pop fails for want of the message exactly when the pending id that the index lists first dangles,
      however many messages are pending after it. */
  lemma PopFailsIff(s: Shared, queue: Bytes)
    requires queue != []
    ensures TargetOf(s, queue) == KeyNotFound <==>
            exists id :: Dangles(s, (queue, id)) && IsLeast(id, ListedIds(s, queue, STATE_PENDING))
  {
    var ids := ListedIds(s, queue, STATE_PENDING);
    if ids != {} {
      assert IsLeast(Least(ids), ids);
      forall id | IsLeast(id, ids)
        ensures id == Least(ids)
      {
        LeastUnique(id, Least(ids), ids);
      }
    }
  }
}
