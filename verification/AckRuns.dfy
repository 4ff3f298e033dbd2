/** Whole runs of the acknowledging queue: where every pushed value is at every moment, that a lease
    excludes all others, and how often a message can be delivered. */
module AckRuns {
  import opened ByteStrings
  import opened OrderedStore
  import opened QueueCodec
  import opened AckQueue

  // ---------- prefixes of a run ----------

  lemma {:induction false} FreshPrefix(ops: seq<Op>, k: nat)
    requires FreshIds(ops) && k <= |ops|
    ensures FreshIds(ops[..k])
    ensures AllGenerated(ops[..k]) <= AllGenerated(ops)
    ensures k < |ops| ==> Generated(ops[k]) !! AllGenerated(ops[..k])
    decreases |ops|
  {
    if k < |ops| {
      var init := ops[..|ops| - 1];
      FreshPrefix(init, k);
      assert init[..k] == ops[..k];
      if k < |init| {
        assert init[k] == ops[k];
      }
    } else {
      assert ops[..k] == ops;
    }
  }

  lemma RunStep(ops: seq<Op>, k: nat)
    requires k < |ops|
    ensures Run(ops[..k + 1]) == Step(Run(ops[..k]), ops[k])
    ensures AllGenerated(ops[..k + 1]) == AllGenerated(ops[..k]) + Generated(ops[k])
  {
    assert ops[..k + 1][..k] == ops[..k];
  }

  // ---------- the ledger: one entry per pushed value ----------

  datatype Place =
    | Live(queue: Bytes, id: Bytes)
    | Acked
    | Discarded

  datatype Entry = Entry(value: Bytes, pops: nat, place: Place)

  function At(a: Address): Place {
    Live(a.0, a.1)
  }

  function Move(ledger: seq<Entry>, a: Address, place: Place): seq<Entry> {
    seq(|ledger|, i requires 0 <= i < |ledger| =>
      if ledger[i].place == At(a) then ledger[i].(place := place) else ledger[i])
  }

  function CountPop(ledger: seq<Entry>, a: Address): seq<Entry> {
    seq(|ledger|, i requires 0 <= i < |ledger| =>
      if ledger[i].place == At(a) then ledger[i].(pops := ledger[i].pops + 1) else ledger[i])
  }

  /** The bookkeeping an observer does beside operation `op` on state `s`. */
  function Track(ledger: seq<Entry>, s: AckState, op: Op): seq<Entry> {
    match op
    case PushOp(q, id, value, _) => if q == [] then ledger else ledger + [Entry(value, 0, Live(q, id))]
    case PopOp(_, _, _, _) =>
      (match LeasedBy(s, op)
       case Success(a) => CountPop(ledger, a)
       case Failure(_) => ledger)
    case AckOp(q, id) =>
      if q != [] && id != [] && (q, id) in s.msgs then Move(ledger, (q, id), Acked) else ledger
    case NackOp(q, id, requeue, newId, _) =>
      if q != [] && id != [] && (q, id) in s.msgs then
        match Judge(s, q, s.msgs[(q, id)], requeue)
        case DeadLetter(target) => Move(ledger, (q, id), Live(target, newId))
        case Discard => Move(ledger, (q, id), Discarded)
        case Requeue => ledger
      else ledger
    case SweepOp(_, _) => ledger
    case ConfigOp(_) => ledger
  }

  function Ledger(ops: seq<Op>): seq<Entry> {
    if ops == [] then []
    else Track(Ledger(ops[..|ops| - 1]), Run(ops[..|ops| - 1]), ops[|ops| - 1])
  }

  /** The values accepted by pushes, in order. */
  function Pushed(ops: seq<Op>): seq<Bytes> {
    if ops == [] then []
    else
      var op := ops[|ops| - 1];
      Pushed(ops[..|ops| - 1]) + if op.PushOp? && op.queue != [] then [op.value] else []
  }

  predicate Holds(s: AckState, e: Entry) {
    e.place.Live? ==>
      var a := (e.place.queue, e.place.id);
      && a in s.msgs
      && s.msgs[a].value == e.value
      && s.msgs[a].deliveryCount == e.pops % TWO_32
  }

  predicate OnePlaceEach(ledger: seq<Entry>) {
    forall i, j :: 0 <= i < j < |ledger| && ledger[i].place.Live? ==> ledger[i].place != ledger[j].place
  }

  predicate Accounted(ledger: seq<Entry>, a: Address) {
    exists i :: 0 <= i < |ledger| && ledger[i].place == At(a)
  }

  /** Entries and live messages correspond one to one, and agree on value and delivery count. */
  ghost predicate Conserved(s: AckState, ledger: seq<Entry>) {
    && (forall i :: 0 <= i < |ledger| ==> Holds(s, ledger[i]))
    && OnePlaceEach(ledger)
    && (forall a :: a in s.msgs ==> Accounted(ledger, a))
  }

  /** Moving the one entry at `a` elsewhere keeps the places apart, when nothing is at its new place. */
  lemma MoveKeepsApart(ledger: seq<Entry>, a: Address, place: Place)
    requires OnePlaceEach(ledger)
    requires place.Live? ==> forall i :: 0 <= i < |ledger| ==> ledger[i].place != place
    ensures OnePlaceEach(Move(ledger, a, place))
  {
    var l' := Move(ledger, a, place);
    forall i, j | 0 <= i < j < |l'| && l'[i].place.Live?
      ensures l'[i].place != l'[j].place
    {
    }
  }

  lemma MoveAccounts(ledger: seq<Entry>, a: Address, place: Place, b: Address)
    requires Accounted(ledger, b)
    ensures Accounted(Move(ledger, a, place), b) || a == b
    ensures a == b && place.Live? ==> Accounted(Move(ledger, a, place), (place.queue, place.id))
  {
    var i :| 0 <= i < |ledger| && ledger[i].place == At(b);
    assert Move(ledger, a, place)[i] == if a == b then ledger[i].(place := place) else ledger[i];
  }

  lemma MoveConserves(s: AckState, ledger: seq<Entry>, a: Address, place: Place)
    requires Conserved(s, ledger) && a in s.msgs && !place.Live?
    ensures Conserved(RemoveMessage(s, a.0, a.1), Move(ledger, a, place))
  {
    hide OnePlaceEach, Accounted, Holds;
    var s', l' := RemoveMessage(s, a.0, a.1), Move(ledger, a, place);
    MoveKeepsApart(ledger, a, place);
    forall i | 0 <= i < |ledger|
      ensures Holds(s', l'[i])
    {
      HoldsAfterRemove(s, ledger[i], a, place);
    }
    forall b | b in s'.msgs
      ensures Accounted(l', b)
    {
      MoveAccounts(ledger, a, place, b);
    }
  }

  lemma HoldsAfterRemove(s: AckState, e: Entry, a: Address, place: Place)
    requires Holds(s, e) && !place.Live?
    ensures Holds(RemoveMessage(s, a.0, a.1), if e.place == At(a) then e.(place := place) else e)
  {
  }

  lemma HoldsAfterDeadLetter(s: AckState, e: Entry, a: Address, b: Address, m: QueueMessage)
    requires Holds(s, e) && a in s.msgs && b !in s.msgs && m.id == b.1
    requires m.value == s.msgs[a].value && m.deliveryCount == s.msgs[a].deliveryCount
    ensures Holds(PutMessage(RemoveMessage(s, a.0, a.1), b.0, m), if e.place == At(a) then e.(place := At(b)) else e)
    ensures e.place != At(b)
  {
  }

  lemma DeadLetterConserves(s: AckState, ledger: seq<Entry>, a: Address, b: Address, m: QueueMessage)
    requires Conserved(s, ledger) && a in s.msgs && b !in s.msgs && m.id == b.1
    requires m.value == s.msgs[a].value && m.deliveryCount == s.msgs[a].deliveryCount
    ensures Conserved(PutMessage(RemoveMessage(s, a.0, a.1), b.0, m), Move(ledger, a, At(b)))
  {
    hide OnePlaceEach, Accounted, Holds;
    var s', l' := PutMessage(RemoveMessage(s, a.0, a.1), b.0, m), Move(ledger, a, At(b));
    forall i | 0 <= i < |ledger|
      ensures Holds(s', l'[i]) && ledger[i].place != At(b)
    {
      HoldsAfterDeadLetter(s, ledger[i], a, b, m);
    }
    MoveKeepsApart(ledger, a, At(b));
    forall c | c in s'.msgs
      ensures Accounted(l', c)
    {
      MoveAccounts(ledger, a, At(b), if c == b then a else c);
    }
  }

  lemma PushConserves(s: AckState, ledger: seq<Entry>, q: Bytes, m: QueueMessage)
    requires Conserved(s, ledger) && (q, m.id) !in s.msgs && m.deliveryCount == 0
    ensures Conserved(PutMessage(s, q, m), ledger + [Entry(m.value, 0, Live(q, m.id))])
  {
    var s', l' := PutMessage(s, q, m), ledger + [Entry(m.value, 0, Live(q, m.id))];
    assert forall i :: 0 <= i < |ledger| ==> Holds(s, ledger[i]);
    forall c | c in s'.msgs
      ensures Accounted(l', c)
    {
      if c == (q, m.id) {
        assert l'[|ledger|].place == At(c);
      } else {
        var i :| 0 <= i < |ledger| && ledger[i].place == At(c);
        assert l'[i].place == At(c);
      }
    }
  }

  lemma CountedOnce(s: AckState, e: Entry, a: Address, m: QueueMessage)
    requires Holds(s, e) && a in s.msgs && m.id == a.1 && m.value == s.msgs[a].value
    requires m.deliveryCount == (s.msgs[a].deliveryCount + 1) % TWO_32
    ensures Holds(PutMessage(s, a.0, m), if e.place == At(a) then e.(pops := e.pops + 1) else e)
  {
    assert (e.pops % TWO_32 + 1) % TWO_32 == (e.pops + 1) % TWO_32;
  }

  /** A pop rewrites one message without touching its value, and its entry counts one more. */
  lemma PopConserves(s: AckState, ledger: seq<Entry>, a: Address, m: QueueMessage)
    requires Conserved(s, ledger) && a in s.msgs && m.id == a.1 && m.value == s.msgs[a].value
    requires m.deliveryCount == (s.msgs[a].deliveryCount + 1) % TWO_32
    ensures Conserved(PutMessage(s, a.0, m), CountPop(ledger, a))
  {
    var s', l' := PutMessage(s, a.0, m), CountPop(ledger, a);
    forall i | 0 <= i < |l'|
      ensures Holds(s', l'[i])
    {
      CountedOnce(s, ledger[i], a, m);
    }
    assert OnePlaceEach(l');
    forall c | c in s'.msgs
      ensures Accounted(l', c)
    {
      var i :| 0 <= i < |ledger| && ledger[i].place == At(c);
      assert l'[i].place == At(c);
    }
  }

  lemma RequeueConserves(s: AckState, ledger: seq<Entry>, a: Address, m: QueueMessage)
    requires Conserved(s, ledger) && a in s.msgs && m.id == a.1 && m.value == s.msgs[a].value
    requires m.deliveryCount == s.msgs[a].deliveryCount
    ensures Conserved(PutMessage(s, a.0, m), ledger)
  {
    assert forall i :: 0 <= i < |ledger| ==> Holds(s, ledger[i]);
  }

  lemma SweepConserves(s: AckState, ledger: seq<Entry>, q: Bytes, now: Int64)
    requires Conserved(s, ledger)
    ensures Conserved(Sweep(s, q, now), ledger)
  {
    assert forall i :: 0 <= i < |ledger| ==> Holds(s, ledger[i]);
  }

  /** Every operation with a fresh id keeps the books balanced. */
  lemma StepConserves(s: AckState, ledger: seq<Entry>, op: Op)
    requires WellFormed(s) && Conserved(s, ledger)
    requires forall a :: a in s.msgs ==> a.1 !in Generated(op)
    ensures Conserved(Step(s, op), Track(ledger, s, op))
  {
    match op
    case PushOp(q, id, value, now) =>
      if q != [] {
        PushConserves(s, ledger, q, FreshMessage(id, value, 0, now));
      }
    case PopOp(q, consumer, timeout, now) =>
      if NextPending(s, q).Success? {
        NextPendingIsPending(s, q);
        var a := (q, NextPending(s, q).value);
        PopConserves(s, ledger, a, Stored(Leased(s.msgs[a], consumer, timeout, now)));
      }
    case AckOp(q, id) =>
      if q != [] && id != [] && (q, id) in s.msgs {
        MoveConserves(s, ledger, (q, id), Acked);
      }
    case NackOp(q, id, requeue, newId, now) =>
      if q != [] && id != [] && (q, id) in s.msgs {
        var m := s.msgs[(q, id)];
        match Judge(s, q, m, requeue)
        case DeadLetter(target) =>
          DeadLetterConserves(s, ledger, (q, id), (target, newId), FreshMessage(newId, m.value, m.deliveryCount, now));
        case Discard =>
          MoveConserves(s, ledger, (q, id), Discarded);
        case Requeue =>
          RequeueConserves(s, ledger, (q, id), Requeued(m));
      }
    case SweepOp(q, now) =>
      SweepConserves(s, ledger, q, now);
    case ConfigOp(c) =>
      assert forall i :: 0 <= i < |ledger| ==> Holds(s, ledger[i]);
  }

  lemma {:induction false} LedgerRecordsPushes(ops: seq<Op>)
    ensures |Ledger(ops)| == |Pushed(ops)|
    ensures forall i :: 0 <= i < |Ledger(ops)| ==> Ledger(ops)[i].value == Pushed(ops)[i]
  {
    hide Run, Judge, LeasedBy;
    if ops != [] {
      LedgerRecordsPushes(ops[..|ops| - 1]);
    }
  }

  /** Message conservation.  After any run, the i-th ledger entry is the i-th accepted push; it is
      acked, discarded, or live at exactly one address, possibly in a dead-letter queue under a new id,
      where the message has the pushed value and counts the pops of that value; and no live message
      is anything else. */
  lemma {:induction false} MessagesConserved(ops: seq<Op>)
    requires FreshIds(ops)
    ensures Conserved(Run(ops), Ledger(ops))
    ensures |Ledger(ops)| == |Pushed(ops)|
    ensures forall i :: 0 <= i < |Ledger(ops)| ==> Ledger(ops)[i].value == Pushed(ops)[i]
  {
    hide Step, Track, Generated, WellFormed;
    LedgerRecordsPushes(ops);
    if ops != [] {
      var init, op := ops[..|ops| - 1], ops[|ops| - 1];
      MessagesConserved(init);
      RunWellFormed(init);
      AddressesAreGenerated(init);
      StepConserves(Run(init), Ledger(init), op);
    }
  }

  // ---------- leases exclude each other ----------

  predicate Pending(s: AckState, a: Address) {
    a in s.msgs && s.msgs[a].state == STATE_PENDING
  }

  predicate InFlight(s: AckState, a: Address) {
    a in s.msgs && s.msgs[a].state == STATE_IN_FLIGHT
  }

  /** The operations that may hand a leased message back: a requeueing nack of it, or a sweep of its queue. */
  predicate HandsBack(op: Op, a: Address) {
    || (op.NackOp? && op.requeue && (op.queue, op.id) == a)
    || (op.SweepOp? && op.queue == a.0)
  }

  lemma BecomesPending(s: AckState, op: Op, a: Address)
    requires WellFormed(s)
    ensures !Pending(s, a) && Pending(Step(s, op), a) ==> a.1 in Generated(op) || (HandsBack(op, a) && InFlight(s, a))
  {
    if op.PopOp? && NextPending(s, op.queue).Success? {
      NextPendingIsPending(s, op.queue);
    }
  }

  lemma {:induction false} HandedBackBetween(ops: seq<Op>, i: nat, j: nat, a: Address)
    requires FreshIds(ops) && i < j < |ops| && a.1 in AllGenerated(ops[..i + 1])
    requires !Pending(Run(ops[..i + 1]), a) && Pending(Run(ops[..j]), a)
    ensures exists k :: i < k < j && HandsBack(ops[k], a)
                        && InFlight(Run(ops[..k]), a) && Pending(Run(ops[..k + 1]), a)
    decreases j
  {
    assert j > i + 1;
    var k := j - 1;
    RunStep(ops, k);
    RunWellFormed(ops[..k]);
    FreshPrefix(ops, k);
    FreshPrefix(ops[..k], i + 1);
    assert ops[..k][..i + 1] == ops[..i + 1];
    if Pending(Run(ops[..k]), a) {
      HandedBackBetween(ops, i, k, a);
    } else {
      BecomesPending(Run(ops[..k]), ops[k], a);
    }
  }

  /** Lease exclusion.  Between two pops of the same message there is an operation that took it from in
      flight back to pending, and that operation is a requeueing nack of it or a sweep of its queue. */
  lemma LeaseExclusion(ops: seq<Op>, i: nat, j: nat, a: Address)
    requires FreshIds(ops) && i < j < |ops|
    requires LeasedBy(Run(ops[..i]), ops[i]) == Success(a)
    requires LeasedBy(Run(ops[..j]), ops[j]) == Success(a)
    ensures exists k :: i < k < j && HandsBack(ops[k], a)
                        && InFlight(Run(ops[..k]), a) && Pending(Run(ops[..k + 1]), a)
  {
    hide Step, Run, LeasedBy, Generated;
    RunWellFormed(ops[..i]);
    RunWellFormed(ops[..j]);
    PopLeases(Run(ops[..i]), ops[i]);
    PopLeases(Run(ops[..j]), ops[j]);
    AddressesAreGenerated(ops[..i]);
    RunStep(ops, i);
    assert InFlight(Run(ops[..i + 1]), a);
    HandedBackBetween(ops, i, j, a);
  }

  // ---------- bounded delivery ----------

  /** How often a run delivered the message at `a`. */
  function Deliveries(ops: seq<Op>, a: Address): nat {
    if ops == [] then 0
    else
      var init := ops[..|ops| - 1];
      Deliveries(init, a) + if LeasedBy(Run(init), ops[|ops| - 1]) == Success(a) then 1 else 0
  }

  function Sweeps(ops: seq<Op>, q: Bytes): nat {
    if ops == [] then 0
    else
      var op := ops[|ops| - 1];
      Sweeps(ops[..|ops| - 1], q) + if op.SweepOp? && op.queue == q then 1 else 0
  }

  /** Whenever the run rejects a message of `q`, the retry limit in force is `max`. */
  ghost predicate LimitInForce(ops: seq<Op>, q: Bytes, max: nat) {
    ops == [] ||
    (var init, op := ops[..|ops| - 1], ops[|ops| - 1];
     && LimitInForce(init, q, max)
     && (op.NackOp? && op.queue == q ==> ConfigOf(Run(init), q).maxRetries == max))
  }

  /** No configuration of the run names `q` as a dead-letter queue. */
  predicate NoDeadLettersTo(ops: seq<Op>, q: Bytes) {
    q != [] && forall k :: 0 <= k < |ops| && ops[k].ConfigOp? ==> ops[k].config.deadLetterQueue != q
  }

  lemma {:induction false} ConfigsAvoid(ops: seq<Op>, q: Bytes)
    requires NoDeadLettersTo(ops, q)
    ensures forall r :: ConfigOf(Run(ops), r).deadLetterQueue != q
  {
    if ops != [] {
      var init := ops[..|ops| - 1];
      assert forall k :: 0 <= k < |init| ==> init[k] == ops[k];
      ConfigsAvoid(init, q);
      var s, op := Run(init), ops[|ops| - 1];
      forall r
        ensures ConfigOf(Run(ops), r).deadLetterQueue != q
      {
        assert ConfigOf(s, r).deadLetterQueue != q;
      }
    }
  }

  /** State `s` is consistent with `n` deliveries of `a` so far and a limit of `bound`. */
  predicate WithinBound(s: AckState, a: Address, n: nat, bound: nat) {
    && n <= bound
    && (a in s.msgs ==> s.msgs[a].deliveryCount == n)
    && (Pending(s, a) ==> n < bound)
  }

  lemma StepWithinBound(s: AckState, op: Op, a: Address, n: nat, max: nat, bound: nat)
    requires WellFormed(s) && WithinBound(s, a, n, bound) && 0 < max <= bound
    requires op.NackOp? && op.queue == a.0 ==> ConfigOf(s, a.0).maxRetries == max
    requires a.1 in Generated(op) ==> n == 0 && a !in s.msgs
    requires forall r :: ConfigOf(s, r).deadLetterQueue != a.0
    requires bound + 1 < TWO_32
    ensures var n' := if LeasedBy(s, op) == Success(a) then n + 1 else n;
            var bound' := if op.SweepOp? && op.queue == a.0 then bound + 1 else bound;
            WithinBound(Step(s, op), a, n', bound')
  {
    match op
    case PopOp(q, _, _, _) =>
      hide Nack, Sweep, Ack, Push, SetConfig, ConfigOf;
      if LeasedBy(s, op).Success? {
        PopLeases(s, op);
      }
    case NackOp(q, id, _, _, _) =>
      hide Pop, Sweep, Ack, Push, SetConfig, NextPending;
      if q != [] && id != [] && (q, id) in s.msgs {
        assert ConfigOf(s, q).deadLetterQueue != a.0;
      }
    case SweepOp(_, _) =>
      hide Pop, Nack, Ack, Push, SetConfig, NextPending, ConfigOf;
    case PushOp(_, _, _, _) =>
      hide Pop, Nack, Ack, Sweep, SetConfig, NextPending, ConfigOf;
    case _ =>
      hide Pop, Nack, Sweep, Push, NextPending, ConfigOf;
  }

  lemma EmptyWithinBound(a: Address, max: nat)
    requires 0 < max
    ensures WithinBound(Empty, a, 0, max)
  {
  }

  lemma {:induction false} UngeneratedUndelivered(ops: seq<Op>, a: Address)
    requires a.1 !in AllGenerated(ops)
    ensures Deliveries(ops, a) == 0
  {
    hide Step, Generated;
    if ops != [] {
      var init, op := ops[..|ops| - 1], ops[|ops| - 1];
      UngeneratedUndelivered(init, a);
      AddressesAreGenerated(init);
      RunWellFormed(init);
      if LeasedBy(Run(init), op) == Success(a) {
        PopLeases(Run(init), op);
      }
    }
  }

  lemma {:induction false} BoundKept(ops: seq<Op>, a: Address, max: nat)
    requires FreshIds(ops) && LimitInForce(ops, a.0, max) && NoDeadLettersTo(ops, a.0)
    requires 0 < max && max + Sweeps(ops, a.0) + 1 < TWO_32
    ensures WithinBound(Run(ops), a, Deliveries(ops, a), max + Sweeps(ops, a.0))
  {
    hide Step, WithinBound, LeasedBy, Generated, ConfigOf;
    if ops == [] {
      EmptyWithinBound(a, max);
    } else {
      var init, op := ops[..|ops| - 1], ops[|ops| - 1];
      assert forall k :: 0 <= k < |init| ==> init[k] == ops[k];
      BoundKept(init, a, max);
      RunWellFormed(init);
      AddressesAreGenerated(init);
      ConfigsAvoid(init, a.0);
      if a.1 in Generated(op) {
        UngeneratedUndelivered(init, a);
      }
      StepWithinBound(Run(init), op, a, Deliveries(init, a), max, max + Sweeps(init, a.0));
    }
  }

  /** Bounded delivery.  A queue that is no dead-letter target and whose retry limit is `max` > 0 delivers
      each message at most `max` times, plus once for every expiry sweep of the queue.  The delivery
      count has 32 bits, so the bound must fit them. */
  lemma BoundedDelivery(ops: seq<Op>, a: Address, max: nat)
    requires FreshIds(ops) && LimitInForce(ops, a.0, max) && NoDeadLettersTo(ops, a.0)
    requires 0 < max && max + Sweeps(ops, a.0) + 1 < TWO_32
    ensures Deliveries(ops, a) <= max + Sweeps(ops, a.0)
    ensures Pending(Run(ops), a) && Sweeps(ops, a.0) == 0 ==> Run(ops).msgs[a].deliveryCount < max
  {
    BoundKept(ops, a, max);
  }

  // ---------- sweeps and the retry limit ----------

  /** Every pending message of the queue may still be delivered. */
  predicate BelowLimit(s: AckState, q: Bytes, max: nat) {
    forall a :: a in s.msgs && Pending(s, a) && a.0 == q ==> s.msgs[a].deliveryCount < max
  }

  /** No lease that the sweep takes back has used up its deliveries. */
  predicate SweptInTime(s: AckState, q: Bytes, now: Int64, max: nat) {
    forall a :: a in s.msgs && Sweepable(s, q, a, now) ==> s.msgs[a].deliveryCount < max
  }

  /** A sweep keeps the pending messages below the limit exactly when no message it takes back has reached it. */
  lemma SweepKeepsBelowLimit(s: AckState, q: Bytes, now: Int64, max: nat)
    requires q != [] && BelowLimit(s, q, max)
    ensures BelowLimit(Sweep(s, q, now), q, max) <==> SweptInTime(s, q, now, max)
  {
    hide Expired;
    var s' := Sweep(s, q, now);
    forall a | a in s.msgs && a.0 == q
      ensures Pending(s', a) <==> Pending(s, a) || Sweepable(s, q, a, now)
      ensures s'.msgs[a].deliveryCount == s.msgs[a].deliveryCount
    {
    }
    if BelowLimit(s', q, max) {
      forall a | a in s.msgs && Sweepable(s, q, a, now)
        ensures s.msgs[a].deliveryCount < max
      {
        assert a in s'.msgs && Pending(s', a);
      }
    }
  }

  /** Every sweep of `q` in the run is in time. */
  ghost predicate SweepsInTime(ops: seq<Op>, q: Bytes, max: nat) {
    ops == [] ||
    (var init, op := ops[..|ops| - 1], ops[|ops| - 1];
     SweepsInTime(init, q, max) && (op.SweepOp? && op.queue == q ==> SweptInTime(Run(init), q, op.now, max)))
  }

  ghost predicate AlwaysBelowLimit(ops: seq<Op>, q: Bytes, max: nat) {
    forall k :: 0 <= k <= |ops| ==> BelowLimit(Run(ops[..k]), q, max)
  }

  /** The other operations keep the pending messages below the limit in force. */
  lemma StepKeepsBelowLimit(s: AckState, op: Op, q: Bytes, max: nat)
    requires WellFormed(s) && BelowLimit(s, q, max) && 0 < max
    requires !(op.SweepOp? && op.queue == q)
    requires op.NackOp? && op.queue == q ==> ConfigOf(s, q).maxRetries == max
    requires forall r :: ConfigOf(s, r).deadLetterQueue != q
    ensures BelowLimit(Step(s, op), q, max)
  {
    match op
    case PopOp(_, _, _, _) =>
      hide Nack, Sweep, Ack, Push, SetConfig, ConfigOf;
      if LeasedBy(s, op).Success? {
        PopLeases(s, op);
      }
    case NackOp(r, id, _, _, _) =>
      hide Pop, Sweep, Ack, Push, SetConfig, NextPending;
      if r != [] && id != [] && (r, id) in s.msgs {
        assert ConfigOf(s, r).deadLetterQueue != q;
      }
    case SweepOp(_, _) =>
      hide Pop, Nack, Ack, Push, SetConfig, NextPending, ConfigOf;
    case PushOp(_, _, _, _) =>
      hide Pop, Nack, Ack, Sweep, SetConfig, NextPending, ConfigOf;
    case _ =>
      hide Pop, Nack, Sweep, Push, NextPending, ConfigOf;
  }

  /** Over a run with a fixed limit, the pending messages of a queue that is no dead-letter target are below
      the limit at every point exactly when every sweep of the queue is in time. */
  lemma {:induction false} BelowLimitIffInTime(ops: seq<Op>, q: Bytes, max: nat)
    requires LimitInForce(ops, q, max) && NoDeadLettersTo(ops, q) && 0 < max
    ensures AlwaysBelowLimit(ops, q, max) <==> SweepsInTime(ops, q, max)
    decreases |ops|
  {
    hide Step, BelowLimit, SweptInTime, ConfigOf, WellFormed;
    if ops == [] {
      NothingPending(q, max);
    } else {
      var n := |ops| - 1;
      var init, op := ops[..n], ops[n];
      assert forall k :: 0 <= k < n ==> init[k] == ops[k];
      BelowLimitIffInTime(init, q, max);
      AlwaysBelowNext(ops, q, max);
      RunWellFormed(init);
      ConfigsAvoid(init, q);
      if BelowLimit(Run(init), q, max) {
        if op.SweepOp? && op.queue == q {
          SweepKeepsBelowLimit(Run(init), q, op.now, max);
          StepIsSweep(Run(init), op);
        } else {
          StepKeepsBelowLimit(Run(init), op, q, max);
        }
      }
    }
  }

  lemma StepIsSweep(s: AckState, op: Op)
    requires op.SweepOp?
    ensures Step(s, op) == Sweep(s, op.queue, op.now)
  {
  }

  lemma NothingPending(q: Bytes, max: nat)
    ensures AlwaysBelowLimit([], q, max)
  {
  }

  lemma AlwaysBelowNext(ops: seq<Op>, q: Bytes, max: nat)
    requires ops != []
    ensures AlwaysBelowLimit(ops, q, max)
       <==> AlwaysBelowLimit(ops[..|ops| - 1], q, max) && BelowLimit(Run(ops), q, max)
    ensures AlwaysBelowLimit(ops[..|ops| - 1], q, max) ==> BelowLimit(Run(ops[..|ops| - 1]), q, max)
  {
    hide BelowLimit, Run;
    var init := ops[..|ops| - 1];
    assert ops[..|ops|] == ops && init[..|init|] == init;
    assert forall k :: 0 <= k <= |init| ==> init[..k] == ops[..k];
    if AlwaysBelowLimit(ops, q, max) {
      forall k | 0 <= k <= |init|
        ensures BelowLimit(Run(init[..k]), q, max)
      {
        assert BelowLimit(Run(ops[..k]), q, max);
      }
    }
    if AlwaysBelowLimit(init, q, max) && BelowLimit(Run(ops), q, max) {
      forall k | 0 <= k <= |ops|
        ensures BelowLimit(Run(ops[..k]), q, max)
      {
        if k <= |init| {
          assert BelowLimit(Run(init[..k]), q, max);
        }
      }
    }
  }

  lemma SweepWithinBound(s: AckState, op: Op, a: Address, n: nat, max: nat)
    requires WithinBound(s, a, n, max) && op.SweepOp? && op.queue == a.0 && SweptInTime(s, a.0, op.now, max)
    ensures WithinBound(Step(s, op), a, n, max) && LeasedBy(s, op).Failure?
  {
    hide Expired;
  }

  lemma {:induction false} BoundKeptInTime(ops: seq<Op>, a: Address, max: nat)
    requires FreshIds(ops) && LimitInForce(ops, a.0, max) && NoDeadLettersTo(ops, a.0) && SweepsInTime(ops, a.0, max)
    requires 0 < max && max + 1 < TWO_32
    ensures WithinBound(Run(ops), a, Deliveries(ops, a), max)
    decreases |ops|
  {
    hide Step, WithinBound, LeasedBy, Generated, ConfigOf, SweptInTime;
    if ops == [] {
      EmptyWithinBound(a, max);
    } else {
      var init, op := ops[..|ops| - 1], ops[|ops| - 1];
      assert forall k :: 0 <= k < |init| ==> init[k] == ops[k];
      BoundKeptInTime(init, a, max);
      RunWellFormed(init);
      AddressesAreGenerated(init);
      ConfigsAvoid(init, a.0);
      if a.1 in Generated(op) {
        UngeneratedUndelivered(init, a);
      }
      if op.SweepOp? && op.queue == a.0 {
        SweepWithinBound(Run(init), op, a, Deliveries(init, a), max);
      } else {
        StepWithinBound(Run(init), op, a, Deliveries(init, a), max, max);
      }
    }
  }

  /** With every sweep in time, no message of the queue is delivered more often than the limit says,
      however many sweeps there are. */
  lemma BoundedWhenInTime(ops: seq<Op>, a: Address, max: nat)
    requires FreshIds(ops) && LimitInForce(ops, a.0, max) && NoDeadLettersTo(ops, a.0)
    requires SweepsInTime(ops, a.0, max) && 0 < max && max + 1 < TWO_32
    ensures Deliveries(ops, a) <= max
  {
    hide WithinBound, Deliveries, Run, FreshIds, LimitInForce, NoDeadLettersTo, SweepsInTime, AlwaysBelowLimit;
    BoundKeptInTime(ops, a, max);
    WithinBoundCount(Run(ops), a, Deliveries(ops, a), max);
  }

  lemma WithinBoundCount(s: AckState, a: Address, n: nat, bound: nat)
    requires WithinBound(s, a, n, bound)
    ensures n <= bound
  {
  }

  /** A run extended by one operation. */
  lemma Extend(ops: seq<Op>, op: Op, q: Bytes, a: Address, max: nat)
    ensures var more := ops + [op];
            && Run(more) == Step(Run(ops), op)
            && Sweeps(more, q) == Sweeps(ops, q) + (if op.SweepOp? && op.queue == q then 1 else 0)
            && Deliveries(more, a) == Deliveries(ops, a) + (if LeasedBy(Run(ops), op) == Success(a) then 1 else 0)
            && AllGenerated(more) == AllGenerated(ops) + Generated(op)
            && (FreshIds(more) <==> FreshIds(ops) && Generated(op) !! AllGenerated(ops))
            && (op.NackOp? || (LimitInForce(more, q, max) <==> LimitInForce(ops, q, max)))
  {
    assert (ops + [op])[..|ops|] == ops;
  }

  lemma OnePending(s: AckState, q: Bytes, id: Bytes)
    requires q != [] && (q, id) in s.msgs && s.msgs[(q, id)].state == STATE_PENDING
    requires forall a :: a in s.msgs && a.0 == q ==> a.1 == id
    ensures NextPending(s, q) == Success(id)
  {
    assert (q, id) in s.msgs && id in IdsIn(s, q, STATE_PENDING);
    assert IsLeast(Least(IdsIn(s, q, STATE_PENDING)), IdsIn(s, q, STATE_PENDING));
  }

  /** A pop of the only message of a store, and a sweep of it. */
  lemma PopOnly(s: AckState, a: Address, m: QueueMessage, consumer: Bytes)
    requires s.msgs == map[a := m] && m.id == a.1 && m.state == STATE_PENDING && a.0 != []
    ensures var op := PopOp(a.0, consumer, 1, 0);
            LeasedBy(s, op) == Success(a) && Step(s, op).msgs == map[a := Stored(Leased(m, consumer, 1, 0))]
  {
    OnePending(s, a.0, a.1);
  }

  lemma SweepOnly(s: AckState, a: Address, m: QueueMessage)
    requires s.msgs == map[a := m] && m.id == a.1 && m.state == STATE_IN_FLIGHT && a.0 != []
    requires m.inFlightAt == 0 && m.visibilityTimeout == 1
    ensures var op := SweepOp(a.0, 2);
            LeasedBy(s, op).Failure? && Step(s, op).msgs == map[a := Requeued(m)]
  {
    assert Sweepable(s, a.0, a, 2);
  }

  /** The extra delivery per sweep does happen: the sweep does not look at the retry limit, so with
      limit 1 and one sweep the same message is delivered twice. */
  lemma SweepIgnoresRetryLimit(q: Bytes, id: Bytes, value: Bytes, consumer: Bytes)
    requires q != []
    ensures exists ops :: FreshIds(ops) && LimitInForce(ops, q, 1) && NoDeadLettersTo(ops, q)
                          && Sweeps(ops, q) == 1 && Deliveries(ops, (q, id)) == 2
  {
    hide Run, Sweeps, Deliveries, AllGenerated, FreshIds, LimitInForce, Step, LeasedBy, NoDeadLettersTo;
    var a := (q, id);
    var config := ConfigOp(QueueConfig(q, [], 1, 0));
    var push, pop, sweep := PushOp(q, id, value, 0), PopOp(q, consumer, 1, 0), SweepOp(q, 2);
    var m := FreshMessage(id, value, 0, 0);
    SingleOp(config, q, a, 1);
    Extend([config], push, q, a, 1);
    PushFirst(config, push, a);
    PopOnly(Run([config] + [push]), a, m, consumer);
    Extend([config] + [push], pop, q, a, 1);
    var leased := Stored(Leased(m, consumer, 1, 0));
    SweepOnly(Run([config] + [push] + [pop]), a, leased);
    Extend([config] + [push] + [pop], sweep, q, a, 1);
    PopOnly(Run([config] + [push] + [pop] + [sweep]), a, Requeued(leased), consumer);
    Extend([config] + [push] + [pop] + [sweep], pop, q, a, 1);
    var ops := [config] + [push] + [pop] + [sweep] + [pop];
    OnlyConfig(config, push, pop, sweep, q);
    assert Sweeps(ops, q) == 1 && Deliveries(ops, a) == 2 && FreshIds(ops) && LimitInForce(ops, q, 1);
  }

  lemma PushFirst(config: Op, push: Op, a: Address)
    requires config.ConfigOp? && push.PushOp? && a == (push.queue, push.id) && a.0 != []
    ensures Step(Step(Empty, config), push).msgs == map[a := FreshMessage(push.id, push.value, 0, push.now)]
    ensures LeasedBy(Step(Empty, config), push).Failure?
  {
  }

  lemma OnlyConfig(config: Op, push: Op, pop: Op, sweep: Op, q: Bytes)
    requires config.ConfigOp? && config.config.deadLetterQueue == [] && q != []
    requires push.PushOp? && pop.PopOp? && sweep.SweepOp?
    ensures NoDeadLettersTo([config] + [push] + [pop] + [sweep] + [pop], q)
  {
  }

  lemma SingleOp(op: Op, q: Bytes, a: Address, max: nat)
    requires op.ConfigOp?
    ensures Run([op]) == Step(Empty, op) && Sweeps([op], q) == 0 && Deliveries([op], a) == 0
    ensures AllGenerated([op]) == {} && FreshIds([op]) && LimitInForce([op], q, max)
  {
    Extend([], op, q, a, max);
    assert [] + [op] == [op];
  }

  /** Pops follow the order of the ids, not the order of the pushes: with ids generated at random the
      acknowledging queue is not first-in first-out. */
  lemma PopOrderIsIdOrder(q: Bytes, first: Bytes, second: Bytes, v: Bytes, w: Bytes, now: Int64)
    requires q != [] && first != second
    ensures var s := Run([PushOp(q, first, v, now), PushOp(q, second, w, now)]);
            NextPending(s, q) == Success(if Less(second, first) then second else first)
  {
    var p1, p2 := PushOp(q, first, v, now), PushOp(q, second, w, now);
    Extend([], p1, q, (q, first), 0);
    Extend([p1], p2, q, (q, first), 0);
    assert [] + [p1] == [p1] && [p1] + [p2] == [p1, p2];
    var s := Run([p1, p2]);
    var a, b := (q, first), (q, second);
    assert a in s.msgs && b in s.msgs;
    var ids := IdsIn(s, q, STATE_PENDING);
    assert s.msgs[a].state == STATE_PENDING && s.msgs[b].state == STATE_PENDING;
    assert ids == {first, second};
    assert IsLeast(Least(ids), ids);
    LessTotal(first, second);
    if Less(second, first) {
      LessAsymmetric(second, first);
    }
  }

  // ---------- exactly when a pop is first-in first-out ----------

  /** The operation of the run that made an id. */
  function ArrivalOf(ops: seq<Op>, id: Bytes): nat
    requires id in AllGenerated(ops)
  {
    var n := |ops| - 1;
    if id in Generated(ops[n]) then n else ArrivalOf(ops[..n], id)
  }

  /** Operation `k` put the message at `a` into its queue: an accepted push, or a nack that moved it there
      as into a dead-letter queue. */
  predicate Enters(ops: seq<Op>, k: nat, a: Address) {
    && k < |ops|
    && match ops[k]
       case PushOp(q, id, _, _) => q != [] && (q, id) == a
       case NackOp(q, id, requeue, newId, _) =>
         var s := Run(ops[..k]);
         q != [] && id != [] && (q, id) in s.msgs && a == (a.0, newId)
         && Judge(s, q, s.msgs[(q, id)], requeue) == DeadLetter(a.0)
       case _ => false
  }

  lemma {:induction false} ArrivalRange(ops: seq<Op>, id: Bytes)
    requires id in AllGenerated(ops)
    ensures ArrivalOf(ops, id) < |ops| && id in Generated(ops[ArrivalOf(ops, id)])
    decreases |ops|
  {
    hide Generated;
    var n := |ops| - 1;
    if id !in Generated(ops[n]) {
      ArrivalRange(ops[..n], id);
    }
  }

  /** Messages arrive one at a time. */
  lemma ArrivalsDiffer(ops: seq<Op>, i: Bytes, j: Bytes)
    requires i in AllGenerated(ops) && j in AllGenerated(ops) && i != j
    ensures ArrivalOf(ops, i) != ArrivalOf(ops, j)
  {
    hide AllGenerated, ArrivalOf;
    ArrivalRange(ops, i);
    ArrivalRange(ops, j);
  }

  /** A live message was put into its queue by the operation that made its id. */
  lemma {:induction false} LiveHasEntered(ops: seq<Op>, a: Address)
    requires FreshIds(ops) && a in Run(ops).msgs
    ensures a.1 in AllGenerated(ops) && Enters(ops, ArrivalOf(ops, a.1), a)
    decreases |ops|
  {
    hide Step, Generated, Enters, Judge;
    AddressesAreGenerated(ops);
    var n := |ops| - 1;
    var init, op := ops[..n], ops[n];
    AddressesAreGenerated(init);
    RunWellFormed(init);
    EntersNow(ops, a);
    if a in Run(init).msgs {
      LiveHasEntered(init, a);
      ArrivalRange(init, a.1);
      EntersStays(ops, ArrivalOf(init, a.1), a);
    }
  }

  lemma EntersStays(ops: seq<Op>, k: nat, a: Address)
    requires ops != [] && Enters(ops[..|ops| - 1], k, a)
    ensures Enters(ops, k, a)
  {
    hide Run, Judge;
    assert ops[..|ops| - 1][..k] == ops[..k];
  }

  lemma EntersNow(ops: seq<Op>, a: Address)
    requires ops != [] && WellFormed(Run(ops[..|ops| - 1]))
    ensures a in Run(ops).msgs && a !in Run(ops[..|ops| - 1]).msgs ==>
              a.1 in Generated(ops[|ops| - 1]) && Enters(ops, |ops| - 1, a)
  {
    var s, op := Run(ops[..|ops| - 1]), ops[|ops| - 1];
    if op.PopOp? && NextPending(s, op.queue).Success? {
      NextPendingIsPending(s, op.queue);
    }
  }

  predicate PendingIn(s: AckState, q: Bytes, id: Bytes) {
    Pending(s, (q, id))
  }

  /** Of the pending messages of the queue, `id` has been there longest. */
  ghost predicate Earliest(ops: seq<Op>, q: Bytes, id: Bytes) {
    && PendingIn(Run(ops), q, id) && id in AllGenerated(ops)
    && forall j :: PendingIn(Run(ops), q, j) && j in AllGenerated(ops) && j != id ==>
       ArrivalOf(ops, id) < ArrivalOf(ops, j)
  }

  /** After every run, the next pop of a queue takes the message that has been pending there longest, by
      order of arrival, exactly when no pending message that arrived later has a smaller id. */
  lemma PopsInOrderIff(ops: seq<Op>, q: Bytes, id: Bytes)
    requires FreshIds(ops) && q != [] && Earliest(ops, q, id)
    ensures NextPending(Run(ops), q) == Success(id)
       <==> forall j :: PendingIn(Run(ops), q, j) && j in AllGenerated(ops) && ArrivalOf(ops, id) < ArrivalOf(ops, j)
                        ==> !Less(j, id)
    ensures Enters(ops, ArrivalOf(ops, id), (q, id))
  {
    hide Run, AllGenerated, ArrivalOf, FreshIds, NextPending, Enters;
    var s := Run(ops);
    AddressesAreGenerated(ops);
    LiveHasEntered(ops, (q, id));
    PendingMeansNext(s, q, id);
    NextPendingIsPending(s, q);
    var next := NextPending(s, q).value;
    assert PendingIn(s, q, next);
    LessIrreflexive(id);
    if next != id {
      LessTotal(next, id);
      assert (q, id) in s.msgs && !Less(id, next);
      assert ArrivalOf(ops, id) < ArrivalOf(ops, next);
    } else {
      forall j | PendingIn(s, q, j)
        ensures !Less(j, id)
      {
        assert (q, j) in s.msgs;
      }
    }
  }

  lemma PendingMeansNext(s: AckState, q: Bytes, id: Bytes)
    requires q != [] && PendingIn(s, q, id)
    ensures NextPending(s, q).Success?
  {
    assert (q, id) in s.msgs && id in IdsIn(s, q, STATE_PENDING);
  }

  /** Whenever anything is pending, something has been pending longest. */
  lemma EarliestExists(ops: seq<Op>, q: Bytes)
    requires NextPending(Run(ops), q).Success?
    ensures exists id :: Earliest(ops, q, id)
  {
    hide Run, AllGenerated, ArrivalOf;
    AddressesAreGenerated(ops);
    NextPendingIsPending(Run(ops), q);
    var ids := IdsIn(Run(ops), q, STATE_PENDING);
    forall j
      ensures j in ids <==> PendingIn(Run(ops), q, j)
    {
      if PendingIn(Run(ops), q, j) {
        assert (q, j) in Run(ops).msgs;
      }
    }
    var id := FirstArrived(ops, ids);
    assert Earliest(ops, q, id);
  }

  lemma {:induction false} FirstArrived(ops: seq<Op>, ids: set<Bytes>) returns (id: Bytes)
    requires ids != {} && ids <= AllGenerated(ops)
    ensures id in ids && forall j :: j in ids && j != id ==> ArrivalOf(ops, id) < ArrivalOf(ops, j)
    decreases |ids|
  {
    hide AllGenerated, ArrivalOf;
    id :| id in ids;
    if ids != {id} {
      var best := FirstArrived(ops, ids - {id});
      ArrivalsDiffer(ops, best, id);
      if ArrivalOf(ops, best) < ArrivalOf(ops, id) {
        id := best;
      }
    }
  }
}
