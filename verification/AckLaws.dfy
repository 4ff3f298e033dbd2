/** What each operation of the acknowledging queue does, in terms of the messages before and after it: the
    fields are written out and nothing here is used by the operations themselves. */
module AckLaws {
  import opened ByteStrings
  import opened OrderedStore
  import opened QueueCodec
  import opened AckQueue

  /** Nothing but the messages at these addresses has changed. */
  predicate OthersKept(before: AckState, after: AckState, touched: set<Address>) {
    && after.configs == before.configs
    && (forall a :: a in before.msgs && a !in touched ==> a in after.msgs && after.msgs[a] == before.msgs[a])
    && (forall a :: a in after.msgs && a !in touched ==> a in before.msgs)
  }

  // ---------- one operation ----------

  predicate Pushed(before: AckState, queue: Bytes, id: Bytes, value: Bytes, now: Int64, after: AckState) {
    var a := (queue, id);
    if queue == [] then after == before
    else
      && a in after.msgs && after.msgs[a] == QueueMessage(id, value, 0, 0, [], now, 0, 0, 0)
      && OthersKept(before, after, {a})
  }

  /** A pop that finds nothing changes nothing; otherwise it takes the pending message of the queue whose id
      sorts first, leases it to the consumer from now on, and counts the delivery. */
  predicate Popped(before: AckState, queue: Bytes, consumer: Bytes, timeout: Int64, now: Int64,
                   r: Result<QueueMessage>, after: AckState) {
    match r
    case Failure(error) =>
      && after == before
      && (if queue == [] then error == InvalidQueue
          else error == QueueEmpty && forall b :: b in before.msgs && b.0 == queue ==> before.msgs[b].state != 0)
    case Success(m) =>
      var a := (queue, m.id);
      && queue != [] && a in before.msgs && before.msgs[a].state == 0
      && (forall b :: b in before.msgs && b.0 == queue && before.msgs[b].state == 0 ==> !Less(b.1, m.id))
      && m.value == before.msgs[a].value && m.state == 1 && m.deliveryCount == before.msgs[a].deliveryCount + 1
      && m.consumerId == consumer && m.inFlightAt == now && m.visibilityTimeout == timeout
      && m.enqueuedAt == before.msgs[a].enqueuedAt && m.maxRetries == before.msgs[a].maxRetries
      && a in after.msgs && after.msgs[a] == m.(deliveryCount := m.deliveryCount % 0x1_0000_0000)
      && OthersKept(before, after, {a})
  }

  predicate Acknowledged(before: AckState, queue: Bytes, id: Bytes, r: Result<()>, after: AckState) {
    var a := (queue, id);
    if queue == [] || id == [] then r == Failure(InvalidQueue) && after == before
    else if a !in before.msgs then r == Failure(MessageNotFound) && after == before
    else r == Success(()) && a !in after.msgs && OthersKept(before, after, {a})
  }

  /** The configuration in force: the one last stored, or 3 retries and no dead-letter queue. */
  function LimitOf(s: AckState, queue: Bytes): int {
    if queue in s.configs then s.configs[queue].maxRetries else 3
  }

  function DeadLettersOf(s: AckState, queue: Bytes): Bytes {
    if queue in s.configs then s.configs[queue].deadLetterQueue else []
  }

  /** A rejected message whose deliveries have reached a positive limit goes to the dead-letter queue, if
      there is one, with its value and its count; without one it is deleted.  Below the limit it is deleted
      unless it is to be requeued; then it stays, pending and with no consumer. */
  predicate Rejected(before: AckState, queue: Bytes, id: Bytes, requeue: bool, newId: Bytes, now: Int64,
                     r: Result<()>, after: AckState) {
    var a := (queue, id);
    if queue == [] || id == [] then r == Failure(InvalidQueue) && after == before
    else if a !in before.msgs then r == Failure(MessageNotFound) && after == before
    else
      var m, max, dlq := before.msgs[a], LimitOf(before, queue), DeadLettersOf(before, queue);
      && r == Success(())
      && (m.deliveryCount >= max > 0 && dlq != [] ==>
            && a !in after.msgs && (dlq, newId) in after.msgs
            && after.msgs[(dlq, newId)] == QueueMessage(newId, m.value, 0, m.deliveryCount, [], now, 0, 0, 0)
            && OthersKept(before, after, {a, (dlq, newId)}))
      && ((if m.deliveryCount >= max > 0 then dlq == [] else !requeue) ==>
            a !in after.msgs && OthersKept(before, after, {a}))
      && (!(m.deliveryCount >= max > 0) && requeue ==>
            && a in after.msgs && after.msgs[a] == m.(state := 0, consumerId := [], inFlightAt := 0)
            && OthersKept(before, after, {a}))
  }

  /** The lease has a timeout, and it has run out: the deadline is an int64 sum. */
  predicate RunOut(s: AckState, queue: Bytes, a: Address, now: Int64) {
    && a in s.msgs && a.0 == queue && s.msgs[a].state == 1
    && s.msgs[a].visibilityTimeout > 0 && WrapInt64(s.msgs[a].inFlightAt + s.msgs[a].visibilityTimeout) < now
  }

  /** A sweep makes exactly the messages pending whose lease has run out, and says how many. */
  predicate Swept(before: AckState, queue: Bytes, now: Int64, r: Result<nat>, after: AckState) {
    if queue == [] then r == Failure(InvalidQueue) && after == before
    else
      && after.configs == before.configs && after.msgs.Keys == before.msgs.Keys
      && (forall a :: a in before.msgs ==>
            after.msgs[a] == if RunOut(before, queue, a, now)
                             then before.msgs[a].(state := 0, consumerId := [], inFlightAt := 0)
                             else before.msgs[a])
      && r == Success(|set a | a in before.msgs && RunOut(before, queue, a, now)|)
  }

  predicate Configured(before: AckState, c: QueueConfig, r: Result<()>, after: AckState) {
    if c.name == [] then r == Failure(InvalidQueue) && after == before
    else
      && r == Success(()) && after.msgs == before.msgs
      && after.configs == before.configs[c.name := QueueConfig(c.name, c.deadLetterQueue, c.maxRetries % 0x1_0000_0000,
                                                               c.defaultVisibilityTimeout)]
  }

  // ---------- the operations do so ----------

  lemma PushIs(s: AckState, queue: Bytes, id: Bytes, value: Bytes, now: Int64)
    ensures Pushed(s, queue, id, value, now, Push(s, queue, id, value, now))
  {
  }

  lemma AckIs(s: AckState, queue: Bytes, id: Bytes)
    ensures Acknowledged(s, queue, id,
                         if queue == [] || id == [] then Failure(InvalidQueue)
                         else if (queue, id) !in s.msgs then Failure(MessageNotFound)
                         else Success(()),
                         Ack(s, queue, id))
  {
  }

  lemma PopIs(s: AckState, queue: Bytes, consumer: Bytes, timeout: Int64, now: Int64, r: Result<QueueMessage>)
    requires WellFormed(s)
    requires match NextPending(s, queue)
             case Failure(e) => r == Failure(e)
             case Success(id) =>
               (queue, id) in s.msgs && r == Success(Leased(s.msgs[(queue, id)], consumer, timeout, now))
    ensures Popped(s, queue, consumer, timeout, now, r, Pop(s, queue, consumer, timeout, now))
  {
    if r.Success? {
      NextPendingIsPending(s, queue);
      GoodAt(s, (queue, NextPending(s, queue).value));
    } else if queue != [] {
      assert IdsIn(s, queue, STATE_PENDING) == {};
      forall b | b in s.msgs && b.0 == queue
        ensures s.msgs[b].state != 0
      {
        assert b.1 !in IdsIn(s, queue, STATE_PENDING);
      }
    }
  }

  lemma NackIs(s: AckState, queue: Bytes, id: Bytes, requeue: bool, newId: Bytes, now: Int64)
    requires WellFormed(s) && forall a :: a in s.msgs ==> a.1 != newId
    ensures Rejected(s, queue, id, requeue, newId, now,
                     if queue == [] || id == [] then Failure(InvalidQueue)
                     else if (queue, id) !in s.msgs then Failure(MessageNotFound)
                     else Success(()),
                     Nack(s, queue, id, requeue, newId, now))
  {
    if (queue, id) in s.msgs {
      GoodAt(s, (queue, id));
    }
    hide WellFormed;
  }

  lemma SweepIs(s: AckState, queue: Bytes, now: Int64)
    ensures Swept(s, queue, now,
                  if queue == [] then Failure(InvalidQueue)
                  else Success(|set a | a in s.msgs && RunOut(s, queue, a, now)|),
                  Sweep(s, queue, now))
  {
  }

  lemma ConfigIs(s: AckState, c: QueueConfig)
    ensures Configured(s, c, if c.name == [] then Failure(InvalidQueue) else Success(()), SetConfig(s, c))
  {
  }
}

/** The same over whole runs: where an accepted value goes, and how long a lease lasts. */
module AckRunLaws {
  import opened ByteStrings
  import opened QueueCodec
  import opened AckQueue
  import opened AckRuns
  import opened AckLaws

  /** The run's last operation rejects the message at `a`. */
  predicate Rejects(op: Op, a: Address) {
    op.NackOp? && (op.queue, op.id) == a && a.0 != [] && a.1 != []
  }

  predicate LimitReached(s: AckState, a: Address)
    requires a in s.msgs
  {
    s.msgs[a].deliveryCount >= LimitOf(s, a.0) > 0
  }

  /** Where the i-th accepted value is after one more operation.  It stays where it is unless it is
      acknowledged or rejected there.  It counts as discarded only when it is rejected at its limit without a
      dead-letter queue, or below its limit without being requeued; at its limit, and with such a queue, it
      is in that queue. */
  lemma PlaceAfter(ops: seq<Op>, i: nat)
    requires FreshIds(ops) && ops != [] && i < |Ledger(ops[..|ops| - 1])|
    ensures i < |Ledger(ops)|
    ensures var init, op := ops[..|ops| - 1], ops[|ops| - 1];
            var s, before, now := Run(init), Ledger(init)[i], Ledger(ops)[i];
            && now.value == before.value
            && (!before.place.Live? ==> now == before)
            && (before.place.Live? ==>
                  var a := (before.place.queue, before.place.id);
                  && a in s.msgs
                  && now.place ==
                     if op.AckOp? && (op.queue, op.id) == a && a.0 != [] && a.1 != [] then Acked
                     else if Rejects(op, a) && LimitReached(s, a) && DeadLettersOf(s, a.0) != [] then
                       Live(DeadLettersOf(s, a.0), op.newId)
                     else if Rejects(op, a) && (LimitReached(s, a) || !op.requeue) then Discarded
                     else before.place)
  {
    hide Run, Ledger;
    var init, op := ops[..|ops| - 1], ops[|ops| - 1];
    FreshPrefix(ops, |ops| - 1);
    MessagesConserved(init);
    LedgerNext(ops);
    var e := Ledger(init)[i];
    assert Holds(Run(init), e);
  }

  lemma LedgerNext(ops: seq<Op>)
    requires ops != []
    ensures Ledger(ops) == Track(Ledger(ops[..|ops| - 1]), Run(ops[..|ops| - 1]), ops[|ops| - 1])
  {
  }

  // ---------- how long a lease lasts ----------

  predicate HeldFrom(ops: seq<Op>, i: nat, k: nat, a: Address) {
    forall j :: i < j <= k <= |ops| ==> InFlight(Run(ops[..j]), a)
  }

  /** What is in flight before and after a step is the same message. */
  lemma HeldStays(s: AckState, op: Op, a: Address)
    requires WellFormed(s) && InFlight(s, a) && InFlight(Step(s, op), a)
    ensures Step(s, op).msgs[a] == s.msgs[a]
  {
    hide WellFormed;
    if op.PopOp? && NextPending(s, op.queue).Success? {
      NextPendingIsPending(s, op.queue);
      GoodAt(s, (op.queue, NextPending(s, op.queue).value));
    }
  }

  /** A message that has been in flight since it was popped carries the lease of that pop. */
  lemma {:induction false} HeldLease(ops: seq<Op>, i: nat, k: nat, a: Address)
    requires i < k <= |ops| && LeasedBy(Run(ops[..i]), ops[i]) == Success(a) && HeldFrom(ops, i, k, a)
    ensures a in Run(ops[..k]).msgs
    ensures var m := Run(ops[..k]).msgs[a];
            m.consumerId == ops[i].consumer && m.inFlightAt == ops[i].now && m.visibilityTimeout == ops[i].timeout
    decreases k
  {
    hide Run, Step, LeasedBy;
    RunWellFormed(ops[..k - 1]);
    RunStep(ops, k - 1);
    if k == i + 1 {
      PopLeases(Run(ops[..i]), ops[i]);
    } else {
      HeldLease(ops, i, k - 1, a);
      HeldStays(Run(ops[..k - 1]), ops[k - 1], a);
    }
  }

  /** A sweep takes back a lease that is still held exactly when it is a sweep of that queue, the pop set a
      positive timeout, and the time of the sweep is past the time of the pop plus the timeout.  The sum is an
      int64. */
  lemma SweepEndsLease(ops: seq<Op>, i: nat, k: nat, a: Address)
    requires i < k < |ops| && LeasedBy(Run(ops[..i]), ops[i]) == Success(a) && HeldFrom(ops, i, k, a)
    requires ops[k].SweepOp?
    ensures var timeout, deadline := ops[i].timeout, WrapInt64(ops[i].now + ops[i].timeout);
            if ops[k].queue == a.0 && timeout > 0 && deadline < ops[k].now then Pending(Run(ops[..k + 1]), a)
            else InFlight(Run(ops[..k + 1]), a)
    ensures ops[i].now + ops[i].timeout < TWO_63 && ops[i].timeout > 0 ==>
              WrapInt64(ops[i].now + ops[i].timeout) == ops[i].now + ops[i].timeout
  {
    hide Run, LeasedBy, WrapInt64;
    PopNamesQueue(Run(ops[..i]), ops[i], a);
    HeldLease(ops, i, k, a);
    RunStep(ops, k);
    SweepIs(Run(ops[..k]), ops[k].queue, ops[k].now);
    WrapInt64Is(ops[i].now + ops[i].timeout);
    assert InFlight(Run(ops[..k]), a);
  }

  lemma PopNamesQueue(s: AckState, op: Op, a: Address)
    requires LeasedBy(s, op) == Success(a)
    ensures op.PopOp? && a.0 == op.queue != []
  {
  }
}
