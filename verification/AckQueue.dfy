/** The acknowledging queue as a state machine on values: what each storage transaction
    does to the messages of every queue and to the queue configurations.

    Wall-clock times and freshly generated message ids are parameters.  An operation that the
    storage refuses leaves the state as it is. */
module AckQueue {
  import opened ByteStrings
  import opened OrderedStore
  import opened QueueCodec

  /** A message is addressed by its queue and its id. */
  type Address = (Bytes, Bytes)

  datatype AckState = AckState(msgs: map<Address, QueueMessage>, configs: map<Bytes, QueueConfig>)

  datatype AckError = InvalidQueue | QueueEmpty | MessageNotFound

  datatype Result<+T> = Success(value: T) | Failure(error: AckError)

  const DEFAULT_MAX_RETRIES := 3
  const DEFAULT_VISIBILITY_TIMEOUT := 30000

  const Empty: AckState := AckState(map[], map[])

  function ConfigOf(s: AckState, queue: Bytes): QueueConfig {
    if queue in s.configs then s.configs[queue]
    else QueueConfig(queue, [], DEFAULT_MAX_RETRIES, DEFAULT_VISIBILITY_TIMEOUT)
  }

  function FreshMessage(id: Bytes, value: Bytes, deliveryCount: int, now: Int64): QueueMessage {
    QueueMessage(id, value, STATE_PENDING, deliveryCount, [], now, 0, 0, 0)
  }

  function PutMessage(s: AckState, queue: Bytes, m: QueueMessage): AckState {
    s.(msgs := s.msgs[(queue, m.id) := m])
  }

  function RemoveMessage(s: AckState, queue: Bytes, id: Bytes): AckState {
    s.(msgs := s.msgs - {(queue, id)})
  }

  // ---------- push and pop ----------

  function Push(s: AckState, queue: Bytes, id: Bytes, value: Bytes, now: Int64): AckState {
    if queue == [] then s else PutMessage(s, queue, FreshMessage(id, value, 0, now))
  }

  /** The ids of one queue in one state. */
  function IdsIn(s: AckState, queue: Bytes, state: int): set<Bytes> {
    set a | a in s.msgs && a.0 == queue && s.msgs[a].state == state :: a.1
  }

  /** The message a pop takes: the pending one whose id sorts first. */
  function NextPending(s: AckState, queue: Bytes): Result<Bytes> {
    if queue == [] then Failure(InvalidQueue)
    else if IdsIn(s, queue, STATE_PENDING) == {} then Failure(QueueEmpty)
    else Success(Least(IdsIn(s, queue, STATE_PENDING)))
  }

  /** A message as its consumer receives it.  The stored count has 32 bits, the returned one does not. */
  function Leased(m: QueueMessage, consumer: Bytes, timeout: Int64, now: Int64): QueueMessage {
    m.(state := STATE_IN_FLIGHT, consumerId := consumer, inFlightAt := now, visibilityTimeout := timeout,
    deliveryCount := m.deliveryCount + 1)
  }

  function Stored(m: QueueMessage): QueueMessage {
    m.(deliveryCount := m.deliveryCount % TWO_32)
  }

  function Pop(s: AckState, queue: Bytes, consumer: Bytes, timeout: Int64, now: Int64): AckState {
    match NextPending(s, queue)
    case Failure(_) => s
    case Success(id) =>
      if (queue, id) in s.msgs then
        PutMessage(s, queue, Stored(Leased(s.msgs[(queue, id)], consumer, timeout, now)))
      else s
  }

  // ---------- acknowledge and reject ----------

  function Ack(s: AckState, queue: Bytes, id: Bytes): AckState {
    if queue == [] || id == [] || (queue, id) !in s.msgs then s else RemoveMessage(s, queue, id)
  }

  function Requeued(m: QueueMessage): QueueMessage {
    m.(state := STATE_PENDING, consumerId := [], inFlightAt := 0)
  }

  predicate RetriesExhausted(s: AckState, queue: Bytes, m: QueueMessage) {
    var max := ConfigOf(s, queue).maxRetries;
    m.deliveryCount >= max && max > 0
  }

  /** What a negative acknowledgement decides about a message. */
  datatype Verdict = DeadLetter(target: Bytes) | Discard | Requeue

  function Judge(s: AckState, queue: Bytes, m: QueueMessage, requeue: bool): Verdict {
    if RetriesExhausted(s, queue, m) then
      var dlq := ConfigOf(s, queue).deadLetterQueue;
      if dlq != [] then DeadLetter(dlq) else Discard
    else if !requeue then Discard
    else Requeue
  }

  function Nack(s: AckState, queue: Bytes, id: Bytes, requeue: bool, newId: Bytes, now: Int64): AckState {
    if queue == [] || id == [] || (queue, id) !in s.msgs then s
    else
      var m := s.msgs[(queue, id)];
      match Judge(s, queue, m, requeue)
      case DeadLetter(target) =>
        PutMessage(RemoveMessage(s, queue, id), target, FreshMessage(newId, m.value, m.deliveryCount, now))
      case Discard => RemoveMessage(s, queue, id)
      case Requeue => PutMessage(s, queue, Requeued(m))
  }

  // ---------- expiry sweep ----------

  /** A lease without a timeout never expires; the deadline is computed in 64 bits. */
  predicate Expired(m: QueueMessage, now: Int64) {
    m.visibilityTimeout > 0 && WrapInt64(m.inFlightAt + m.visibilityTimeout) < now
  }

  predicate Sweepable(s: AckState, queue: Bytes, a: Address, now: Int64) {
    a in s.msgs && a.0 == queue && s.msgs[a].state == STATE_IN_FLIGHT && Expired(s.msgs[a], now)
  }

  function Sweep(s: AckState, queue: Bytes, now: Int64): AckState {
    if queue == [] then s
    else s.(msgs := map a | a in s.msgs :: if Sweepable(s, queue, a, now) then Requeued(s.msgs[a]) else s.msgs[a])
  }

  // ---------- configuration ----------

  /** The retry limit is stored in 32 bits and read back unsigned. */
  function SetConfig(s: AckState, c: QueueConfig): AckState {
    if c.name == [] then s else s.(configs := s.configs[c.name := c.(maxRetries := c.maxRetries % TWO_32)])
  }

  // ---------- runs ----------

  datatype Op =
    | PushOp(queue: Bytes, id: Bytes, value: Bytes, now: Int64)
    | PopOp(queue: Bytes, consumer: Bytes, timeout: Int64, now: Int64)
    | AckOp(queue: Bytes, id: Bytes)
    | NackOp(queue: Bytes, id: Bytes, requeue: bool, newId: Bytes, now: Int64)
    | SweepOp(queue: Bytes, now: Int64)
    | ConfigOp(config: QueueConfig)

  function Step(s: AckState, op: Op): AckState {
    match op
    case PushOp(q, id, value, now) => Push(s, q, id, value, now)
    case PopOp(q, consumer, timeout, now) => Pop(s, q, consumer, timeout, now)
    case AckOp(q, id) => Ack(s, q, id)
    case NackOp(q, id, requeue, newId, now) => Nack(s, q, id, requeue, newId, now)
    case SweepOp(q, now) => Sweep(s, q, now)
    case ConfigOp(c) => SetConfig(s, c)
  }

  function Run(ops: seq<Op>): AckState {
    if ops == [] then Empty else Step(Run(ops[..|ops| - 1]), ops[|ops| - 1])
  }

  /** The ids an operation generates. */
  function Generated(op: Op): set<Bytes> {
    match op
    case PushOp(_, id, _, _) => {id}
    case NackOp(_, _, _, newId, _) => {newId}
    case _ => {}
  }

  function AllGenerated(ops: seq<Op>): set<Bytes> {
    if ops == [] then {} else AllGenerated(ops[..|ops| - 1]) + Generated(ops[|ops| - 1])
  }

  /** Generated ids are fresh: no id is generated twice. */
  predicate FreshIds(ops: seq<Op>) {
    ops == [] ||
    (FreshIds(ops[..|ops| - 1]) && Generated(ops[|ops| - 1]) !! AllGenerated(ops[..|ops| - 1]))
  }

  /** The address a pop leases, if the operation is a pop that finds a message. */
  function LeasedBy(s: AckState, op: Op): Result<Address> {
    if op.PopOp? && NextPending(s, op.queue).Success? then Success((op.queue, NextPending(s, op.queue).value))
    else Failure(QueueEmpty)
  }

  lemma NextPendingIsPending(s: AckState, queue: Bytes)
    requires NextPending(s, queue).Success?
    ensures var a := (queue, NextPending(s, queue).value);
            a in s.msgs && s.msgs[a].state == STATE_PENDING
    ensures forall b :: b in s.msgs && b.0 == queue && s.msgs[b].state == STATE_PENDING
                        ==> !Less(b.1, NextPending(s, queue).value)
  {
    var ids := IdsIn(s, queue, STATE_PENDING);
    assert IsLeast(Least(ids), ids);
    forall b | b in s.msgs && b.0 == queue && s.msgs[b].state == STATE_PENDING
      ensures b.1 in ids
    {
    }
  }

  /** A successful pop takes a pending message and leaves it in flight, changing nothing else. */
  lemma PopLeases(s: AckState, op: Op)
    requires WellFormed(s) && LeasedBy(s, op).Success?
    ensures var a := LeasedBy(s, op).value;
            && a in s.msgs && s.msgs[a].state == STATE_PENDING && a.0 == op.queue
            && Step(s, op) == s.(msgs := Step(s, op).msgs) && a in Step(s, op).msgs
            && Step(s, op).msgs[a] == s.msgs[a].(
                 state := STATE_IN_FLIGHT, consumerId := op.consumer, inFlightAt := op.now,
                 visibilityTimeout := op.timeout, deliveryCount := (s.msgs[a].deliveryCount + 1) % TWO_32)
    ensures Step(s, op).msgs.Keys == s.msgs.Keys
    ensures forall b :: b in s.msgs && b != LeasedBy(s, op).value ==> Step(s, op).msgs[b] == s.msgs[b]
  {
    NextPendingIsPending(s, op.queue);
  }

  // ---------- what every step keeps ----------

  predicate GoodMessage(m: QueueMessage) {
    && m.state in {STATE_PENDING, STATE_IN_FLIGHT}
    && (m.state == STATE_PENDING ==> m.consumerId == [] && m.inFlightAt == 0)
    && 0 <= m.deliveryCount < TWO_32
  }

  /** Messages sit under their own id, are pending or in flight, and a pending one carries no lease. */
  predicate WellFormed(s: AckState) {
    forall a :: a in s.msgs ==> s.msgs[a].id == a.1 && GoodMessage(s.msgs[a])
  }

  lemma GoodAt(s: AckState, a: Address)
    requires WellFormed(s) && a in s.msgs
    ensures GoodMessage(s.msgs[a]) && s.msgs[a].id == a.1
  {
  }

  lemma PutKeepsWellFormed(s: AckState, q: Bytes, m: QueueMessage)
    requires WellFormed(s) && GoodMessage(m)
    ensures WellFormed(PutMessage(s, q, m))
  {
  }

  lemma RemoveKeepsWellFormed(s: AckState, q: Bytes, id: Bytes)
    requires WellFormed(s)
    ensures WellFormed(RemoveMessage(s, q, id))
  {
  }

  lemma SweepKeepsWellFormed(s: AckState, q: Bytes, now: Int64)
    requires WellFormed(s)
    ensures WellFormed(Sweep(s, q, now))
  {
  }

  lemma StepKeepsWellFormed(s: AckState, op: Op)
    requires WellFormed(s)
    ensures WellFormed(Step(s, op))
  {
    hide WellFormed, PutMessage, RemoveMessage, NextPending, Judge, Sweep;
    match op
    case PushOp(q, id, value, now) =>
      PutKeepsWellFormed(s, q, FreshMessage(id, value, 0, now));
    case PopOp(q, consumer, timeout, now) =>
      if NextPending(s, q).Success? {
        NextPendingIsPending(s, q);
        var a := (q, NextPending(s, q).value);
        GoodAt(s, a);
        PutKeepsWellFormed(s, q, Stored(Leased(s.msgs[a], consumer, timeout, now)));
      }
    case AckOp(q, id) =>
      RemoveKeepsWellFormed(s, q, id);
    case NackOp(q, id, requeue, newId, now) =>
      if (q, id) in s.msgs {
        var m := s.msgs[(q, id)];
        GoodAt(s, (q, id));
        RemoveKeepsWellFormed(s, q, id);
        match Judge(s, q, m, requeue)
        case DeadLetter(target) =>
          PutKeepsWellFormed(RemoveMessage(s, q, id), target, FreshMessage(newId, m.value, m.deliveryCount, now));
        case Discard =>
        case Requeue => PutKeepsWellFormed(s, q, Requeued(m));
      }
    case SweepOp(q, now) =>
      SweepKeepsWellFormed(s, q, now);
    case ConfigOp(c) =>
      ConfigKeepsWellFormed(s, c);
  }

  lemma ConfigKeepsWellFormed(s: AckState, c: QueueConfig)
    requires WellFormed(s)
    ensures WellFormed(SetConfig(s, c))
  {
  }

  lemma {:induction false} RunWellFormed(ops: seq<Op>)
    ensures WellFormed(Run(ops))
  {
    if ops != [] {
      RunWellFormed(ops[..|ops| - 1]);
      StepKeepsWellFormed(Run(ops[..|ops| - 1]), ops[|ops| - 1]);
    }
  }

  lemma {:induction false} AddressesAreGenerated(ops: seq<Op>)
    ensures forall a :: a in Run(ops).msgs ==> a.1 in AllGenerated(ops)
  {
    if ops != [] {
      AddressesAreGenerated(ops[..|ops| - 1]);
      RunWellFormed(ops[..|ops| - 1]);
      var s, op := Run(ops[..|ops| - 1]), ops[|ops| - 1];
      if op.PopOp? && NextPending(s, op.queue).Success? {
        NextPendingIsPending(s, op.queue);
      }
    }
  }
}
