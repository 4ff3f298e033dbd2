/** The Go connection pool before it is closed.  The counter changes under the mutex, the idle connections
    sit in a bounded channel, and connections are dialled and inspected outside the lock; each of these is
    a step of its own, so that any number of callers interleave.  Connections may die at any moment. */
module Pool {

  type Conn = nat

  /** Where a caller is between two steps.
      Inspecting has received a connection and is about to ask whether it is alive;
      Doomed and DialFailed are about to lower the counter and then to try again or to give up;
      Putting has found its connection alive and is about to return it to the channel;
      PutDead and PutFull are about to lower the counter. */
  datatype Caller =
    | Away
    | Trying
    | Inspecting(conn: Conn)
    | Doomed
    | Dialling
    | DialFailed
    | Waiting
    | Putting(conn: Conn)
    | PutDead
    | PutFull

  /** `made` are all the connections there have ever been, `dead` those that have failed. */
  datatype State = State(idle: seq<Conn>, lent: set<Conn>, activeCount: int, maxSize: nat, callers: seq<Caller>,
                         made: set<Conn>, dead: set<Conn>)

  datatype Step =
    | Get(t: nat)
    | TryCreate(t: nat)
    | DialSucceeds(t: nat, conn: Conn)
    | DialFails(t: nat)
    | Receive(t: nat)
    | Inspect(t: nat)
    | Put(t: nat, conn: Conn)
    | Send(t: nat)
    | Subtract(t: nat)
    | Die(conn: Conn)

  predicate Enabled(s: State, e: Step) {
    match e
    case Get(t) => t < |s.callers| && s.callers[t] == Away
    case TryCreate(t) => t < |s.callers| && s.callers[t] == Trying
    case DialSucceeds(t, conn) => t < |s.callers| && s.callers[t] == Dialling && conn !in s.made
    case DialFails(t) => t < |s.callers| && s.callers[t] == Dialling
    case Receive(t) => t < |s.callers| && s.callers[t] == Waiting && s.idle != []
    case Inspect(t) => t < |s.callers| && s.callers[t].Inspecting?
    case Put(t, conn) => t < |s.callers| && s.callers[t] == Away && conn in s.lent
    case Send(t) => t < |s.callers| && s.callers[t].Putting?
    case Subtract(t) => t < |s.callers| && s.callers[t] in {Doomed, DialFailed, PutDead, PutFull}
    case Die(conn) => conn in s.made
  }

  function At(s: State, t: nat, c: Caller): State
    requires t < |s.callers|
  {
    s.(callers := s.callers[t := c])
  }

  /** One step; a step that is not enabled changes nothing. */
  function Apply(s: State, e: Step): State {
    if !Enabled(s, e) then s
    else
      match e
      case Get(t) =>
        if s.idle == [] then At(s, t, Trying) else At(s, t, Inspecting(s.idle[0])).(idle := s.idle[1..])
      case TryCreate(t) =>
        if s.activeCount < s.maxSize then At(s, t, Dialling).(activeCount := s.activeCount + 1) else At(s, t, Waiting)
      case DialSucceeds(t, conn) => At(s, t, Away).(lent := s.lent + {conn}, made := s.made + {conn})
      case DialFails(t) => At(s, t, DialFailed)
      case Receive(t) => At(s, t, Inspecting(s.idle[0])).(idle := s.idle[1..])
      case Inspect(t) =>
        var conn := s.callers[t].conn;
        if conn in s.dead then At(s, t, Doomed) else At(s, t, Away).(lent := s.lent + {conn})
      case Put(t, conn) =>
        var returned := s.(lent := s.lent - {conn});
        if conn in s.dead then At(returned, t, PutDead) else At(returned, t, Putting(conn))
      case Send(t) =>
        if |s.idle| < s.maxSize then At(s, t, Away).(idle := s.idle + [s.callers[t].conn]) else At(s, t, PutFull)
      case Subtract(t) =>
        At(s, t, if s.callers[t] == Doomed then Trying else Away).(activeCount := s.activeCount - 1)
      case Die(conn) => s.(dead := s.dead + {conn})
  }

  function Run(s: State, steps: seq<Step>): State {
    if steps == [] then s else Apply(Run(s, steps[..|steps| - 1]), steps[|steps| - 1])
  }

  // ---------- what is counted ----------

  /** A caller holds one unit of the counter while it dials, while it handles a connection that is
      neither idle nor lent, and until it has subtracted a dead one. */
  function Held(c: Caller): nat {
    if c in {Away, Trying, Waiting} then 0 else 1
  }

  function HeldBy(cs: seq<Caller>): nat {
    if cs == [] then 0 else Held(cs[0]) + HeldBy(cs[1..])
  }

  lemma {:induction false} HeldAfter(cs: seq<Caller>, t: nat, c: Caller)
    requires t < |cs|
    ensures HeldBy(cs[t := c]) == HeldBy(cs) - Held(cs[t]) + Held(c)
    decreases |cs|
  {
    if t == 0 {
      assert cs[t := c][1..] == cs[1..];
    } else {
      assert cs[t := c][1..] == cs[1..][t - 1 := c];
      HeldAfter(cs[1..], t - 1, c);
    }
  }

  function Holds(c: Caller, conn: Conn): nat {
    if (c.Inspecting? || c.Putting?) && c.conn == conn then 1 else 0
  }

  function HoldersOf(cs: seq<Caller>, conn: Conn): nat {
    if cs == [] then 0 else Holds(cs[0], conn) + HoldersOf(cs[1..], conn)
  }

  lemma {:induction false} HoldersAfter(cs: seq<Caller>, t: nat, c: Caller, conn: Conn)
    requires t < |cs|
    ensures HoldersOf(cs[t := c], conn) == HoldersOf(cs, conn) - Holds(cs[t], conn) + Holds(c, conn)
    decreases |cs|
  {
    if t == 0 {
      assert cs[t := c][1..] == cs[1..];
    } else {
      assert cs[t := c][1..] == cs[1..][t - 1 := c];
      HoldersAfter(cs[1..], t - 1, c, conn);
    }
  }

  function Times(q: seq<Conn>, conn: Conn): nat {
    multiset(q)[conn]
  }

  lemma TimesTakeAdd(q: seq<Conn>, x: Conn, conn: Conn)
    ensures q != [] ==> Times(q, conn) == Times(q[1..], conn) + (if q[0] == conn then 1 else 0)
    ensures Times(q + [x], conn) == Times(q, conn) + (if x == conn then 1 else 0)
  {
    if q != [] {
      assert q == [q[0]] + q[1..];
    }
  }

  /** In how many places a connection is: in the channel, with a borrower, in a caller's hands. */
  function Places(s: State, conn: Conn): nat {
    Times(s.idle, conn) + (if conn in s.lent then 1 else 0) + HoldersOf(s.callers, conn)
  }

  /** The counter is exact and within its bound. */
  predicate Counted(s: State) {
    && s.activeCount == |s.idle| + |s.lent| + HeldBy(s.callers)
    && s.activeCount <= s.maxSize
  }

  predicate NoPutFull(s: State) {
    forall t :: 0 <= t < |s.callers| ==> s.callers[t] != PutFull
  }

  /** Every connection is in at most one place, and no other connection is anywhere. */
  ghost predicate Exclusive(s: State) {
    forall conn :: Places(s, conn) <= if conn in s.made then 1 else 0
  }

  ghost predicate Sound(s: State) {
    Counted(s) && NoPutFull(s) && Exclusive(s)
  }

  // ---------- every step keeps it ----------

  lemma HeldAtLeast(cs: seq<Caller>, t: nat)
    requires t < |cs|
    ensures HeldBy(cs) >= Held(cs[t])
    decreases |cs|
  {
    if t > 0 {
      HeldAtLeast(cs[1..], t - 1);
    }
  }

  lemma {:induction false} HoldersAtLeast(cs: seq<Caller>, t: nat, conn: Conn)
    requires t < |cs|
    ensures HoldersOf(cs, conn) >= Holds(cs[t], conn)
    decreases |cs|
  {
    if t > 0 {
      HoldersAtLeast(cs[1..], t - 1, conn);
    }
  }

  /** A connection that is about to be lent is not lent yet. */
  lemma NotLentYet(s: State, e: Step)
    requires Exclusive(s) && Enabled(s, e)
    ensures e.DialSucceeds? ==> e.conn !in s.lent
    ensures e.Inspect? ==> s.callers[e.t].conn !in s.lent
  {
    hide HoldersOf, Times;
    if e.DialSucceeds? {
      assert Places(s, e.conn) == 0;
    } else if e.Inspect? {
      var conn := s.callers[e.t].conn;
      HoldersAtLeast(s.callers, e.t, conn);
      assert Places(s, conn) <= 1;
    }
  }

  /** What the counter has beyond the connections in the channel and with borrowers. */
  function Beyond(s: State): int {
    s.activeCount - |s.idle| - |s.lent|
  }

  /** What a step changes of it, its caller accounts for. */
  lemma StepSum(s: State, e: Step)
    requires Exclusive(s) && Enabled(s, e) && !e.Die?
    ensures Beyond(Apply(s, e)) - Held(Apply(s, e).callers[e.t]) == Beyond(s) - Held(s.callers[e.t])
    ensures Apply(s, e).maxSize == s.maxSize
    ensures Apply(s, e).activeCount <= s.activeCount || Apply(s, e).activeCount <= s.maxSize
  {
    hide Exclusive;
    NotLentYet(s, e);
    if e.DialSucceeds? || e.Put? || e.Inspect? {
      BorrowersSum(s, e);
    } else {
      OthersSum(s, e);
    }
  }

  lemma BorrowersSum(s: State, e: Step)
    requires Enabled(s, e) && (e.DialSucceeds? || e.Put? || e.Inspect?)
    requires e.DialSucceeds? ==> e.conn !in s.lent
    requires e.Inspect? ==> s.callers[e.t].conn !in s.lent
    ensures Beyond(Apply(s, e)) - Held(Apply(s, e).callers[e.t]) == Beyond(s) - Held(s.callers[e.t])
    ensures Apply(s, e).maxSize == s.maxSize && Apply(s, e).activeCount == s.activeCount
  {
    var s' := Apply(s, e);
    var conn := if e.Inspect? then s.callers[e.t].conn else e.conn;
    assert conn in s.lent ==> |s.lent - {conn}| == |s.lent| - 1;
    assert conn !in s.lent ==> |s.lent + {conn}| == |s.lent| + 1;
    assert s'.idle == s.idle;
  }

  lemma OthersSum(s: State, e: Step)
    requires Enabled(s, e) && !e.DialSucceeds? && !e.Put? && !e.Inspect? && !e.Die?
    ensures Beyond(Apply(s, e)) - Held(Apply(s, e).callers[e.t]) == Beyond(s) - Held(s.callers[e.t])
    ensures Apply(s, e).maxSize == s.maxSize
    ensures Apply(s, e).activeCount <= s.activeCount || Apply(s, e).activeCount <= s.maxSize
  {
    assert Apply(s, e).lent == s.lent;
  }

  lemma StepKeepsCount(s: State, e: Step)
    requires Sound(s)
    ensures Counted(Apply(s, e))
  {
    hide HeldBy, NoPutFull, Exclusive, Held;
    if Enabled(s, e) && !e.Die? {
      hide Apply, Enabled;
      HeldAfter(s.callers, e.t, Apply(s, e).callers[e.t]);
      OnlyOneCaller(s, e);
      StepSum(s, e);
    }
  }

  lemma OnlyOneCaller(s: State, e: Step)
    requires Enabled(s, e) && !e.Die?
    ensures |Apply(s, e).callers| == |s.callers|
    ensures Apply(s, e).callers == s.callers[e.t := Apply(s, e).callers[e.t]]
  {
  }

  /** A caller that returns a connection finds room for it: the connection still counts, so at most
      maxSize - 1 others can be in the channel. */
  lemma RoomToPut(s: State, t: nat)
    requires Counted(s) && t < |s.callers| && s.callers[t].Putting?
    ensures |s.idle| < s.maxSize
  {
    HeldAtLeast(s.callers, t);
  }

  lemma StepKeepsRoom(s: State, e: Step)
    requires Sound(s)
    ensures NoPutFull(Apply(s, e))
  {
    hide Exclusive, Counted;
    if Enabled(s, e) && !e.Die? {
      OnlyOneCaller(s, e);
      if e.Send? {
        RoomToPut(s, e.t);
      }
    }
  }

  /** A step moves connections and loses dead ones; it adds one only by dialling. */
  lemma StepMoves(s: State, e: Step, conn: Conn)
    requires Exclusive(s)
    ensures Places(Apply(s, e), conn) <= Places(s, conn) || (Enabled(s, e) && e.DialSucceeds? && e.conn == conn
                                                            && Places(Apply(s, e), conn) == 1)
  {
    hide HeldBy, HoldersOf, Times;
    if Enabled(s, e) && !e.Die? {
      var s' := Apply(s, e);
      OnlyOneCaller(s, e);
      HoldersAfter(s.callers, e.t, s'.callers[e.t], conn);
      TimesTakeAdd(s.idle, if e.Send? then s.callers[e.t].conn else 0, conn);
      if e.DialSucceeds? {
        assert Places(s, e.conn) == 0;
      }
    }
  }

  lemma StepKeepsExclusive(s: State, e: Step)
    requires Exclusive(s)
    ensures Exclusive(Apply(s, e))
  {
    hide Places;
    forall conn
      ensures Places(Apply(s, e), conn) <= if conn in Apply(s, e).made then 1 else 0
    {
      StepMoves(s, e, conn);
      assert Places(s, conn) <= if conn in s.made then 1 else 0;
    }
  }

  /** Over every interleaving of callers and of failing connections, the counter equals the connections
      idle, lent, being dialled or handled, and dead but not yet subtracted; it never exceeds maxSize; no
      connection is in two places; and no caller ever finds the pool full when it returns one. */
  lemma {:induction false} PoolAccounting(s: State, steps: seq<Step>)
    requires Sound(s)
    ensures Sound(Run(s, steps))
    decreases |steps|
  {
    hide Sound, Apply;
    if steps != [] {
      PoolAccounting(s, steps[..|steps| - 1]);
      StepKeepsSound(Run(s, steps[..|steps| - 1]), steps[|steps| - 1]);
    }
  }

  lemma StepKeepsSound(s: State, e: Step)
    requires Sound(s)
    ensures Sound(Apply(s, e))
  {
    hide Apply, Counted, NoPutFull, Exclusive;
    StepKeepsCount(s, e);
    StepKeepsRoom(s, e);
    StepKeepsExclusive(s, e);
  }

  // ---------- creation ----------

  /** A refusal comes with the connections that were made and have been closed again. */
  datatype Created = Created(pool: State) | Refused(reason: string, closed: seq<nat>)

  predicate FirstFailure(dial: nat -> bool, minSize: int, n: nat) {
    n < minSize && !dial(n) && forall i :: 0 <= i < n ==> dial(i)
  }

  /** Dials the minimum number of connections; `dial(i)` tells whether the i-th attempt succeeds.  At the
      first failure every connection made so far is closed, in the order they were made. */
  method NewConnectionPool(minSize: int, maxSize: int, dial: nat -> bool, callers: nat) returns (r: Created)
    ensures r.Created? <==> 0 <= minSize <= maxSize && forall i :: 0 <= i < minSize ==> dial(i)
    ensures r.Created? ==> Sound(r.pool) && |r.pool.idle| == r.pool.activeCount == minSize && r.pool.maxSize == maxSize
    ensures r.Created? ==> r.pool.lent == {} && r.pool.callers == seq(callers, _ => Away)
    ensures r.Refused? ==> if 0 <= minSize <= maxSize then
                             FirstFailure(dial, minSize, |r.closed|)
                             && forall i :: 0 <= i < |r.closed| ==> r.closed[i] == i
                           else r.closed == []
  {
    if minSize < 0 || maxSize < minSize {
      return Refused("invalid pool size configuration", []);
    }
    hide Sound;
    var pool := State([], {}, 0, maxSize, seq(callers, _ => Away), {}, {});
    for i := 0 to minSize
      invariant forall k :: 0 <= k < i ==> dial(k)
      invariant |pool.idle| == i == pool.activeCount
      invariant pool.lent == {} && pool.maxSize == maxSize && pool.callers == seq(callers, _ => Away)
      invariant forall k :: 0 <= k < i ==> pool.idle[k] == k && k in pool.made
    {
      if !dial(i) {
        var closed := [];
        while pool.idle != []
          invariant |closed| + |pool.idle| == i
          invariant forall k :: 0 <= k < |closed| ==> closed[k] == k
          invariant forall k :: 0 <= k < |pool.idle| ==> pool.idle[k] == |closed| + k
        {
          closed := closed + [pool.idle[0]];
          pool := pool.(idle := pool.idle[1..]);
        }
        return Refused("failed to create initial connection", closed);
      }
      pool := pool.(idle := pool.idle + [i], activeCount := pool.activeCount + 1, made := pool.made + {i});
    }
    FreshPool(pool, minSize, callers);
    r := Created(pool);
  }

  lemma {:induction false} NobodyHolds(cs: seq<Caller>)
    requires forall t :: 0 <= t < |cs| ==> cs[t] == Away
    ensures HeldBy(cs) == 0
    ensures forall conn :: HoldersOf(cs, conn) == 0
    decreases |cs|
  {
    if cs != [] {
      NobodyHolds(cs[1..]);
    }
  }

  /** A pool of `n` idle connections, numbered from 0. */
  lemma FreshPool(pool: State, n: nat, callers: nat)
    requires pool.callers == seq(callers, _ => Away) && pool.lent == {} && n <= pool.maxSize
    requires |pool.idle| == n && pool.activeCount == n
    requires forall k :: 0 <= k < n ==> pool.idle[k] == k && k in pool.made
    ensures Sound(pool)
  {
    hide HeldBy, HoldersOf;
    NobodyHolds(pool.callers);
    forall conn
      ensures Times(pool.idle, conn) <= if conn in pool.made then 1 else 0
    {
      OnceEach(pool.idle, conn);
      if conn !in pool.made {
        assert conn !in pool.idle;
      }
    }
  }

  lemma {:induction false} OnceEach(q: seq<Conn>, conn: Conn)
    requires forall i, j :: 0 <= i < j < |q| ==> q[i] != q[j]
    ensures multiset(q)[conn] <= 1
    decreases |q|
  {
    if q != [] {
      assert q == [q[0]] + q[1..];
      OnceEach(q[1..], conn);
    }
  }

  // ---------- what a call comes to when nothing intervenes ----------

  predicate AwayIn(s: State, t: nat) {
    t < |s.callers| && s.callers[t] == Away
  }

  /** Only the connections and the counter have changed; the caller is back, and the others are where they were. */
  predicate CameBack(s: State, t: nat, idle: seq<Conn>, lent: set<Conn>, activeCount: int, after: State) {
    && after.idle == idle && after.lent == lent && after.activeCount == activeCount
    && after.callers == s.callers && after.maxSize == s.maxSize && after.dead == s.dead
  }

  /** A caller gets the connection that has been idle longest, if it is alive. */
  lemma GetsOldestIdle(s: State, t: nat)
    requires AwayIn(s, t) && s.idle != [] && s.idle[0] !in s.dead
    ensures CameBack(s, t, s.idle[1..], s.lent + {s.idle[0]}, s.activeCount, Apply(Apply(s, Get(t)), Inspect(t)))
  {
    assert s.callers[t := Inspecting(s.idle[0])][t := Away] == s.callers;
  }

  /** With none idle and room below the maximum it gets a new one. */
  lemma GetsNewConnection(s: State, t: nat, conn: Conn)
    requires AwayIn(s, t) && s.idle == [] && s.activeCount < s.maxSize && conn !in s.made
    ensures CameBack(s, t, [], s.lent + {conn}, s.activeCount + 1,
                     Apply(Apply(Apply(s, Get(t)), TryCreate(t)), DialSucceeds(t, conn)))
  {
    assert s.callers[t := Trying][t := Dialling][t := Away] == s.callers;
  }

  /** A failed dial gives its place back. */
  lemma FailedDialGivesBack(s: State, t: nat)
    requires AwayIn(s, t) && s.idle == [] && s.activeCount < s.maxSize
    ensures CameBack(s, t, [], s.lent, s.activeCount,
                     Apply(Apply(Apply(Apply(s, Get(t)), TryCreate(t)), DialFails(t)), Subtract(t)))
  {
    assert s.callers[t := Trying][t := Dialling][t := DialFailed][t := Away] == s.callers;
  }

  /** With none idle and none to be made it waits, and gets the next one that is returned. */
  lemma WaitsForReturned(s: State, t: nat, u: nat, conn: Conn)
    requires t != u && AwayIn(s, t) && AwayIn(s, u) && s.idle == [] && s.activeCount >= s.maxSize > 0
    requires conn in s.lent && conn !in s.dead
    ensures var waiting := Apply(Apply(s, Get(t)), TryCreate(t));
            && waiting.callers == s.callers[t := Waiting] && waiting.idle == [] && waiting.lent == s.lent
            && waiting.activeCount == s.activeCount
            && var returned := Apply(Apply(waiting, Put(u, conn)), Send(u));
               CameBack(s, t, [], s.lent - {conn} + {conn}, s.activeCount,
                        Apply(Apply(returned, Receive(t)), Inspect(t)))
  {
    var waiting := Apply(Apply(s, Get(t)), TryCreate(t));
    assert waiting.callers == s.callers[t := Waiting];
    var returned := Apply(Apply(waiting, Put(u, conn)), Send(u));
    assert returned.callers == s.callers[t := Waiting] && returned.idle == [conn];
    assert s.callers[t := Waiting][t := Inspecting(conn)][t := Away] == s.callers;
  }

  /** A dead connection that was idle is given up, and the caller goes on to make a new one. */
  lemma GivesUpDeadIdle(s: State, t: nat)
    requires AwayIn(s, t) && s.idle != [] && s.idle[0] in s.dead
    ensures var after := Apply(Apply(Apply(s, Get(t)), Inspect(t)), Subtract(t));
            && after.idle == s.idle[1..] && after.lent == s.lent && after.activeCount == s.activeCount - 1
            && after.callers == s.callers[t := Trying] && after.maxSize == s.maxSize && after.dead == s.dead
  {
    assert s.callers[t := Inspecting(s.idle[0])][t := Doomed][t := Trying] == s.callers[t := Trying];
  }

  /** A returned connection goes behind the others that are idle, if it is alive and there is room. */
  lemma ReturnsToTheEnd(s: State, t: nat, conn: Conn)
    requires AwayIn(s, t) && conn in s.lent && conn !in s.dead && |s.idle| < s.maxSize
    ensures CameBack(s, t, s.idle + [conn], s.lent - {conn}, s.activeCount, Apply(Apply(s, Put(t, conn)), Send(t)))
  {
    assert s.callers[t := Putting(conn)][t := Away] == s.callers;
  }

  /** A dead one is not kept. */
  lemma DropsDeadReturned(s: State, t: nat, conn: Conn)
    requires AwayIn(s, t) && conn in s.lent && conn in s.dead
    ensures CameBack(s, t, s.idle, s.lent - {conn}, s.activeCount - 1, Apply(Apply(s, Put(t, conn)), Subtract(t)))
  {
    assert s.callers[t := PutDead][t := Away] == s.callers;
  }
}
