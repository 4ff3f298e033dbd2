/** Consumer offsets: a read-through cache in front of the stored ones.  First the interleaving of
    lookups, fills and commits, then the object whose calls run one after the other. */
module OffsetInterleaving {
  import opened ByteStrings

  /** The key of a group's offset in one partition. */
  type Key = Bytes

  datatype Thread =
    | Idle
    | Missed(key: Key)                   // found nothing in the cache
    | Read(key: Key, offset: Int64)      // read the store, has not filled the cache yet
    | Cached(key: Key, offset: Int64)    // commit wrote the cache, has not written the store yet

  /** `committed` records, per key, every offset passed to a commit so far. */
  datatype State = State(
    cache: map<Key, Int64>,
    stored: map<Key, Int64>,
    threads: map<nat, Thread>,
    committed: map<Key, set<Int64>>)

  const Initial: State := State(map[], map[], map[], map[])

  function ThreadOf(s: State, t: nat): Thread {
    if t in s.threads then s.threads[t] else Idle
  }

  function StoredOffset(s: State, k: Key): Int64 {
    if k in s.stored then s.stored[k] else 0
  }

  function CommittedTo(s: State, k: Key): set<Int64> {
    if k in s.committed then s.committed[k] else {}
  }

  datatype Step =
    | Lookup(t: nat, key: Key)                      // getCachedOffset, read lock
    | ReadStore(t: nat)                             // GetConsumerOffset
    | Fill(t: nat)                                  // getCachedOffset, write lock
    | CommitCache(t: nat, key: Key, offset: Int64)  // Commit, cache write
    | CommitStore(t: nat)                           // Commit, CommitOffset

  function Apply(s: State, step: Step): State {
    match step
    case Lookup(t, k) =>
      if ThreadOf(s, t).Idle? && k !in s.cache then s.(threads := s.threads[t := Missed(k)]) else s
    case ReadStore(t) =>
      if ThreadOf(s, t).Missed? then
        s.(threads := s.threads[t := Read(ThreadOf(s, t).key, StoredOffset(s, ThreadOf(s, t).key))])
      else s
    case Fill(t) =>
      if ThreadOf(s, t).Read? then
        s.(cache := s.cache[ThreadOf(s, t).key := ThreadOf(s, t).offset], threads := s.threads[t := Idle])
      else s
    case CommitCache(t, k, o) =>
      if ThreadOf(s, t).Idle? then
        s.(cache := s.cache[k := o], threads := s.threads[t := Cached(k, o)],
        committed := s.committed[k := CommittedTo(s, k) + {o}])
      else s
    case CommitStore(t) =>
      if ThreadOf(s, t).Cached? then
        s.(stored := s.stored[ThreadOf(s, t).key := ThreadOf(s, t).offset], threads := s.threads[t := Idle])
      else s
  }

  function Exec(schedule: seq<Step>): State {
    if schedule == [] then Initial
    else Apply(Exec(schedule[..|schedule| - 1]), schedule[|schedule| - 1])
  }

  datatype Answer = NoAnswer | Start(key: Key, offset: Int64)

  /** The start offset that a step hands to its caller: a hit's at the lookup, a miss's at the fill. */
  function AnswerOf(s: State, step: Step): Answer {
    match step
    case Lookup(t, k) => if ThreadOf(s, t).Idle? && k in s.cache then Start(k, s.cache[k]) else NoAnswer
    case Fill(t) => if ThreadOf(s, t).Read? then Start(ThreadOf(s, t).key, ThreadOf(s, t).offset) else NoAnswer
    case _ => NoAnswer
  }

  predicate Legitimate(s: State, k: Key, offset: Int64) {
    offset == 0 || offset in CommittedTo(s, k)
  }

  ghost predicate Inv(s: State) {
    && (forall k :: k in s.cache ==> Legitimate(s, k, s.cache[k]))
    && (forall k :: k in s.stored ==> Legitimate(s, k, s.stored[k]))
    && (forall t :: t in s.threads && (s.threads[t].Read? || s.threads[t].Cached?) ==>
          Legitimate(s, s.threads[t].key, s.threads[t].offset))
  }

  lemma StepInv(s: State, step: Step)
    requires Inv(s)
    ensures Inv(Apply(s, step))
    ensures forall k :: CommittedTo(s, k) <= CommittedTo(Apply(s, step), k)
  {
    var s' := Apply(s, step);
    forall k, o | Legitimate(s, k, o)
      ensures Legitimate(s', k, o)
    {
    }
    if step.ReadStore? && ThreadOf(s, step.t).Missed? {
      assert Legitimate(s, ThreadOf(s, step.t).key, StoredOffset(s, ThreadOf(s, step.t).key));
    }
  }

  lemma {:induction false} ExecInv(schedule: seq<Step>)
    ensures Inv(Exec(schedule))
  {
    if schedule != [] {
      ExecInv(schedule[..|schedule| - 1]);
      StepInv(Exec(schedule[..|schedule| - 1]), schedule[|schedule| - 1]);
    }
  }

  /** Safety under every schedule: a consumer starts at 0 or at an offset that some commit for its key
      has passed, so never beyond the greatest of them. */
  lemma StartsAreCommitted(schedule: seq<Step>, step: Step, greatest: nat)
    requires AnswerOf(Exec(schedule), step).Start?
    ensures var Start(k, offset) := AnswerOf(Exec(schedule), step);
            && Legitimate(Exec(schedule), k, offset)
            && ((forall o :: o in CommittedTo(Exec(schedule), k) ==> o <= greatest) ==> offset <= greatest)
  {
    ExecInv(schedule);
  }

  /** What the schedules do not give: a fill that read the store before a commit finished puts the old
      offset back into the cache, and later lookups get it although the store has the new one. */
  lemma StaleFill(k: Key, offset: Int64)
    requires offset != 0
    ensures var schedule := [Lookup(0, k), ReadStore(0), CommitCache(1, k, offset), CommitStore(1), Fill(0)];
            && StoredOffset(Exec(schedule), k) == offset
            && AnswerOf(Exec(schedule), Lookup(2, k)) == Start(k, 0)
  {
    hide Exec;
    var a, b, c, d, e := Lookup(0, k), ReadStore(0), CommitCache(1, k, offset), CommitStore(1), Fill(0);
    ExecFive(a, b, c, d, e);
    var missed := Initial.(threads := map[0 := Missed(k)]);
    assert Apply(Initial, a) == missed;
    var read := Initial.(threads := map[0 := Read(k, 0)]);
    assert Apply(missed, b) == read;
    var cached := State(map[k := offset], map[], map[0 := Read(k, 0), 1 := Cached(k, offset)], map[k := {offset}]);
    assert CommittedTo(read, k) + {offset} == {offset};
    assert Apply(read, c) == cached;
  }

  lemma ExecFive(a: Step, b: Step, c: Step, d: Step, e: Step)
    ensures Exec([a, b, c, d, e]) == Apply(Apply(Apply(Apply(Apply(Initial, a), b), c), d), e)
  {
    hide Apply, Exec;
    ExecNothing();
    ExecSnoc([], a);
    ExecSnoc([a], b);
    ExecSnoc([a, b], c);
    ExecSnoc([a, b, c], d);
    ExecSnoc([a, b, c, d], e);
    assert [] + [a] == [a] && [a] + [b] == [a, b] && [a, b] + [c] == [a, b, c];
    assert [a, b, c] + [d] == [a, b, c, d] && [a, b, c, d] + [e] == [a, b, c, d, e];
  }

  /** Nor is it only fills: of two commits that overlap, one can write the cache last and the other the
      store, and then the two differ for good although nobody is under way any more. */
  lemma CrossedCommits(k: Key, first: Int64, second: Int64)
    requires first != second
    ensures var s := Exec([CommitCache(0, k, first), CommitCache(1, k, second), CommitStore(1), CommitStore(0)]);
            && (forall t :: ThreadOf(s, t).Idle?)
            && k in s.cache && s.cache[k] == second && StoredOffset(s, k) == first
  {
    hide Exec;
    var a, b, c, d := CommitCache(0, k, first), CommitCache(1, k, second), CommitStore(1), CommitStore(0);
    ExecFour(a, b, c, d);
    var one := State(map[k := first], map[], map[0 := Cached(k, first)], map[k := {first}]);
    assert CommittedTo(Initial, k) + {first} == {first};
    assert Apply(Initial, a) == one;
    var two := State(map[k := second], map[], map[0 := Cached(k, first), 1 := Cached(k, second)],
                     map[k := {first, second}]);
    assert CommittedTo(one, k) + {second} == {first, second};
    assert Apply(one, b) == two;
    var three := two.(stored := map[k := second], threads := map[0 := Cached(k, first), 1 := Idle]);
    assert Apply(two, c) == three;
  }

  lemma ExecFour(a: Step, b: Step, c: Step, d: Step)
    ensures Exec([a, b, c, d]) == Apply(Apply(Apply(Apply(Initial, a), b), c), d)
  {
    hide Apply, Exec;
    ExecNothing();
    ExecSnoc([], a);
    ExecSnoc([a], b);
    ExecSnoc([a, b], c);
    ExecSnoc([a, b, c], d);
    assert [] + [a] == [a] && [a] + [b] == [a, b] && [a, b] + [c] == [a, b, c] && [a, b, c] + [d] == [a, b, c, d];
  }

  // ---------- exactly when cache and store agree ----------

  predicate WritesCache(s: State, step: Step, k: Key) {
    match step
    case Fill(t) => ThreadOf(s, t).Read? && ThreadOf(s, t).key == k
    case CommitCache(t, j, _) => ThreadOf(s, t).Idle? && j == k
    case _ => false
  }

  predicate WritesStore(s: State, step: Step, k: Key) {
    step.CommitStore? && ThreadOf(s, step.t).Cached? && ThreadOf(s, step.t).key == k
  }

  datatype LastStore = NoStore | StoredAs(offset: Int64)

  /** What commits have stored for a key last, not counting the first `x` steps. */
  function StoredSince(schedule: seq<Step>, x: nat, k: Key): LastStore {
    if |schedule| <= x then NoStore
    else
      var n := |schedule| - 1;
      var s := Exec(schedule[..n]);
      if WritesStore(s, schedule[n], k) then StoredAs(ThreadOf(s, schedule[n].t).offset)
      else StoredSince(schedule[..n], x, k)
  }

  lemma StepStores(s: State, step: Step, k: Key)
    ensures StoredOffset(Apply(s, step), k) ==
            if WritesStore(s, step, k) then ThreadOf(s, step.t).offset else StoredOffset(s, k)
  {
  }

  lemma {:induction false} StoredSinceIs(schedule: seq<Step>, x: nat, k: Key)
    requires x <= |schedule|
    ensures StoredOffset(Exec(schedule), k) ==
            match StoredSince(schedule, x, k)
            case NoStore => StoredOffset(Exec(schedule[..x]), k)
            case StoredAs(offset) => offset
    decreases |schedule|
  {
    hide Apply, StoredOffset, WritesStore;
    if x == |schedule| {
      assert schedule[..x] == schedule;
    } else {
      var n := |schedule| - 1;
      StoredSinceIs(schedule[..n], x, k);
      assert schedule[..n][..x] == schedule[..x];
      StepStores(Exec(schedule[..n]), schedule[n], k);
    }
  }

  /** How many steps had been taken when the goroutine had last read the store. */
  function ReadAt(schedule: seq<Step>, t: nat): nat {
    if schedule == [] then 0
    else
      var n := |schedule| - 1;
      if schedule[n] == ReadStore(t) && ThreadOf(Exec(schedule[..n]), t).Missed? then |schedule|
      else ReadAt(schedule[..n], t)
  }

  /** The call that wrote a cache entry last: a commit that has not stored its offset yet, or a call whose
      own access to the store, reading or writing, was the `x`-th step. */
  datatype Source = NoEntry | Storing(t: nat, offset: Int64) | Accessed(x: nat, offset: Int64)

  function SourceOf(schedule: seq<Step>, k: Key): Source {
    if schedule == [] then NoEntry
    else
      var n := |schedule| - 1;
      var s, step := Exec(schedule[..n]), schedule[n];
      var before := SourceOf(schedule[..n], k);
      if WritesCache(s, step, k) then
        if step.Fill? then Accessed(ReadAt(schedule[..n], step.t), ThreadOf(s, step.t).offset)
        else Storing(step.t, step.offset)
      else if before.Storing? && step == CommitStore(before.t) then Accessed(|schedule|, before.offset)
      else before
  }

  predicate ReaderOk(schedule: seq<Step>, t: nat, k: Key) {
    ThreadOf(Exec(schedule), t).Read? && ThreadOf(Exec(schedule), t).key == k ==>
      && ReadAt(schedule, t) <= |schedule|
      && StoredOffset(Exec(schedule[..ReadAt(schedule, t)]), k) == ThreadOf(Exec(schedule), t).offset
  }

  /** What a goroutine has read is what was stored then. */
  lemma {:induction false} ReadersOk(schedule: seq<Step>, t: nat, k: Key)
    ensures ReaderOk(schedule, t, k)
    decreases |schedule|
  {
    if schedule != [] {
      var n := |schedule| - 1;
      ReadersOk(schedule[..n], t, k);
      var m := ReadAt(schedule[..n], t);
      assert m <= n ==> schedule[..n][..m] == schedule[..m];
      assert schedule[..|schedule|] == schedule;
      StepStores(Exec(schedule[..n]), schedule[n], k);
    }
  }

  predicate SourceOk(schedule: seq<Step>, k: Key) {
    var s := Exec(schedule);
    match SourceOf(schedule, k)
    case NoEntry => k !in s.cache
    case Storing(t, offset) => k in s.cache && s.cache[k] == offset && ThreadOf(s, t) == Cached(k, offset)
    case Accessed(x, offset) =>
      k in s.cache && s.cache[k] == offset && x <= |schedule| && StoredOffset(Exec(schedule[..x]), k) == offset
  }

  lemma {:induction false} SourcesOk(schedule: seq<Step>, k: Key)
    ensures SourceOk(schedule, k)
    decreases |schedule|
  {
    if schedule != [] {
      var n := |schedule| - 1;
      SourcesOk(schedule[..n], k);
      SourceStep(schedule, k);
    }
  }

  lemma SourceStep(schedule: seq<Step>, k: Key)
    requires schedule != [] && SourceOk(schedule[..|schedule| - 1], k)
    ensures SourceOk(schedule, k)
  {
    hide ReadAt;
    var n := |schedule| - 1;
    var init, step := schedule[..n], schedule[n];
    var s, before := Exec(init), SourceOf(init, k);
    assert schedule[..|schedule|] == schedule;
    if step.Fill? {
      ReadersOk(init, step.t, k);
      var m := ReadAt(init, step.t);
      assert m <= n ==> init[..m] == schedule[..m];
    }
    if before.Accessed? {
      assert init[..before.x] == schedule[..before.x];
    }
    StepStores(s, step, k);
  }

  predicate NothingElseStored(since: LastStore, offset: Int64) {
    since == NoStore || since == StoredAs(offset)
  }

  /** For every schedule after which nobody is under way, a cached offset is the stored one exactly when,
      after the call that wrote the cache entry last had accessed the store, no commit stored another
      offset for the key. */
  lemma CacheAgreesIff(schedule: seq<Step>, k: Key)
    requires forall t :: ThreadOf(Exec(schedule), t).Idle?
    requires k in Exec(schedule).cache
    ensures SourceOf(schedule, k).Accessed?
    ensures var Accessed(x, offset) := SourceOf(schedule, k);
            Exec(schedule).cache[k] == StoredOffset(Exec(schedule), k)
            <==> NothingElseStored(StoredSince(schedule, x, k), offset)
  {
    hide Exec, StoredSince, SourceOf;
    SourcesOk(schedule, k);
    StoredSinceIs(schedule, SourceOf(schedule, k).x, k);
  }

  /** For every schedule, a fill leaves the stored offset in the cache exactly when no commit has stored
      another one since the fill's own read. */
  lemma FillAgreesIff(schedule: seq<Step>, t: nat, k: Key)
    requires ThreadOf(Exec(schedule), t).Read? && ThreadOf(Exec(schedule), t).key == k
    ensures var s := Exec(schedule + [Fill(t)]);
            k in s.cache && (s.cache[k] == StoredOffset(s, k)
                             <==> NothingElseStored(StoredSince(schedule, ReadAt(schedule, t), k),
                                                    ThreadOf(Exec(schedule), t).offset))
  {
    hide Exec, StoredSince, ReadAt;
    ReadersOk(schedule, t, k);
    ExecSnoc(schedule, Fill(t));
    StoredSinceIs(schedule, ReadAt(schedule, t), k);
  }

  // ---------- calls that do not overlap ----------

  datatype Call =
    | GetCall(t: nat, key: Key)
    | CommitCall(t: nat, key: Key, offset: Int64)

  /** The steps of a call, run without interruption. */
  function StepsOf(c: Call): seq<Step> {
    match c
    case GetCall(t, k) => [Lookup(t, k), ReadStore(t), Fill(t)]
    case CommitCall(t, k, o) => [CommitCache(t, k, o), CommitStore(t)]
  }

  function RunCall(s: State, c: Call): State {
    match c
    case GetCall(t, k) => Apply(Apply(Apply(s, Lookup(t, k)), ReadStore(t)), Fill(t))
    case CommitCall(t, k, o) => Apply(Apply(s, CommitCache(t, k, o)), CommitStore(t))
  }

  /** The schedule of calls that run one after the other. */
  function InSequence(calls: seq<Call>): seq<Step> {
    if calls == [] then [] else InSequence(calls[..|calls| - 1]) + StepsOf(calls[|calls| - 1])
  }

  function RunCalls(calls: seq<Call>): State {
    if calls == [] then Initial
    else RunCall(RunCalls(calls[..|calls| - 1]), calls[|calls| - 1])
  }

  lemma ExecSnoc(schedule: seq<Step>, step: Step)
    ensures Exec(schedule + [step]) == Apply(Exec(schedule), step)
  {
    assert (schedule + [step])[..|schedule|] == schedule;
  }

  lemma ExecTwo(schedule: seq<Step>, a: Step, b: Step)
    ensures Exec(schedule + [a, b]) == Apply(Apply(Exec(schedule), a), b)
  {
    hide Exec, Apply;
    ExecSnoc(schedule, a);
    ExecSnoc(schedule + [a], b);
    assert schedule + [a, b] == schedule + [a] + [b];
  }

  lemma ExecThree(schedule: seq<Step>, a: Step, b: Step, c: Step)
    ensures Exec(schedule + [a, b, c]) == Apply(Apply(Apply(Exec(schedule), a), b), c)
  {
    hide Exec, Apply;
    ExecTwo(schedule, a, b);
    ExecSnoc(schedule + [a, b], c);
    assert schedule + [a, b, c] == schedule + [a, b] + [c];
  }

  lemma {:induction false} RunCallsIsExec(calls: seq<Call>)
    ensures Exec(InSequence(calls)) == RunCalls(calls)
  {
    hide Exec, Apply;
    if calls == [] {
      ExecNothing();
    } else {
      var init := calls[..|calls| - 1];
      RunCallsIsExec(init);
      match calls[|calls| - 1]
      case GetCall(t, k) => ExecThree(InSequence(init), Lookup(t, k), ReadStore(t), Fill(t));
      case CommitCall(t, k, o) => ExecTwo(InSequence(init), CommitCache(t, k, o), CommitStore(t));
    }
  }

  lemma ExecNothing()
    ensures Exec([]) == Initial
  {
  }

  /** The offset most recently committed for a key, 0 before the first commit. */
  function LastCommitted(calls: seq<Call>, k: Key): Int64 {
    if calls == [] then 0
    else
      var c := calls[|calls| - 1];
      if c.CommitCall? && c.key == k then c.offset else LastCommitted(calls[..|calls| - 1], k)
  }

  /** The start offset that an uninterrupted get call returns. */
  function GetAnswer(s: State, t: nat, k: Key): Answer {
    var hit := AnswerOf(s, Lookup(t, k));
    if hit.Start? then hit else AnswerOf(Apply(Apply(s, Lookup(t, k)), ReadStore(t)), Fill(t))
  }

  ghost predicate Settled(s: State, calls: seq<Call>) {
    && (forall t :: t in s.threads ==> s.threads[t].Idle?)
    && (forall k :: k in s.cache ==> s.cache[k] == LastCommitted(calls, k))
    && (forall k :: StoredOffset(s, k) == LastCommitted(calls, k))
  }

  lemma {:induction false} CallsSettle(calls: seq<Call>)
    ensures Settled(RunCalls(calls), calls)
  {
    if calls != [] {
      var init, c := calls[..|calls| - 1], calls[|calls| - 1];
      CallsSettle(init);
      match c
      case GetCall(t, k) => GetSettles(RunCalls(init), calls, t, k);
      case CommitCall(t, k, o) => CommitSettles(RunCalls(init), calls, t, k, o);
    }
  }

  lemma GetSettles(s: State, calls: seq<Call>, t: nat, k: Key)
    requires calls != [] && calls[|calls| - 1] == GetCall(t, k) && Settled(s, calls[..|calls| - 1])
    ensures Settled(RunCall(s, GetCall(t, k)), calls)
  {
    assert StoredOffset(s, k) == LastCommitted(calls[..|calls| - 1], k);
  }

  lemma CommitSettles(s: State, calls: seq<Call>, t: nat, k: Key, o: Int64)
    requires calls != [] && calls[|calls| - 1] == CommitCall(t, k, o) && Settled(s, calls[..|calls| - 1])
    ensures Settled(RunCall(s, CommitCall(t, k, o)), calls)
  {
    var s' := RunCall(s, CommitCall(t, k, o));
    forall j
      ensures StoredOffset(s', j) == LastCommitted(calls, j)
    {
      assert StoredOffset(s, j) == LastCommitted(calls[..|calls| - 1], j);
    }
  }

  /** When calls do not overlap, a consumer starts at exactly the offset last committed for its key. */
  lemma SequentialIsExact(calls: seq<Call>, t: nat, k: Key)
    ensures GetAnswer(Exec(InSequence(calls)), t, k) == Start(k, LastCommitted(calls, k))
  {
    RunCallsIsExec(calls);
    CallsSettle(calls);
    assert StoredOffset(RunCalls(calls), k) == LastCommitted(calls, k);
  }
}
