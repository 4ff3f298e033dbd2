/** Writers of one document that overlap, seen through one indexed field.  A writer reads the document, stores
    the new one, takes the old value out of the index and puts the new one in: four steps, each of which is
    atomic, and between which other writers may take theirs.  A schedule is any sequence of such steps. */
module DocOverlap {
  import opened ByteStrings
  import opened Documents

  /** The value of the field: a document may lack it, and there may be no document. */
  datatype Held = Nothing | Holds(v: Value)

  datatype Writer =
    | Idle
    | Began(before: Held, after: Held)     // has read what is there, or inserts
    | Wrote(before: Held, after: Held)     // has stored the document
    | Dropped(after: Held)              // has taken the old value out of the index

  /** `listed` says how often the index lists the document under a value. */
  datatype Shared = Shared(stored: Held, listed: map<Value, nat>, writers: map<nat, Writer>)

  const Empty: Shared := Shared(Nothing, map[], map[])

  datatype WriteStep =
    | BeginInsert(t: nat, value: Held)    // Insert, which reads nothing
    | BeginUpdate(t: nat, value: Held)    // Update, or Delete with nothing for a value: Get
    | StoreIt(t: nat)                     // Set or Delete on the store
    | Unlist(t: nat)                      // removeIndexes, under the lock
    | Enlist(t: nat)                      // updateIndexes, under the lock

  function WriterOf(s: Shared, t: nat): Writer {
    if t in s.writers then s.writers[t] else Idle
  }

  function ListedUnder(s: Shared, v: Value): nat {
    if v in s.listed then s.listed[v] else 0
  }

  function Next(s: Shared, step: WriteStep): Shared {
    match step
    case BeginInsert(t, value) =>
      if WriterOf(s, t).Idle? then s.(writers := s.writers[t := Began(Nothing, value)]) else s
    case BeginUpdate(t, value) =>
      if WriterOf(s, t).Idle? then s.(writers := s.writers[t := Began(s.stored, value)]) else s
    case StoreIt(t) =>
      if !WriterOf(s, t).Began? then s
      else
        var w := WriterOf(s, t);
        s.(stored := w.after, writers := s.writers[t := Wrote(w.before, w.after)])
    case Unlist(t) =>
      if !WriterOf(s, t).Wrote? then s
      else
        var w := WriterOf(s, t);
        s.(listed := if w.before.Holds? then s.listed[w.before.v := 0] else s.listed,
        writers := s.writers[t := Dropped(w.after)])
    case Enlist(t) =>
      if !WriterOf(s, t).Dropped? then s
      else
        var w := WriterOf(s, t);
        s.(listed := if w.after.Holds? then s.listed[w.after.v := ListedUnder(s, w.after.v) + 1] else s.listed,
        writers := s.writers[t := Idle])
  }

  function Exec(steps: seq<WriteStep>): Shared {
    if steps == [] then Empty else Next(Exec(steps[..|steps| - 1]), steps[|steps| - 1])
  }

  /** The document is listed once under its value, and nowhere else. */
  ghost predicate Agrees(s: Shared) {
    forall v :: ListedUnder(s, v) == if s.stored == Holds(v) then 1 else 0
  }

  ghost predicate AllIdle(s: Shared) {
    forall t :: WriterOf(s, t).Idle?
  }

  lemma ExecSnoc(steps: seq<WriteStep>, step: WriteStep)
    ensures Exec(steps + [step]) == Next(Exec(steps), step)
  {
    assert (steps + [step])[..|steps|] == steps;
  }

  // ---------- exactly when store and index agree ----------

  /** What was stored last. */
  function LastStored(steps: seq<WriteStep>): Held {
    if steps == [] then Nothing
    else
      var n := |steps| - 1;
      var s := Exec(steps[..n]);
      if steps[n].StoreIt? && WriterOf(s, steps[n].t).Began? then WriterOf(s, steps[n].t).after
      else LastStored(steps[..n])
  }

  /** How often the document was put into the index under a value since it was last taken out there. */
  function ListingsSince(steps: seq<WriteStep>, v: Value): nat {
    if steps == [] then 0
    else
      var n := |steps| - 1;
      var w, earlier := WriterOf(Exec(steps[..n]), steps[n].t), ListingsSince(steps[..n], v);
      if steps[n].Unlist? && w.Wrote? && w.before == Holds(v) then 0
      else if steps[n].Enlist? && w.Dropped? && w.after == Holds(v) then earlier + 1
      else earlier
  }

  lemma {:induction false} ListedIs(steps: seq<WriteStep>, v: Value)
    ensures ListedUnder(Exec(steps), v) == ListingsSince(steps, v)
    ensures Exec(steps).stored == LastStored(steps)
    decreases |steps|
  {
    if steps != [] {
      ListedIs(steps[..|steps| - 1], v);
    }
  }

  /** For every schedule, index and document agree exactly when the document was put into the index once
      under the value stored last, and under no other value, since it was last taken out there: the order
      of the index steps decides, whatever the order in which the documents were stored. */
  lemma OverlapAgreesIff(steps: seq<WriteStep>)
    ensures Agrees(Exec(steps)) <==>
            forall v :: ListingsSince(steps, v) == if LastStored(steps) == Holds(v) then 1 else 0
  {
    hide Exec, ListingsSince, LastStored;
    forall v
      ensures ListedUnder(Exec(steps), v) == ListingsSince(steps, v) && Exec(steps).stored == LastStored(steps)
    {
      ListedIs(steps, v);
    }
    ListedIs(steps, Value.Null);
  }

  lemma ExecSix(steps: seq<WriteStep>, a: WriteStep, b: WriteStep, c: WriteStep, d: WriteStep, e: WriteStep,
                f: WriteStep)
    ensures Exec(steps + [a, b, c, d, e, f]) == Next(Next(Next(Next(Next(Next(Exec(steps), a), b), c), d), e), f)
  {
    hide Exec, Next;
    ExecSnoc(steps, a);
    ExecSnoc(steps + [a], b);
    ExecSnoc(steps + [a] + [b], c);
    ExecSnoc(steps + [a] + [b] + [c], d);
    ExecSnoc(steps + [a] + [b] + [c] + [d], e);
    ExecSnoc(steps + [a] + [b] + [c] + [d] + [e], f);
    assert steps + [a, b, c, d, e, f] == steps + [a] + [b] + [c] + [d] + [e] + [f];
  }

  /** Two updates that both read the document before either stores it, to values of their own, leave it in
      the index under both values, although nobody is under way any more. */
  lemma OverlappingUpdatesDisagree(steps: seq<WriteStep>, t: nat, u: nat, x: Value, y: Value)
    requires t != u && AllIdle(Exec(steps)) && Agrees(Exec(steps))
    requires x != y && Exec(steps).stored !in {Holds(x), Holds(y)}
    ensures var s := Exec(steps + [BeginUpdate(t, Holds(x)), BeginUpdate(u, Holds(y))]
                          + [StoreIt(t), StoreIt(u), Unlist(t), Enlist(t), Unlist(u), Enlist(u)]);
            AllIdle(s) && s.stored == Holds(y) && ListedUnder(s, x) == 1 && ListedUnder(s, y) == 1 && !Agrees(s)
  {
    hide Exec, AllIdle, Agrees;
    var begun := steps + [BeginUpdate(t, Holds(x)), BeginUpdate(u, Holds(y))];
    ExecSnoc(steps, BeginUpdate(t, Holds(x)));
    ExecSnoc(steps + [BeginUpdate(t, Holds(x))], BeginUpdate(u, Holds(y)));
    assert begun == steps + [BeginUpdate(t, Holds(x))] + [BeginUpdate(u, Holds(y))];
    ExecSix(begun, StoreIt(t), StoreIt(u), Unlist(t), Enlist(t), Unlist(u), Enlist(u));
    hide Next;
    BothStored(Exec(steps), t, u, x, y);
    BothListed(Exec(steps), t, u, x, y);
  }

  /** The state in which both updates have read and stored the document. */
  function AfterStores(s: Shared, t: nat, u: nat, x: Value, y: Value): Shared {
    s.(stored := Holds(y), writers := s.writers[t := Wrote(s.stored, Holds(x))][u := Wrote(s.stored, Holds(y))])
  }

  lemma BothStored(s: Shared, t: nat, u: nat, x: Value, y: Value)
    requires t != u && AllIdle(s)
    ensures Next(Next(Next(Next(s, BeginUpdate(t, Holds(x))), BeginUpdate(u, Holds(y))), StoreIt(t)), StoreIt(u))
         == AfterStores(s, t, u, x, y)
  {
    assert WriterOf(s, t).Idle? && WriterOf(s, u).Idle?;
    var begun := s.(writers := s.writers[t := Began(s.stored, Holds(x))][u := Began(s.stored, Holds(y))]);
    assert Next(Next(s, BeginUpdate(t, Holds(x))), BeginUpdate(u, Holds(y))) == begun;
    var w := s.writers[t := Wrote(s.stored, Holds(x))][u := Wrote(s.stored, Holds(y))];
    assert begun.writers[t := Wrote(s.stored, Holds(x))][u := Wrote(s.stored, Holds(y))] == w;
  }

  lemma BothListed(s: Shared, t: nat, u: nat, x: Value, y: Value)
    requires t != u && AllIdle(s) && Agrees(s) && x != y && s.stored !in {Holds(x), Holds(y)}
    ensures var after := Next(Next(Next(Next(AfterStores(s, t, u, x, y), Unlist(t)), Enlist(t)), Unlist(u)), Enlist(u));
            AllIdle(after) && after.stored == Holds(y) && ListedUnder(after, x) == 1 && ListedUnder(after, y) == 1
            && !Agrees(after)
  {
    var one := Next(Next(AfterStores(s, t, u, x, y), Unlist(t)), Enlist(t));
    assert ListedUnder(s, x) == 0 && ListedUnder(s, y) == 0;
    assert ListedUnder(one, x) == 1 && ListedUnder(one, y) == 0 && one.stored == Holds(y);
    assert one.writers == s.writers[t := Idle][u := Wrote(s.stored, Holds(y))];
    var after := Next(Next(one, Unlist(u)), Enlist(u));
    assert after.writers == s.writers[t := Idle][u := Idle];
    forall r
      ensures WriterOf(after, r).Idle?
    {
      assert WriterOf(s, r).Idle?;
    }
  }

  // ---------- writers one after the other ----------

  datatype Write = InsertIt(t: nat, value: Held) | UpdateIt(t: nat, value: Held)

  function StepsOf(w: Write): seq<WriteStep> {
    [if w.InsertIt? then BeginInsert(w.t, w.value) else BeginUpdate(w.t, w.value),
     StoreIt(w.t), Unlist(w.t), Enlist(w.t)]
  }

  function InSequence(writes: seq<Write>): seq<WriteStep> {
    if writes == [] then [] else InSequence(writes[..|writes| - 1]) + StepsOf(writes[|writes| - 1])
  }

  /** Nothing is inserted over a document that has a value. */
  predicate InsertsFresh(writes: seq<Write>) {
    writes == [] ||
    (var init := writes[..|writes| - 1];
     InsertsFresh(init) && (writes[|writes| - 1].InsertIt? ==> init == [] || init[|init| - 1].value == Nothing))
  }

  lemma ExecFour(steps: seq<WriteStep>, a: WriteStep, b: WriteStep, c: WriteStep, d: WriteStep)
    ensures Exec(steps + [a, b, c, d]) == Next(Next(Next(Next(Exec(steps), a), b), c), d)
  {
    hide Exec, Next;
    ExecSnoc(steps, a);
    ExecSnoc(steps + [a], b);
    ExecSnoc(steps + [a] + [b], c);
    ExecSnoc(steps + [a] + [b] + [c], d);
    assert steps + [a, b, c, d] == steps + [a] + [b] + [c] + [d];
  }

  /** Writers that do not overlap leave index and document in agreement. */
  lemma {:induction false} SequentialAgrees(writes: seq<Write>)
    requires InsertsFresh(writes)
    ensures var s := Exec(InSequence(writes));
            && AllIdle(s) && Agrees(s)
            && s.stored == (if writes == [] then Nothing else writes[|writes| - 1].value)
    decreases |writes|
  {
    hide Exec;
    if writes == [] {
      ExecNothing();
    } else {
      var init, w := writes[..|writes| - 1], writes[|writes| - 1];
      SequentialAgrees(init);
      var steps := StepsOf(w);
      ExecFour(InSequence(init), steps[0], steps[1], steps[2], steps[3]);
      OneWrite(Exec(InSequence(init)), w);
    }
  }

  lemma ExecNothing()
    ensures Exec([]) == Empty && AllIdle(Empty) && Agrees(Empty)
  {
  }

  lemma OneWrite(s: Shared, w: Write)
    requires AllIdle(s) && Agrees(s) && (w.InsertIt? ==> s.stored == Nothing)
    ensures var steps := StepsOf(w);
            var after := Next(Next(Next(Next(s, steps[0]), steps[1]), steps[2]), steps[3]);
            AllIdle(after) && Agrees(after) && after.stored == w.value
  {
    var steps := StepsOf(w);
    var after := Next(Next(Next(Next(s, steps[0]), steps[1]), steps[2]), steps[3]);
    forall t
      ensures WriterOf(after, t).Idle?
    {
      assert WriterOf(s, t).Idle?;
    }
    forall v
      ensures ListedUnder(after, v) == if after.stored == Holds(v) then 1 else 0
    {
      assert ListedUnder(s, v) == if s.stored == Holds(v) then 1 else 0;
    }
  }
}
