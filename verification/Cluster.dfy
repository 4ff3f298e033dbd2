/** The Node cluster client's batches: keys are grouped by the node that owns them, the groups are sent in
    parallel, and the answers are put together in whatever order they arrive.

    The partition hash is a parameter.  A request goes through the client's encoder, one read of the node and
    the node's decoder; nodes are reached whenever the client has a pool for them. */
module Cluster {
  import opened ByteStrings
  import opened NodeFrames
  import opened NodeRequests
  import opened Wire
  import WireCodec

  type NodeId = Bytes
  type KeyValues = map<Bytes, Bytes>
  type Stores = map<NodeId, KeyValues>

  /** Which partition a key is in, which node is primary for a partition and which are its replicas, to which
      nodes the client has a pool, and how much a node takes in one read. */
  datatype Topology = Topology(partitionOf: Bytes -> nat, primary: map<nat, NodeId>, replicas: map<nat, seq<NodeId>>,
                               pools: set<NodeId>, readSize: ReadSize)

  datatype Owner = Nobody | Node(id: NodeId)

  function OwnerOf(t: Topology, key: Bytes): Owner {
    var p := t.partitionOf(key);
    if p in t.primary then Node(t.primary[p]) else Nobody
  }

  function StoreOf(stores: Stores, n: NodeId): KeyValues {
    if n in stores then stores[n] else map[]
  }

  // ---------- a node ----------

  /** What a client that understands the answer gets for a key: an absent value and an empty one are null. */
  function Answer(store: KeyValues, key: Bytes): NodeValue {
    if key in store then OrNull(store[key]) else Null
  }

  /** What a node sends for a key: an absent value as an empty one. */
  function SentFor(store: KeyValues, key: Bytes): Bytes {
    if key in store then store[key] else []
  }

  lemma EmptyIsNull()
    ensures OrNull([]) == Null
  {
  }

  const INVALID_KEY: Bytes := Ascii("invalid key")

  /** An empty key makes the node refuse the whole batch. */
  method NodeMGet(store: KeyValues, keys: seq<Bytes>) returns (r: Response)
    ensures [] in keys ==> r == ErrorResponse(INVALID_KEY)
    ensures [] !in keys ==>
              r.MultiResponse? && |r.values| == |keys|
              && forall i :: 0 <= i < |keys| ==> r.values[i] == SentFor(store, keys[i])
    ensures [] !in keys ==>
              forall i :: 0 <= i < |keys| ==> r.values[i] == if keys[i] in store then store[keys[i]] else []
  {
    for i := 0 to |keys|
      invariant [] !in keys[..i]
    {
      if keys[i] == [] {
        return ErrorResponse(INVALID_KEY);
      }
    }
    assert keys[..|keys|] == keys;
    var values := [];
    for i := 0 to |keys|
      invariant |values| == i && forall k :: 0 <= k < i ==> values[k] == SentFor(store, keys[k])
    {
      if keys[i] in store {
        values := values + [store[keys[i]]];
      } else {
        values := values + [[]];
      }
    }
    r := MultiResponse(values);
  }

  datatype Entry = Entry(key: Bytes, value: Bytes)

  predicate HasEmptyKey(entries: seq<Entry>) {
    exists i :: 0 <= i < |entries| && entries[i].key == []
  }

  /** The entries set one after the other. */
  function SetAll(store: KeyValues, entries: seq<Entry>): KeyValues {
    if entries == [] then store
    else
      var last := entries[|entries| - 1];
      SetAll(store, entries[..|entries| - 1])[last.key := last.value]
  }

  /** The node first collects the pairs in a map, checks their keys, and then writes them as one batch. */
  method NodeMSet(store: KeyValues, entries: seq<Entry>) returns (after: KeyValues, ok: bool)
    ensures ok <==> !HasEmptyKey(entries)
    ensures after == if ok then SetAll(store, entries) else store
  {
    var pairs: KeyValues := map[];
    for i := 0 to |entries|
      invariant forall k :: k in pairs <==> exists j :: 0 <= j < i && entries[j].key == k
      invariant store + pairs == SetAll(store, entries[..i])
    {
      assert entries[..i + 1][..i] == entries[..i];
      pairs := pairs[entries[i].key := entries[i].value];
    }
    assert entries[..|entries|] == entries;
    if [] in pairs {
      return store, false;
    }
    return store + pairs, true;
  }

  function KeysIn(entries: seq<Entry>): (keys: seq<Bytes>)
    ensures |keys| == |entries|
  {
    seq(|entries|, i requires 0 <= i < |entries| => entries[i].key)
  }

  function ValuesIn(entries: seq<Entry>): (values: seq<Bytes>)
    ensures |values| == |entries|
  {
    seq(|entries|, i requires 0 <= i < |entries| => entries[i].value)
  }

  function MSetOf(group: seq<Entry>): (r: Request)
    ensures ClientRequest(r)
  {
    Request.MSet(KeysIn(group), ValuesIn(group))
  }

  function SetOf(e: Entry): (r: Request)
    ensures ClientRequest(r)
  {
    KeyValue(OP_SET, e.key, e.value)
  }

  function MGetOf(keys: seq<Bytes>): (r: Request)
    ensures ClientRequest(r)
  {
    MKeys(OP_MGET, keys)
  }

  /** The node takes a group of entries: no key is empty, and the request reaches it. */
  predicate Accepts(t: Topology, group: seq<Entry>) {
    !HasEmptyKey(group) && Carried(t.readSize, MSetOf(group))
  }

  /** A connection's mset: encoder, node's read and decoder, and the node's store. */
  method SendMSet(t: Topology, store: KeyValues, group: seq<Entry>) returns (after: KeyValues, ok: bool)
    ensures ok <==> Accepts(t, group)
    ensures after == if ok then SetAll(store, group) else store
  {
    hide Carried, ClientRequest, Encode, FirstRead, ParseRequest, HasEmptyKey, SetAll, Encodable;
    var keys := seq(|group|, i requires 0 <= i < |group| => group[i].key);
    var values := seq(|group|, i requires 0 <= i < |group| => group[i].value);
    var data := EncodeMSetRequest(keys, values);
    NeedsEncoding(t.readSize, MSetOf(group));
    if data.RangeError? {
      return store, false;
    }
    var got := WireCodec.DecodeRequest(FirstRead(t.readSize, data.data));
    CarriedIff(t.readSize, MSetOf(group));
    if !got.Ok? || !got.value.MSet? || |got.value.keys| != |got.value.values| {
      return store, false;
    }
    var request := got.value;
    var entries := seq(|request.keys|, i requires 0 <= i < |request.keys| => Entry(request.keys[i], request.values[i]));
    assert entries == group;
    after, ok := NodeMSet(store, entries);
  }

  lemma NeedsEncoding(size: ReadSize, r: Request)
    requires ClientRequest(r)
    ensures Carried(size, r) ==> Encodable(r)
  {
  }

  // ---------- batch read ----------

  /** The positions, in order, of the keys that a node owns. */
  function IndicesOf(t: Topology, keys: seq<Bytes>, n: NodeId): seq<nat> {
    if keys == [] then []
    else
      var last := |keys| - 1;
      IndicesOf(t, keys[..last], n) + (if OwnerOf(t, keys[last]) == Node(n) then [last] else [])
  }

  lemma {:induction false} IndicesAre(t: Topology, keys: seq<Bytes>, n: NodeId)
    ensures forall i :: i in IndicesOf(t, keys, n) <==> 0 <= i < |keys| && OwnerOf(t, keys[i]) == Node(n)
    ensures forall j :: 0 <= j < |IndicesOf(t, keys, n)| ==> 0 <= IndicesOf(t, keys, n)[j] < |keys|
    decreases |keys|
  {
    hide OwnerOf;
    if keys != [] {
      var last := |keys| - 1;
      IndicesAre(t, keys[..last], n);
      assert forall i :: 0 <= i < last ==> keys[..last][i] == keys[i];
      var init := IndicesOf(t, keys[..last], n);
      if OwnerOf(t, keys[last]) == Node(n) {
        assert IndicesOf(t, keys, n) == init + [last];
        assert forall i :: i in init + [last] <==> i in init || i == last;
      } else {
        assert IndicesOf(t, keys, n) == init;
      }
    }
  }

  lemma IndicesNone(t: Topology)
    ensures forall n :: IndicesOf(t, [], n) == []
  {
  }

  lemma IndicesNext(t: Topology, keys: seq<Bytes>, i: nat, n: NodeId)
    requires i < |keys|
    ensures IndicesOf(t, keys[..i + 1], n) ==
            IndicesOf(t, keys[..i], n) + (if OwnerOf(t, keys[i]) == Node(n) then [i] else [])
  {
    hide OwnerOf;
    assert keys[..i + 1][..i] == keys[..i];
  }

  method GroupIndices(t: Topology, keys: seq<Bytes>) returns (groups: map<NodeId, seq<nat>>)
    ensures forall n :: n in groups ==> groups[n] == IndicesOf(t, keys, n) && groups[n] != []
    ensures forall n :: n !in groups ==> IndicesOf(t, keys, n) == []
  {
    hide OwnerOf, IndicesOf;
    groups := map[];
    IndicesNone(t);
    assert keys[..0] == [];
    for i := 0 to |keys|
      invariant forall n :: n in groups ==> groups[n] == IndicesOf(t, keys[..i], n) && groups[n] != []
      invariant forall n :: n !in groups ==> IndicesOf(t, keys[..i], n) == []
    {
      forall n
        ensures IndicesOf(t, keys[..i + 1], n) ==
                IndicesOf(t, keys[..i], n) + (if OwnerOf(t, keys[i]) == Node(n) then [i] else [])
      {
        IndicesNext(t, keys, i, n);
      }
      var owner := OwnerOf(t, keys[i]);
      if owner == Nobody {
        continue;
      }
      var group := if owner.id in groups then groups[owner.id] else [];
      groups := groups[owner.id := group + [i]];
    }
    assert keys[..|keys|] == keys;
  }

  predicate Reached(t: Topology, key: Bytes) {
    var owner := OwnerOf(t, key);
    owner.Node? && owner.id in t.pools
  }

  /** What position i of a batch read should hold. */
  function Wanted(t: Topology, stores: Stores, key: Bytes): NodeValue {
    if Reached(t, key) then Answer(StoreOf(stores, OwnerOf(t, key).id), key) else Null
  }

  predicate Arrived(t: Topology, key: Bytes, pending: set<NodeId>) {
    var owner := OwnerOf(t, key);
    owner.Node? && owner.id !in pending
  }

  /** The results while the nodes in `pending` have not answered yet. */
  predicate PartlyFilled(t: Topology, stores: Stores, keys: seq<Bytes>, pending: set<NodeId>, results: seq<NodeValue>) {
    && |results| == |keys|
    && forall i :: 0 <= i < |keys| ==>
         results[i] == if Arrived(t, keys[i], pending) then Wanted(t, stores, keys[i]) else Null
  }

  /** The keys, in order, that a node owns. */
  function BatchOf(t: Topology, keys: seq<Bytes>, n: NodeId): seq<Bytes> {
    if keys == [] then []
    else
      var last := keys[|keys| - 1];
      BatchOf(t, keys[..|keys| - 1], n) + (if OwnerOf(t, last) == Node(n) then [last] else [])
  }

  /** The node is asked for the keys, and refuses: one is empty, or the request does not reach it. */
  predicate RefusesKeys(t: Topology, batch: seq<Bytes>) {
    batch != [] && ([] in batch || !Carried(t.readSize, MGetOf(batch)))
  }

  predicate RefusedBatch(t: Topology, keys: seq<Bytes>) {
    exists i :: 0 <= i < |keys| && Reached(t, keys[i]) && RefusesKeys(t, BatchOf(t, keys, OwnerOf(t, keys[i]).id))
  }

  /** The stored values fit the width of a value in a multi-value response. */
  predicate StoredFit(stores: Stores) {
    forall n, k :: n in stores && k in stores[n] ==> Short32(stores[n][k])
  }

  datatype BatchRead = Values(values: seq<NodeValue>) | Failed

  /** The node is asked, and its answer makes the whole read fail. */
  predicate FailsFor(t: Topology, keys: seq<Bytes>, multi: byte, n: NodeId) {
    var batch := BatchOf(t, keys, n);
    n in t.pools && batch != [] && (multi == STATUS_MULTI_VALUE ==> RefusesKeys(t, batch))
  }

  /** A batch read by a client that takes `multi` for the multi-value status, for every order in which the
      nodes answer.  If that is the status the nodes send, it puts at every position what the owner of that
      key answers, and null where no owner is known or connected, and it fails exactly when some node refuses
      what it is asked.  If not, it fails exactly when any node is asked at all. */
  method MGetAs(t: Topology, stores: Stores, keys: seq<Bytes>, multi: byte) returns (r: BatchRead)
    requires multi == STATUS_MULTI_VALUE ==> StoredFit(stores)
    ensures r.Failed? <==> if multi == STATUS_MULTI_VALUE then RefusedBatch(t, keys)
                           else exists i :: 0 <= i < |keys| && Reached(t, keys[i])
    ensures r.Values? ==> |r.values| == |keys|
                          && forall i :: 0 <= i < |keys| ==> r.values[i] == Wanted(t, stores, keys[i])
    ensures r.Values? ==> forall i :: 0 <= i < |keys| ==> ReadAtOwner(t, stores, keys[i], r.values[i])
  {
    hide ReadAtOwner;
    hide OwnerOf, Answer, IndicesOf, Wanted, PartlyFilled, RefusedBatch, FailsFor, StoredFit, Reached, BatchOf,
         RefusesKeys, Carried;
    var groups := GroupIndices(t, keys);
    var results := new NodeValue[|keys|](_ => Null);
    var pending := groups.Keys;
    var failed := false;
    NoneArrived(t, stores, keys, groups, results[..]);
    while pending != {}
      invariant pending <= groups.Keys
      invariant failed <==> exists n :: n in groups && n !in pending && FailsFor(t, keys, multi, n)
      invariant !failed ==> PartlyFilled(t, stores, keys, pending, results[..])
      decreases |pending|
    {
      var n :| n in pending;
      var indices := groups[n];
      if n !in t.pools {
        NotConnected(t, stores, keys, pending, n, results[..]);
        NotAsked(t, keys, multi, n);
        pending := pending - {n};
        continue;
      }
      InRange(t, keys, n);
      var batch := seq(|indices|, j requires 0 <= j < |indices| => keys[indices[j]]);
      BatchIsOf(t, keys, n);
      assert batch == BatchOf(t, keys, n);
      ValuesFit(stores, n);
      var outcome := AskMGet(t, StoreOf(stores, n), batch, multi);
      FailsExactly(t, keys, multi, n);
      if !outcome.ResolvedAll? {
        failed := true;
      } else {
        ghost var before := results[..];
        Place(results, indices, outcome.values, StoreOf(stores, n), keys);
        if !failed {
          NodeArrived(t, stores, keys, pending, n, before, results[..]);
        }
      }
      pending := pending - {n};
    }
    AllArrived(t, stores, keys, groups, multi, results[..], failed);
    r := if failed then Failed else Values(results[..]);
    forall i | 0 <= i < |keys|
      ensures ReadAtOwner(t, stores, keys[i], Wanted(t, stores, keys[i]))
    {
      WantedIs(t, stores, keys[i]);
    }
  }

  /** The value that the key's primary has for it; null if the primary is not known or not connected, or has no
      value or an empty one. */
  predicate ReadAtOwner(t: Topology, stores: Stores, key: Bytes, v: NodeValue) {
    var p := t.partitionOf(key);
    if p in t.primary && t.primary[p] in t.pools && t.primary[p] in stores && key in stores[t.primary[p]]
       && stores[t.primary[p]][key] != []
    then v == Data(stores[t.primary[p]][key])
    else v == Null
  }

  lemma WantedIs(t: Topology, stores: Stores, key: Bytes)
    ensures ReadAtOwner(t, stores, key, Wanted(t, stores, key))
  {
  }

  /** The batch read as it is written.  The client expects another status than the nodes send, so that it
      gets through exactly when no node at all is asked, and then every position is null. */
  method MGet(t: Topology, stores: Stores, keys: seq<Bytes>) returns (r: BatchRead)
    ensures r.Failed? <==> exists i :: 0 <= i < |keys| && Reached(t, keys[i])
    ensures r.Values? ==> |r.values| == |keys| && forall i :: 0 <= i < |keys| ==> r.values[i] == Null
  {
    hide Reached;
    r := MGetAs(t, stores, keys, NODE_MULTI_VALUE);
    if r.Values? {
      forall i | 0 <= i < |keys|
        ensures r.values[i] == Null
      {
        assert r.values[i] == Wanted(t, stores, keys[i]);
      }
    }
  }

  /** A node without a pool is not asked. */
  lemma NotAsked(t: Topology, keys: seq<Bytes>, multi: byte, n: NodeId)
    requires n !in t.pools
    ensures !FailsFor(t, keys, multi, n)
  {
  }

  /** A connection's mget: encoder, the node's read and decoder, its answer, and what the client makes of
      that.  A panic of the node takes the connection down, which rejects the request as an error does. */
  method AskMGet(t: Topology, store: KeyValues, batch: seq<Bytes>, multi: byte) returns (outcome: Outcome)
    requires multi == STATUS_MULTI_VALUE ==> forall k :: k in store ==> Short32(store[k])
    ensures outcome.ResolvedAll? <==>
            multi == STATUS_MULTI_VALUE && [] !in batch && Carried(t.readSize, MGetOf(batch))
    ensures outcome.ResolvedAll? ==>
              |outcome.values| == |batch|
              && forall i :: 0 <= i < |batch| ==> outcome.values[i] == Answer(store, batch[i])
  {
    hide Carried, ClientRequest, Encode, FirstRead, ParseRequest, Encodable, InterpretAs, FrameOf;
    var data := EncodeBatchRequest(OP_MGET, batch);
    NeedsEncoding(t.readSize, MGetOf(batch));
    if data.RangeError? {
      return RejectedRange;
    }
    var got := WireCodec.DecodeRequest(FirstRead(t.readSize, data.data));
    CarriedIff(t.readSize, MGetOf(batch));
    var answer := ErrorResponse([]);
    if got.Ok? && got.value.MKeys? {
      answer := NodeMGet(store, got.value.keys);
    }
    outcome := InterpretAs(multi, FrameOf(answer));
    AnswerOutcome(t, store, batch, multi, answer);
  }

  lemma AnswerOutcome(t: Topology, store: KeyValues, batch: seq<Bytes>, multi: byte, answer: Response)
    requires multi == STATUS_MULTI_VALUE ==> forall k :: k in store ==> Short32(store[k])
    requires !Carried(t.readSize, MGetOf(batch)) || [] in batch ==> answer.ErrorResponse?
    requires Carried(t.readSize, MGetOf(batch)) && [] !in batch ==>
               answer.MultiResponse? && |answer.values| == |batch|
               && forall i :: 0 <= i < |batch| ==> answer.values[i] == SentFor(store, batch[i])
    ensures var outcome := InterpretAs(multi, FrameOf(answer));
            && (outcome.ResolvedAll? <==>
                multi == STATUS_MULTI_VALUE && [] !in batch && Carried(t.readSize, MGetOf(batch)))
            && (outcome.ResolvedAll? ==>
                  |outcome.values| == |batch|
                  && forall i :: 0 <= i < |batch| ==> outcome.values[i] == Answer(store, batch[i]))
  {
    hide OrNull, ResponsePayload, NodeMulti, Encode;
    if answer.MultiResponse? {
      var values := answer.values;
      hide InterpretAs, FrameOf;
      MultiOutcome(multi, values);
      EmptyIsNull();
      assert multi == STATUS_MULTI_VALUE ==> |values| < TWO_16 && AllShort32(values);
    }
  }

  lemma ValuesFit(stores: Stores, n: NodeId)
    ensures StoredFit(stores) ==> forall k :: k in StoreOf(stores, n) ==> Short32(StoreOf(stores, n)[k])
  {
  }

  lemma FailsExactly(t: Topology, keys: seq<Bytes>, multi: byte, n: NodeId)
    requires n in t.pools && BatchOf(t, keys, n) != []
    ensures FailsFor(t, keys, multi, n) <==>
            var batch := BatchOf(t, keys, n);
            !(multi == STATUS_MULTI_VALUE && [] !in batch && Carried(t.readSize, MGetOf(batch)))
  {
  }

  /** A node's keys are those at its positions. */
  lemma {:induction false} BatchIsOf(t: Topology, keys: seq<Bytes>, n: NodeId)
    ensures |BatchOf(t, keys, n)| == |IndicesOf(t, keys, n)|
    ensures forall j :: 0 <= j < |IndicesOf(t, keys, n)| ==>
              IndicesOf(t, keys, n)[j] < |keys| && BatchOf(t, keys, n)[j] == keys[IndicesOf(t, keys, n)[j]]
    decreases |keys|
  {
    hide OwnerOf;
    if keys != [] {
      BatchIsOf(t, keys[..|keys| - 1], n);
    }
  }

  /** Puts a node's answers at the positions of its keys. */
  method Place(results: array<NodeValue>, indices: seq<nat>, answers: seq<NodeValue>, ghost store: KeyValues,
               ghost keys: seq<Bytes>)
    requires results.Length == |keys| && |answers| == |indices|
    requires forall j :: 0 <= j < |indices| ==> indices[j] < |keys| && answers[j] == Answer(store, keys[indices[j]])
    modifies results
    ensures forall i :: 0 <= i < |keys| ==>
              results[i] == if i in indices then Answer(store, keys[i]) else old(results[i])
  {
    hide Answer;
    for j := 0 to |indices|
      invariant forall i :: 0 <= i < |keys| ==>
                  results[i] == if i in indices[..j] then Answer(store, keys[i]) else old(results[i])
    {
      results[indices[j]] := answers[j];
    }
    assert indices[..|indices|] == indices;
  }

  lemma InRange(t: Topology, keys: seq<Bytes>, n: NodeId)
    ensures forall j :: 0 <= j < |IndicesOf(t, keys, n)| ==> 0 <= IndicesOf(t, keys, n)[j] < |keys|
  {
    IndicesAre(t, keys, n);
  }

  lemma NoneArrived(t: Topology, stores: Stores, keys: seq<Bytes>, groups: map<NodeId, seq<nat>>,
                    results: seq<NodeValue>)
    requires forall n :: n !in groups ==> IndicesOf(t, keys, n) == []
    requires |results| == |keys| && forall i :: 0 <= i < |keys| ==> results[i] == Null
    ensures PartlyFilled(t, stores, keys, groups.Keys, results)
  {
    hide OwnerOf, IndicesOf, Wanted;
    forall i | 0 <= i < |keys|
      ensures !Arrived(t, keys[i], groups.Keys)
    {
      OwnerIsGrouped(t, keys, groups, i);
    }
  }

  lemma OwnerIsGrouped(t: Topology, keys: seq<Bytes>, groups: map<NodeId, seq<nat>>, i: nat)
    requires i < |keys| && forall n :: n !in groups ==> IndicesOf(t, keys, n) == []
    ensures OwnerOf(t, keys[i]).Node? ==> OwnerOf(t, keys[i]).id in groups
  {
    hide OwnerOf, IndicesOf;
    if OwnerOf(t, keys[i]).Node? {
      IndicesAre(t, keys, OwnerOf(t, keys[i]).id);
    }
  }

  lemma NotConnected(t: Topology, stores: Stores, keys: seq<Bytes>, pending: set<NodeId>, n: NodeId,
                     results: seq<NodeValue>)
    requires n in pending && n !in t.pools
    ensures PartlyFilled(t, stores, keys, pending, results) ==> PartlyFilled(t, stores, keys, pending - {n}, results)
  {
    hide OwnerOf, Answer;
  }

  lemma NodeArrived(t: Topology, stores: Stores, keys: seq<Bytes>, pending: set<NodeId>, n: NodeId,
                    before: seq<NodeValue>, after: seq<NodeValue>)
    requires PartlyFilled(t, stores, keys, pending, before) && n in pending && n in t.pools && |after| == |keys|
    requires forall i :: 0 <= i < |keys| ==>
               after[i] == if i in IndicesOf(t, keys, n) then Answer(StoreOf(stores, n), keys[i]) else before[i]
    ensures PartlyFilled(t, stores, keys, pending - {n}, after)
  {
    hide OwnerOf, Answer, IndicesOf;
    IndicesAre(t, keys, n);
  }

  lemma AllArrived(t: Topology, stores: Stores, keys: seq<Bytes>, groups: map<NodeId, seq<nat>>, multi: byte,
                   results: seq<NodeValue>, failed: bool)
    requires forall n :: n !in groups ==> IndicesOf(t, keys, n) == []
    requires failed <==> exists n :: n in groups && FailsFor(t, keys, multi, n)
    requires !failed ==> PartlyFilled(t, stores, keys, {}, results)
    ensures failed <==> if multi == STATUS_MULTI_VALUE then RefusedBatch(t, keys)
                        else exists i :: 0 <= i < |keys| && Reached(t, keys[i])
    ensures !failed ==> |results| == |keys| && forall i :: 0 <= i < |keys| ==> results[i] == Wanted(t, stores, keys[i])
  {
    hide OwnerOf, Answer, IndicesOf, BatchOf, RefusesKeys;
    forall i | 0 <= i < |keys| && Reached(t, keys[i])
      ensures OwnerOf(t, keys[i]).id in groups && BatchOf(t, keys, OwnerOf(t, keys[i]).id) != []
    {
      var n := OwnerOf(t, keys[i]).id;
      OwnerIsGrouped(t, keys, groups, i);
      IndicesAre(t, keys, n);
      assert i in IndicesOf(t, keys, n);
      BatchIsOf(t, keys, n);
    }
    if i :| 0 <= i < |keys| && Reached(t, keys[i])
            && (multi == STATUS_MULTI_VALUE ==> RefusesKeys(t, BatchOf(t, keys, OwnerOf(t, keys[i]).id))) {
      assert FailsFor(t, keys, multi, OwnerOf(t, keys[i]).id);
    }
    if failed {
      var n :| n in groups && FailsFor(t, keys, multi, n);
      BatchIsOf(t, keys, n);
      IndicesAre(t, keys, n);
      var j := IndicesOf(t, keys, n)[0];
      assert j in IndicesOf(t, keys, n) && Reached(t, keys[j]);
    }
  }

  // ---------- batch write ----------

  /** The entries, in order, whose key a node owns. */
  function EntriesOf(t: Topology, entries: seq<Entry>, n: NodeId): seq<Entry> {
    if entries == [] then []
    else
      var last := entries[|entries| - 1];
      EntriesOf(t, entries[..|entries| - 1], n) + (if OwnerOf(t, last.key) == Node(n) then [last] else [])
  }

  method GroupEntries(t: Topology, entries: seq<Entry>) returns (groups: map<NodeId, seq<Entry>>)
    ensures forall n :: n in groups ==> groups[n] == EntriesOf(t, entries, n) && groups[n] != []
    ensures forall n :: n !in groups ==> EntriesOf(t, entries, n) == []
  {
    hide OwnerOf;
    groups := map[];
    for i := 0 to |entries|
      invariant forall n :: n in groups ==> groups[n] == EntriesOf(t, entries[..i], n) && groups[n] != []
      invariant forall n :: n !in groups ==> EntriesOf(t, entries[..i], n) == []
    {
      assert entries[..i + 1][..i] == entries[..i];
      var owner := OwnerOf(t, entries[i].key);
      if owner == Nobody {
        continue;
      }
      var group := if owner.id in groups then groups[owner.id] else [];
      groups := groups[owner.id := group + [entries[i]]];
    }
    assert entries[..|entries|] == entries;
  }

  /** What a node holds once it has been sent its group. */
  function AfterGroup(t: Topology, store: KeyValues, entries: seq<Entry>, n: NodeId): KeyValues {
    var group := EntriesOf(t, entries, n);
    if n in t.pools && Accepts(t, group) then SetAll(store, group) else store
  }

  /** The store has the last value that the entries set the key to. */
  predicate HasLast(entries: seq<Entry>, k: Bytes, after: KeyValues) {
    && k in after
    && exists i :: 0 <= i < |entries| && entries[i].key == k && after[k] == entries[i].value
                   && forall j :: i < j < |entries| ==> entries[j].key != k
  }

  predicate Mentions(entries: seq<Entry>, k: Bytes) {
    exists i :: 0 <= i < |entries| && entries[i].key == k
  }

  /** What a node has for a key after a batch write: the last value in the batch, if the node is the key's primary,
      is connected and takes its group; otherwise what it had. */
  predicate WrittenAt(t: Topology, before: KeyValues, entries: seq<Entry>, n: NodeId, k: Bytes, after: KeyValues) {
    var p := t.partitionOf(k);
    if n in t.pools && Accepts(t, EntriesOf(t, entries, n)) && p in t.primary && t.primary[p] == n
       && Mentions(entries, k)
    then HasLast(entries, k, after)
    else (k in after <==> k in before) && (k in before ==> after[k] == before[k])
  }

  lemma LastNext(init: seq<Entry>, e: Entry, k: Bytes, after: KeyValues)
    ensures Mentions(init + [e], k) <==> Mentions(init, k) || e.key == k
    ensures e.key == k && k in after && after[k] == e.value ==> HasLast(init + [e], k, after)
    ensures e.key != k && HasLast(init, k, after) ==> HasLast(init + [e], k, after)
  {
    var entries := init + [e];
    assert forall i :: 0 <= i < |init| ==> entries[i] == init[i];
    assert entries[|init|] == e;
  }

  lemma {:induction false} LastOfGroup(t: Topology, store: KeyValues, entries: seq<Entry>, n: NodeId, k: Bytes)
    ensures var after := SetAll(store, EntriesOf(t, entries, n));
            if OwnerOf(t, k) == Node(n) && Mentions(entries, k) then HasLast(entries, k, after)
            else (k in after <==> k in store) && (k in store ==> after[k] == store[k])
    decreases |entries|
  {
    hide OwnerOf, SetAll, HasLast, Mentions;
    if entries == [] {
      NothingToSet(store);
      NothingMentioned(k);
    } else {
      var last := |entries| - 1;
      var init, e := entries[..last], entries[last];
      LastOfGroup(t, store, init, n, k);
      SetAllNext(store, EntriesOf(t, init, n), e);
      assert entries == init + [e];
      var before := SetAll(store, EntriesOf(t, init, n));
      if OwnerOf(t, e.key) == Node(n) {
        assert EntriesOf(t, entries, n) == EntriesOf(t, init, n) + [e];
      } else {
        assert EntriesOf(t, entries, n) == EntriesOf(t, init, n) + [];
        assert EntriesOf(t, init, n) + [] == EntriesOf(t, init, n);
      }
      LastNext(init, e, k, SetAll(store, EntriesOf(t, entries, n)));
      SameLast(init, k, before, SetAll(store, EntriesOf(t, entries, n)));
    }
  }

  lemma NothingMentioned(k: Bytes)
    ensures !Mentions([], k)
  {
  }

  lemma SameLast(entries: seq<Entry>, k: Bytes, a: KeyValues, b: KeyValues)
    ensures HasLast(entries, k, a) ==> k in a
    ensures HasLast(entries, k, a) && k in b && b[k] == a[k] ==> HasLast(entries, k, b)
  {
  }

  lemma AfterGroupIs(t: Topology, store: KeyValues, entries: seq<Entry>, n: NodeId, k: Bytes)
    ensures WrittenAt(t, store, entries, n, k, AfterGroup(t, store, entries, n))
  {
    hide Accepts, SetAll, EntriesOf, HasLast, Mentions;
    LastOfGroup(t, store, entries, n, k);
  }

  /** No node refuses its group. */
  ghost predicate AllAccept(t: Topology, entries: seq<Entry>) {
    forall n :: n in t.pools && EntriesOf(t, entries, n) != [] ==> Accepts(t, EntriesOf(t, entries, n))
  }

  /** A batch write, for every order in which the nodes take their groups: a connected node takes all of its
      group, or none of it if the group has an empty key or its request does not reach the node. */
  method MSet(t: Topology, stores: Stores, entries: seq<Entry>) returns (after: Stores, ok: bool)
    ensures forall n :: StoreOf(after, n) == AfterGroup(t, StoreOf(stores, n), entries, n)
    ensures ok <==> AllAccept(t, entries)
    ensures forall n, k :: WrittenAt(t, StoreOf(stores, n), entries, n, k, StoreOf(after, n))
  {
    hide WrittenAt;
    hide OwnerOf, SetAll, EntriesOf, Accepts;
    var groups := GroupEntries(t, entries);
    after, ok := stores, true;
    var pending := groups.Keys;
    forall n | n !in groups
      ensures AfterGroup(t, StoreOf(stores, n), entries, n) == StoreOf(stores, n) && EntriesOf(t, entries, n) == []
    {
      NothingToSet(StoreOf(stores, n));
    }
    while pending != {}
      invariant pending <= groups.Keys
      invariant forall n :: StoreOf(after, n) ==
                  if n in pending then StoreOf(stores, n) else AfterGroup(t, StoreOf(stores, n), entries, n)
      invariant ok <==> forall n :: n in t.pools && n in groups && n !in pending ==> Accepts(t, groups[n])
      decreases |pending|
    {
      var n :| n in pending;
      if n in t.pools {
        var store, done := SendMSet(t, StoreOf(after, n), groups[n]);
        ok := ok && done;
        after := after[n := store];
      }
      pending := pending - {n};
    }
    AllWritten(t, stores, entries, after);
  }

  lemma AllWritten(t: Topology, stores: Stores, entries: seq<Entry>, after: Stores)
    requires forall n :: StoreOf(after, n) == AfterGroup(t, StoreOf(stores, n), entries, n)
    ensures forall n, k :: WrittenAt(t, StoreOf(stores, n), entries, n, k, StoreOf(after, n))
  {
    hide WrittenAt, AfterGroup, StoreOf;
    forall n, k
      ensures WrittenAt(t, StoreOf(stores, n), entries, n, k, StoreOf(after, n))
    {
      AfterGroupIs(t, StoreOf(stores, n), entries, n, k);
    }
  }

  lemma NothingToSet(store: KeyValues)
    ensures SetAll(store, []) == store
  {
  }

  // ---------- entries one by one ----------

  datatype Connection = NoPartition | NoNode | To(id: NodeId)

  /** The first replica that the client has a pool for. */
  function FirstConnected(ids: seq<NodeId>, pools: set<NodeId>): Connection {
    if ids == [] then NoNode
    else if ids[0] in pools then To(ids[0])
    else FirstConnected(ids[1..], pools)
  }

  /** The node a single request for a key goes to: the primary, or else the first connected replica. */
  function ConnectionFor(t: Topology, key: Bytes): Connection {
    var p := t.partitionOf(key);
    if p !in t.primary then NoPartition
    else if t.primary[p] in t.pools then To(t.primary[p])
    else FirstConnected(if p in t.replicas then t.replicas[p] else [], t.pools)
  }

  datatype Sent = Sent(stores: Stores, ok: bool)

  /** A single request goes to the primary if the client has a pool for it, else to the first replica, in the order
      in which they are listed, that it has a pool for; it is an error if there is none, or if nobody knows the
      partition. */
  lemma ConnectionIs(t: Topology, key: Bytes)
    ensures var p, to := t.partitionOf(key), ConnectionFor(t, key);
            var replicas := if p in t.replicas then t.replicas[p] else [];
            if p !in t.primary then to == NoPartition
            else if t.primary[p] in t.pools then to == To(t.primary[p])
            else if exists i :: 0 <= i < |replicas| && replicas[i] in t.pools then
              exists i :: 0 <= i < |replicas| && replicas[i] in t.pools && to == To(replicas[i])
                          && forall j :: 0 <= j < i ==> replicas[j] !in t.pools
            else to == NoNode
  {
    var p := t.partitionOf(key);
    if p in t.primary && t.primary[p] !in t.pools {
      FirstIs(if p in t.replicas then t.replicas[p] else [], t.pools);
    }
  }

  lemma {:induction false} FirstIs(ids: seq<NodeId>, pools: set<NodeId>)
    ensures var to := FirstConnected(ids, pools);
            if exists i :: 0 <= i < |ids| && ids[i] in pools then
              exists i :: 0 <= i < |ids| && ids[i] in pools && to == To(ids[i])
                          && forall j :: 0 <= j < i ==> ids[j] !in pools
            else to == NoNode
    decreases |ids|
  {
    if ids != [] && ids[0] !in pools {
      FirstIs(ids[1..], pools);
      if i :| 0 <= i < |ids| && ids[i] in pools {
        assert ids[1..][i - 1] in pools;
        var k :| 0 <= k < |ids[1..]| && ids[1..][k] in pools && FirstConnected(ids, pools) == To(ids[1..][k])
                 && forall j :: 0 <= j < k ==> ids[1..][j] !in pools;
        assert ids[k + 1] == ids[1..][k];
        forall j | 0 <= j < k + 1
          ensures ids[j] !in pools
        {
          assert j > 0 ==> ids[j] == ids[1..][j - 1];
        }
      }
    }
  }

  /** The node takes an entry sent by itself: the key is not empty, and the request reaches the node. */
  predicate AcceptsOne(t: Topology, e: Entry) {
    e.key != [] && Carried(t.readSize, SetOf(e))
  }

  /** One entry sent by itself; without a connection, or if the node does not take it, it is an error and
      nothing is written. */
  function SetOne(t: Topology, stores: Stores, e: Entry): Sent {
    var to := ConnectionFor(t, e.key);
    if to.To? && AcceptsOne(t, e) then Sent(stores[to.id := StoreOf(stores, to.id)[e.key := e.value]], true)
    else Sent(stores, false)
  }

  /** A single write: a connection, the encoder, the node's read and decoder, and the node's store. */
  method Set(t: Topology, stores: Stores, e: Entry) returns (after: Stores, ok: bool)
    ensures Sent(after, ok) == SetOne(t, stores, e)
    ensures ok ==> ConnectionFor(t, e.key).To?
                   && var n := ConnectionFor(t, e.key).id;
                      n in after && e.key in after[n] && after[n][e.key] == e.value
                      && after == stores[n := after[n]]
                      && after[n] == (if n in stores then stores[n] else map[])[e.key := e.value]
    ensures !ok ==> after == stores
    ensures ok <==> ConnectionFor(t, e.key).To? && e.key != [] && Carried(t.readSize, SetOf(e))
  {
    hide Carried, Encode, FirstRead, ParseRequest, Encodable, ConnectionFor;
    var to := ConnectionFor(t, e.key);
    if !to.To? {
      return stores, false;
    }
    var data := EncodeSetRequest(e.key, e.value);
    NeedsEncoding(t.readSize, SetOf(e));
    if data.RangeError? {
      return stores, false;
    }
    var got := WireCodec.DecodeRequest(FirstRead(t.readSize, data.data));
    CarriedIff(t.readSize, SetOf(e));
    if !got.Ok? || !got.value.KeyValue? || got.value.name == [] {
      return stores, false;
    }
    after := stores[to.id := StoreOf(stores, to.id)[got.value.name := got.value.body]];
    ok := true;
  }

  /** The entries sent one after the other, whether or not earlier ones fail; `ok` if none does. */
  function SetEach(t: Topology, stores: Stores, entries: seq<Entry>): Sent {
    if entries == [] then Sent(stores, true)
    else
      var before := SetEach(t, stores, entries[..|entries| - 1]);
      var last := SetOne(t, before.stores, entries[|entries| - 1]);
      last.(ok := before.ok && last.ok)
  }

  // ---------- when the batch is the entries one by one ----------

  /** The entry's own primary is not connected, but a replica is. */
  predicate Detoured(t: Topology, e: Entry) {
    ConnectionFor(t, e.key).To? && OwnerOf(t, e.key) != Node(ConnectionFor(t, e.key).id)
  }

  /** Where the entry is written by itself it is also written by the batch: its primary is connected and
      takes its group. */
  predicate TakenByBoth(t: Topology, entries: seq<Entry>, e: Entry) {
    var to := ConnectionFor(t, e.key);
    AcceptsOne(t, e) && to.To? ==> !Detoured(t, e) && Accepts(t, EntriesOf(t, entries, to.id))
  }

  lemma {:induction false} FirstConnectedIs(ids: seq<NodeId>, pools: set<NodeId>)
    ensures FirstConnected(ids, pools).To? ==> FirstConnected(ids, pools).id in pools
    ensures FirstConnected(ids, pools) != NoPartition
    decreases |ids|
  {
    if ids != [] {
      FirstConnectedIs(ids[1..], pools);
    }
  }

  /** A key whose primary is connected goes there; any other goes to a node that is not its primary. */
  lemma DetourIff(t: Topology, e: Entry)
    ensures Reached(t, e.key) <==> ConnectionFor(t, e.key).To? && !Detoured(t, e)
    ensures Reached(t, e.key) ==> ConnectionFor(t, e.key) == To(OwnerOf(t, e.key).id)
    ensures ConnectionFor(t, e.key).To? ==> ConnectionFor(t, e.key).id in t.pools
  {
    var p := t.partitionOf(e.key);
    FirstConnectedIs(if p in t.replicas then t.replicas[p] else [], t.pools);
  }

  lemma SetAllNext(store: KeyValues, group: seq<Entry>, e: Entry)
    ensures SetAll(store, group + [e]) == SetAll(store, group)[e.key := e.value]
  {
    assert (group + [e])[..|group|] == group;
  }

  /** By itself, the entry is written to that node. */
  predicate SentTo(t: Topology, e: Entry, n: NodeId) {
    AcceptsOne(t, e) && ConnectionFor(t, e.key) == To(n)
  }

  predicate EachAccepted(t: Topology, group: seq<Entry>) {
    forall j :: 0 <= j < |group| ==> AcceptsOne(t, group[j])
  }

  lemma EachAcceptedNext(t: Topology, group: seq<Entry>, e: Entry)
    ensures EachAccepted(t, group + [e]) <==> EachAccepted(t, group) && AcceptsOne(t, e)
  {
    assert forall i :: 0 <= i < |group| ==> (group + [e])[i] == group[i];
    assert (group + [e])[|group|] == e;
  }

  /** A pair takes no more room by itself than among others. */
  lemma {:induction false} PairSize(keys: seq<Bytes>, values: seq<Bytes>, j: nat)
    requires |keys| == |values| && j < |keys|
    ensures 2 + |keys[j]| + 4 + |values[j]| <= |PairsBytes(keys, values)|
    decreases j
  {
    hide U16, U32;
    if j > 0 {
      PairSize(keys[1..], values[1..], j - 1);
    }
  }

  lemma MSetSize(keys: seq<Bytes>, values: seq<Bytes>)
    requires |keys| == |values|
    ensures |Encode(Request.MSet(keys, values))| == 5 + |PayloadOf(Request.MSet(keys, values))|
    ensures |PayloadOf(Request.MSet(keys, values))| == 2 + |PairsBytes(keys, values)|
  {
    hide U16, U32, PairsBytes;
  }

  lemma SetSize(e: Entry)
    ensures |Encode(SetOf(e))| == 5 + |PayloadOf(SetOf(e))| && |PayloadOf(SetOf(e))| == 2 + |e.key| + 4 + |e.value|
  {
    hide U16, U32;
  }

  /** The entries of a group that a node takes could also have been sent one by one. */
  lemma AcceptedOneByOne(t: Topology, group: seq<Entry>)
    requires Accepts(t, group)
    ensures EachAccepted(t, group)
  {
    hide Encode, PayloadOf, ClientRequest;
    var keys, values := KeysIn(group), ValuesIn(group);
    forall j | 0 <= j < |group|
      ensures AcceptsOne(t, group[j])
    {
      PairSize(keys, values, j);
      MSetSize(keys, values);
      SetSize(group[j]);
      assert Short16(keys[j]) && Short32(values[j]);
    }
  }

  /** A node whose entries would each be taken gets all of them one by one. */
  lemma {:induction false} TakenGroup(t: Topology, stores: Stores, entries: seq<Entry>, n: NodeId)
    requires n in t.pools && EachAccepted(t, EntriesOf(t, entries, n))
    requires forall i :: 0 <= i < |entries| && SentTo(t, entries[i], n) ==> !Detoured(t, entries[i])
    ensures StoreOf(SetEach(t, stores, entries).stores, n) == SetAll(StoreOf(stores, n), EntriesOf(t, entries, n))
    decreases |entries|
  {
    hide OwnerOf, SetAll, ConnectionFor, Detoured, AcceptsOne, EachAccepted;
    if entries == [] {
      NothingToSet(StoreOf(stores, n));
    } else {
      var last := |entries| - 1;
      assert forall i :: 0 <= i < last ==> entries[..last][i] == entries[i];
      var group, e := EntriesOf(t, entries[..last], n), entries[last];
      DetourIff(t, e);
      SetAllNext(StoreOf(stores, n), group, e);
      EachAcceptedNext(t, group, e);
      if OwnerOf(t, e.key) == Node(n) {
        assert EntriesOf(t, entries, n) == group + [e];
      } else {
        assert EntriesOf(t, entries, n) == group;
      }
      TakenGroup(t, stores, entries[..last], n);
    }
  }

  /** A node that no entry goes to keeps its store. */
  lemma {:induction false} NotSentTo(t: Topology, stores: Stores, entries: seq<Entry>, n: NodeId)
    requires forall i :: 0 <= i < |entries| && AcceptsOne(t, entries[i]) ==> ConnectionFor(t, entries[i].key) != To(n)
    ensures StoreOf(SetEach(t, stores, entries).stores, n) == StoreOf(stores, n)
    decreases |entries|
  {
    hide ConnectionFor, AcceptsOne;
    if entries != [] {
      var last := |entries| - 1;
      assert forall i :: 0 <= i < last ==> entries[..last][i] == entries[i];
      NotSentTo(t, stores, entries[..last], n);
      assert AcceptsOne(t, entries[last]) ==> ConnectionFor(t, entries[last].key) != To(n);
    }
  }

  lemma BatchIsOneByOne(t: Topology, stores: Stores, entries: seq<Entry>, n: NodeId)
    requires forall i :: 0 <= i < |entries| ==> TakenByBoth(t, entries, entries[i])
    ensures StoreOf(SetEach(t, stores, entries).stores, n) == AfterGroup(t, StoreOf(stores, n), entries, n)
  {
    hide OwnerOf, SetAll, ConnectionFor, Detoured, EntriesOf, SetEach, Accepts, AcceptsOne;
    if n in t.pools && Accepts(t, EntriesOf(t, entries, n)) {
      AcceptedOneByOne(t, EntriesOf(t, entries, n));
      assert forall i :: 0 <= i < |entries| && SentTo(t, entries[i], n) ==> TakenByBoth(t, entries, entries[i]);
      TakenGroup(t, stores, entries, n);
    } else {
      forall i | 0 <= i < |entries| && AcceptsOne(t, entries[i])
        ensures ConnectionFor(t, entries[i].key) != To(n)
      {
        assert TakenByBoth(t, entries, entries[i]);
        DetourIff(t, entries[i]);
      }
      NotSentTo(t, stores, entries, n);
    }
  }

  lemma {:induction false} KeysOfGroup(t: Topology, entries: seq<Entry>, n: NodeId)
    ensures forall i :: 0 <= i < |EntriesOf(t, entries, n)| ==>
              OwnerOf(t, EntriesOf(t, entries, n)[i].key) == Node(n) && EntriesOf(t, entries, n)[i] in entries
    decreases |entries|
  {
    hide OwnerOf;
    if entries != [] {
      var last := |entries| - 1;
      KeysOfGroup(t, entries[..last], n);
      assert forall e :: e in entries[..last] ==> e in entries;
    }
  }

  lemma {:induction false} SetAllKeys(store: KeyValues, entries: seq<Entry>, k: Bytes)
    requires forall i :: 0 <= i < |entries| ==> entries[i].key != k
    ensures k in SetAll(store, entries) <==> k in store
    decreases |entries|
  {
    if entries != [] {
      SetAllKeys(store, entries[..|entries| - 1], k);
    }
  }

  /** What has been written one by one stays. */
  lemma {:induction false} SentIsWritten(t: Topology, stores: Stores, entries: seq<Entry>, i: nat)
    requires i < |entries| && AcceptsOne(t, entries[i]) && ConnectionFor(t, entries[i].key).To?
    ensures entries[i].key in StoreOf(SetEach(t, stores, entries).stores, ConnectionFor(t, entries[i].key).id)
    decreases |entries|
  {
    hide ConnectionFor, AcceptsOne;
    if i < |entries| - 1 {
      SentIsWritten(t, stores, entries[..|entries| - 1], i);
    }
  }

  /** The batch loses a detoured entry: sent by itself it is written to the replica, sent as a batch it is
      written nowhere, and no error is reported. */
  lemma LostWrite(t: Topology, stores: Stores, e: Entry)
    requires Detoured(t, e) && AcceptsOne(t, e)
    ensures var one := SetOne(t, stores, e);
            one.ok && e.key in StoreOf(one.stores, ConnectionFor(t, e.key).id)
            && StoreOf(one.stores, ConnectionFor(t, e.key).id)[e.key] == e.value
    ensures AllAccept(t, [e]) && forall n :: AfterGroup(t, StoreOf(stores, n), [e], n) == StoreOf(stores, n)
  {
    hide ConnectionFor, OwnerOf, AcceptsOne, Accepts;
    DetourIff(t, e);
    forall n
      ensures AfterGroup(t, StoreOf(stores, n), [e], n) == StoreOf(stores, n)
      ensures n in t.pools ==> EntriesOf(t, [e], n) == []
    {
      OneEntry(t, e, n);
      NothingToSet(StoreOf(stores, n));
    }
  }

  lemma OneEntry(t: Topology, e: Entry, n: NodeId)
    ensures EntriesOf(t, [e], n) == if OwnerOf(t, e.key) == Node(n) then [e] else []
  {
    hide OwnerOf;
    var none: seq<Entry> := [e][..0];
    assert EntriesOf(t, none, n) == [];
  }

  /** The batch and the entries one by one leave the same stores, whatever the stores were. */
  ghost predicate SameStores(t: Topology, entries: seq<Entry>) {
    forall stores, n :: StoreOf(SetEach(t, stores, entries).stores, n) == AfterGroup(t, StoreOf(stores, n), entries, n)
  }

  predicate AllPrimary(t: Topology, entries: seq<Entry>) {
    forall i :: 0 <= i < |entries| ==> Reached(t, entries[i].key)
  }

  /** Batch and single requests leave the same stores exactly when every entry that a single request would
      write has its primary connected, and that node takes its group. */
  lemma SameStoresIff(t: Topology, entries: seq<Entry>)
    ensures SameStores(t, entries) <==> forall i :: 0 <= i < |entries| ==> TakenByBoth(t, entries, entries[i])
  {
    hide ConnectionFor, OwnerOf, SetEach, SetAll, TakenByBoth, AfterGroup;
    if forall i :: 0 <= i < |entries| ==> TakenByBoth(t, entries, entries[i]) {
      forall stores, n
        ensures StoreOf(SetEach(t, stores, entries).stores, n) == AfterGroup(t, StoreOf(stores, n), entries, n)
      {
        BatchIsOneByOne(t, stores, entries, n);
      }
    } else {
      var i :| 0 <= i < |entries| && !TakenByBoth(t, entries, entries[i]);
      BatchDiffers(t, entries, i);
    }
  }

  lemma BatchDiffers(t: Topology, entries: seq<Entry>, i: nat)
    requires i < |entries| && !TakenByBoth(t, entries, entries[i])
    ensures !SameStores(t, entries)
  {
    hide ConnectionFor, OwnerOf, SetEach, SetAll, Accepts, AcceptsOne, EntriesOf;
    var e := entries[i];
    var n := ConnectionFor(t, e.key).id;
    var none: Stores := map[];
    SentIsWritten(t, none, entries, i);
    if Detoured(t, e) {
      KeysOfGroup(t, entries, n);
      forall j | 0 <= j < |EntriesOf(t, entries, n)|
        ensures EntriesOf(t, entries, n)[j].key != e.key
      {
        assert OwnerOf(t, EntriesOf(t, entries, n)[j].key) == Node(n);
      }
      SetAllKeys(StoreOf(none, n), EntriesOf(t, entries, n), e.key);
    }
    assert e.key !in AfterGroup(t, StoreOf(none, n), entries, n);
    assert StoreOf(SetEach(t, none, entries).stores, n) != AfterGroup(t, StoreOf(none, n), entries, n);
  }

  /** Sent one by one, all entries succeed exactly when each has a connection and is taken. */
  lemma {:induction false} EachSucceedsIff(t: Topology, stores: Stores, entries: seq<Entry>)
    ensures SetEach(t, stores, entries).ok <==>
            forall i :: 0 <= i < |entries| ==> AcceptsOne(t, entries[i]) && ConnectionFor(t, entries[i].key).To?
    decreases |entries|
  {
    hide ConnectionFor, AcceptsOne;
    if entries != [] {
      var last := |entries| - 1;
      assert forall i :: 0 <= i < last ==> entries[..last][i] == entries[i];
      EachSucceedsIff(t, stores, entries[..last]);
    }
  }

  /** A batch write does what the entries do when they are sent one by one and all succeed, whatever the
      stores were, exactly when the primary of every entry is connected and every node takes its group. */
  lemma BatchIsOneByOneIff(t: Topology, entries: seq<Entry>)
    ensures SameStores(t, entries) && SetEach(t, map[], entries).ok
            <==> AllPrimary(t, entries) && AllAccept(t, entries)
  {
    hide ConnectionFor, SetEach, SameStores, OwnerOf, EntriesOf, Accepts, AcceptsOne;
    SameStoresIff(t, entries);
    EachSucceedsIff(t, map[], entries);
    if SameStores(t, entries) && SetEach(t, map[], entries).ok {
      forall i | 0 <= i < |entries|
        ensures Reached(t, entries[i].key)
      {
        assert TakenByBoth(t, entries, entries[i]);
        DetourIff(t, entries[i]);
      }
      forall n | n in t.pools && EntriesOf(t, entries, n) != []
        ensures Accepts(t, EntriesOf(t, entries, n))
      {
        KeysOfGroup(t, entries, n);
        var e := EntriesOf(t, entries, n)[0];
        var i :| 0 <= i < |entries| && entries[i] == e;
        assert TakenByBoth(t, entries, entries[i]);
        DetourIff(t, entries[i]);
      }
    }
    if AllPrimary(t, entries) && AllAccept(t, entries) {
      forall i | 0 <= i < |entries|
        ensures AcceptsOne(t, entries[i]) && ConnectionFor(t, entries[i].key).To? && TakenByBoth(t, entries, entries[i])
      {
        assert Reached(t, entries[i].key);
        DetourIff(t, entries[i]);
        InItsGroup(t, entries, i);
        AcceptedOneByOne(t, EntriesOf(t, entries, OwnerOf(t, entries[i].key).id));
      }
    }
  }

  lemma {:induction false} InItsGroup(t: Topology, entries: seq<Entry>, i: nat)
    requires i < |entries| && OwnerOf(t, entries[i].key).Node?
    ensures entries[i] in EntriesOf(t, entries, OwnerOf(t, entries[i].key).id)
    decreases |entries|
  {
    hide OwnerOf;
    if i < |entries| - 1 {
      InItsGroup(t, entries[..|entries| - 1], i);
    }
  }

  /** Reading a key back from its primary after the entries have been written gives the last value written. */
  lemma {:induction false} LastWriteWins(t: Topology, stores: Stores, entries: seq<Entry>, i: nat)
    requires i < |entries| && Reached(t, entries[i].key) && AcceptsOne(t, entries[i])
    requires forall j :: i < j < |entries| ==> entries[j].key != entries[i].key
    ensures Wanted(t, SetEach(t, stores, entries).stores, entries[i].key) == OrNull(entries[i].value)
    decreases |entries|
  {
    hide OwnerOf, OrNull, ConnectionFor, AcceptsOne;
    var last := |entries| - 1;
    DetourIff(t, entries[i]);
    if i < last {
      LastWriteWins(t, stores, entries[..last], i);
      assert entries[last].key != entries[i].key;
    }
  }
}
