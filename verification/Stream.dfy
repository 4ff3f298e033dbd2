/** Consumer groups: range assignment of partitions, kept over subscribes and unsubscribes; and the
    offset cache in front of the storage, used by one caller at a time. */
module StreamGroups {
  import opened ByteStrings
  import opened Decimal
  import opened Keys
  import opened StreamStore
  import opened StreamRecords
  import opened StreamCodec

  /** Which partitions each consumer of a group has been given. */
  type Assignment = map<Bytes, seq<int>>

  datatype ConsumerGroup = ConsumerGroup(topic: Bytes, consumers: Assignment)

  predicate IsRange(ps: seq<int>) {
    forall i :: 0 <= i < |ps| ==> ps[i] == ps[0] + i
  }

  predicate Assigned(a: Assignment, ids: set<Bytes>, p: int) {
    exists id :: id in ids && id in a && p in a[id]
  }

  /** Consecutive partitions per consumer, every partition with exactly one consumer, and no consumer
      with two more than another. */
  ghost predicate Balanced(partitions: nat, a: Assignment) {
    && (forall id :: id in a ==> IsRange(a[id]))
    && (forall id, p :: id in a && p in a[id] ==> 0 <= p < partitions)
    && (forall p :: 0 <= p < partitions ==> Assigned(a, a.Keys, p))
    && (forall id, jd, p :: id in a && jd in a && p in a[id] && p in a[jd] ==> id == jd)
    && (forall id, jd :: id in a && jd in a ==> |a[id]| <= |a[jd]| + 1)
  }

  /** The ranges handed out so far: the consumers in `done` share 0..next in ranges of `share` or, for
      some of them, one more. */
  ghost predicate HandedOut(a: Assignment, done: set<Bytes>, next: nat, share: nat) {
    && done <= a.Keys
    && (forall id :: id in done ==> IsRange(a[id]) && share <= |a[id]| <= share + 1)
    && (forall id, p :: id in done && p in a[id] ==> 0 <= p < next)
    && (forall p :: 0 <= p < next ==> Assigned(a, done, p))
    && (forall id, jd, p :: id in done && jd in done && p in a[id] && p in a[jd] ==> id == jd)
  }

  lemma HandOutNext(a: Assignment, done: set<Bytes>, next: nat, share: nat, id: Bytes, ps: seq<int>)
    requires HandedOut(a, done, next, share) && id !in done
    requires share <= |ps| <= share + 1 && forall i :: 0 <= i < |ps| ==> ps[i] == next + i
    ensures HandedOut(a[id := ps], done + {id}, next + |ps|, share)
  {
    var b := a[id := ps];
    forall p | 0 <= p < next + |ps|
      ensures Assigned(b, done + {id}, p)
    {
      if p < next {
        assert Assigned(a, done, p);
        var jd :| jd in done && jd in a && p in a[jd];
        assert jd in done + {id} && p in b[jd];
      } else {
        assert ps[p - next] == p;
        assert id in done + {id} && p in b[id];
      }
    }
    forall p | p in ps
      ensures next <= p < next + |ps|
    {
    }
  }

  /** Range assignment of a topic's partitions to the consumers of a group, taken in any order. */
  method RebalanceGroup(partitions: nat, consumers: Assignment) returns (a: Assignment)
    requires consumers != map[]
    ensures a.Keys == consumers.Keys
    ensures Balanced(partitions, a)
  {
    hide HandedOut, Balanced, Times;
    var n := |consumers|;
    CountPositive(consumers);
    Shares(partitions, n);
    var partitionsPerConsumer := partitions / n;
    var extraPartitions := partitions % n;
    var currentPart := 0;
    a := consumers;
    var rest := consumers.Keys;
    ghost var done: set<Bytes> := {};
    NothingHandedOut(a, partitionsPerConsumer);
    while rest != {}
      invariant rest <= consumers.Keys == a.Keys && done == consumers.Keys - rest
      invariant 0 <= extraPartitions <= |rest|
      invariant currentPart + Times(|rest|, partitionsPerConsumer) + extraPartitions == partitions
      invariant 0 <= currentPart && HandedOut(a, done, currentPart, partitionsPerConsumer)
      decreases |rest|
    {
      var id :| id in rest;
      var numParts := partitionsPerConsumer;
      if extraPartitions > 0 {
        numParts := numParts + 1;
        extraPartitions := extraPartitions - 1;
      }
      var ps := NextPartitions(currentPart, numParts);
      HandOutNext(a, done, currentPart, partitionsPerConsumer, id, ps);
      LessOne(|rest|, partitionsPerConsumer);
      currentPart := currentPart + |ps|;
      a := a[id := ps];
      done := done + {id};
      rest := rest - {id};
    }
    LessOne(0, partitionsPerConsumer);
    assert done == a.Keys;
    AllHandedOut(a, partitions, partitionsPerConsumer);
  }

  lemma CountPositive(a: Assignment)
    requires a != map[]
    ensures |a| > 0
  {
  }

  function Times(n: nat, q: nat): nat {
    n * q
  }

  lemma LessOne(n: nat, q: nat)
    ensures n > 0 ==> Times(n - 1, q) == Times(n, q) - q
    ensures Times(0, q) == 0
  {
    assert n > 0 ==> (n - 1) * q == n * q - q;
  }

  lemma Shares(partitions: nat, n: nat)
    requires n > 0
    ensures Times(n, partitions / n) + partitions % n == partitions && partitions % n < n
  {
  }

  method NextPartitions(first: int, count: nat) returns (ps: seq<int>)
    ensures |ps| == count && forall i :: 0 <= i < count ==> ps[i] == first + i
  {
    ps := [];
    while |ps| < count
      invariant |ps| <= count
      invariant forall i :: 0 <= i < |ps| ==> ps[i] == first + i
    {
      ps := ps + [first + |ps|];
    }
  }

  lemma NothingHandedOut(a: Assignment, share: nat)
    ensures HandedOut(a, {}, 0, share)
  {
  }

  lemma AllHandedOut(a: Assignment, partitions: nat, share: nat)
    requires HandedOut(a, a.Keys, partitions, share)
    ensures Balanced(partitions, a)
  {
  }

  /** A balanced assignment fits one partition count only: when a topic is created anew with another
      count, the groups that hold assignments of it are out of balance until their next rebalance. */
  lemma BalancedForOneCount(a: Assignment, partitions: nat, other: nat)
    requires Balanced(partitions, a)
    ensures Balanced(other, a) <==> other == partitions
  {
    AssignedIff(a, partitions, other);
    AssignedIff(a, other, other);
    AssignedIff(a, partitions, partitions);
    AssignedIff(a, other, partitions);
  }

  lemma AssignedIff(a: Assignment, partitions: nat, p: int)
    ensures Balanced(partitions, a) ==> (Assigned(a, a.Keys, p) <==> 0 <= p < partitions)
  {
  }

  /** The partition a publish goes to: the requested one if the topic has it, else by key hash, else
      by the clock. */
  function ChoosePartition(requested: int, partitions: nat, key: Bytes, hash: nat, clock: nat): (p: int)
    requires partitions > 0
    ensures 0 <= p < partitions
    ensures 0 <= requested < partitions ==> p == requested
    ensures !(0 <= requested < partitions) && key != [] ==> p == hash % partitions
    ensures !(0 <= requested < partitions) && key == [] ==> p == clock % partitions
  {
    if requested < 0 || requested >= partitions then
      if key != [] then hash % partitions else clock % partitions
    else requested
  }

  ghost predicate GroupOk(topics: map<Bytes, nat>, g: ConsumerGroup) {
    g.consumers != map[] && (g.topic in topics ==> Balanced(topics[g.topic], g.consumers))
  }

  datatype UnsubscribeResult = Left | UnknownTopic

  /** A consumer has left: the group is gone with its last one; otherwise it has the others, and on a known
      topic the partitions have been dealt out again, while on an unknown one that is reported. */
  ghost predicate LeftGroup(topics: map<Bytes, nat>, before: map<Bytes, ConsumerGroup>,
                            after: map<Bytes, ConsumerGroup>,
                            group: Bytes, consumerId: Bytes, r: UnsubscribeResult)
  {
    if group !in before then after == before && r == Left
    else
      var g := before[group];
      var left := g.consumers.Keys - {consumerId};
      if left == {} then after == before - {group} && r == Left
      else
        && group in after && after[group].topic == g.topic && after[group].consumers.Keys == left
        && after == before[group := after[group]]
        && (if g.topic in topics then r == Left && Balanced(topics[g.topic], after[group].consumers)
            else r == UnknownTopic && after[group].consumers == g.consumers - {consumerId})
  }

  datatype SubscribeResult = Subscribed | WrongTopic(current: Bytes) | NoSuchTopic

  ghost predicate AllGroupsOk(topics: map<Bytes, nat>, groups: map<Bytes, ConsumerGroup>) {
    forall g :: g in groups ==> GroupOk(topics, groups[g])
  }

  lemma ReplaceGroup(topics: map<Bytes, nat>, groups: map<Bytes, ConsumerGroup>, group: Bytes, g: ConsumerGroup)
    requires GroupOk(topics, g)
    ensures AllGroupsOk(topics, groups) ==> AllGroupsOk(topics, groups[group := g])
  {
    hide GroupOk;
  }

  /** A consumer has joined: on the group's own topic it is a member, and on a known topic the
      partitions have been dealt out again. */
  ghost predicate JoinedGroup(topics: map<Bytes, nat>, before: map<Bytes, ConsumerGroup>,
                              after: map<Bytes, ConsumerGroup>,
                              topic: Bytes, group: Bytes, consumerId: Bytes, r: SubscribeResult)
  {
    if group in before && before[group].topic != topic then
      r == WrongTopic(before[group].topic) && after == before
    else
      && (r == if topic in topics then Subscribed else NoSuchTopic)
      && group in after && after[group].topic == topic
      && after[group].consumers.Keys == (if group in before then before[group].consumers.Keys else {}) + {consumerId}
      && (topic in topics ==> Balanced(topics[topic], after[group].consumers))
      && (topic !in topics ==>
            var members := if group in before then before[group].consumers else map[];
            after[group].consumers == if consumerId in members then members else members[consumerId := []])
      && after == before[group := after[group]]
  }

  method SubscribeTo(topics: map<Bytes, nat>, groups: map<Bytes, ConsumerGroup>, topic: Bytes, group: Bytes,
                     consumerId: Bytes)
    returns (after: map<Bytes, ConsumerGroup>, r: SubscribeResult)
    ensures JoinedGroup(topics, groups, after, topic, group, consumerId, r)
    ensures AllGroupsOk(topics, groups) ==> AllGroupsOk(topics, after)
  {
    hide Balanced, AllGroupsOk;
    var g := if group in groups then groups[group] else ConsumerGroup(topic, map[]);
    if g.topic != topic {
      return groups, WrongTopic(g.topic);
    }
    if consumerId !in g.consumers {
      g := g.(consumers := g.consumers[consumerId := []]);
    }
    assert consumerId in g.consumers;
    if topic !in topics {
      ReplaceGroup(topics, groups, group, g);
      return groups[group := g], NoSuchTopic;
    }
    var a := RebalanceGroup(topics[topic], g.consumers);
    assert consumerId in a;
    g := g.(consumers := a);
    ReplaceGroup(topics, groups, group, g);
    return groups[group := g], Subscribed;
  }

  method UnsubscribeFrom(topics: map<Bytes, nat>, groups: map<Bytes, ConsumerGroup>, group: Bytes, consumerId: Bytes)
    returns (after: map<Bytes, ConsumerGroup>, r: UnsubscribeResult)
    ensures LeftGroup(topics, groups, after, group, consumerId, r)
    ensures AllGroupsOk(topics, groups) ==> AllGroupsOk(topics, after)
  {
    hide Balanced;
    if group !in groups {
      return groups, Left;
    }
    var g := groups[group];
    var consumers := g.consumers - {consumerId};
    assert consumers.Keys == g.consumers.Keys - {consumerId};
    if |consumers| == 0 {
      assert consumers.Keys == {};
      return groups - {group}, Left;
    }
    assert consumers.Keys != {};
    if g.topic !in topics {
      g := g.(consumers := consumers);
      ReplaceGroup(topics, groups, group, g);
      return groups[group := g], UnknownTopic;
    }
    consumers := RebalanceGroup(topics[g.topic], consumers);
    assert consumers.Keys != {};
    g := g.(consumers := consumers);
    ReplaceGroup(topics, groups, group, g);
    return groups[group := g], Left;
  }

  /** Creating a topic, or creating it anew with a partition count, keeps the groups balanced exactly when
      those on that topic are balanced for the count already. */
  lemma TopicKeepsBalance(topics: map<Bytes, nat>, groups: map<Bytes, ConsumerGroup>, name: Bytes, count: nat)
    requires AllGroupsOk(topics, groups)
    ensures AllGroupsOk(topics[name := count], groups)
       <==> forall g :: g in groups && groups[g].topic == name ==> Balanced(count, groups[g].consumers)
  {
    hide Balanced;
    forall g | g in groups
      ensures GroupOk(topics[name := count], groups[g])
         <==> (groups[g].topic == name ==> Balanced(count, groups[g].consumers))
    {
      assert GroupOk(topics, groups[g]);
    }
  }

  // ---------- consuming ----------

  /** What one partition contributes to a consumer's batch. */
  datatype Block = Block(partition: int, records: seq<Record>)

  datatype ConsumeResult = Consumed(blocks: seq<Block>) | NoGroup | NotRegistered | ConsumePanicked

  function Total(blocks: seq<Block>): nat {
    if blocks == [] then 0 else Total(blocks[..|blocks| - 1]) + |blocks[|blocks| - 1].records|
  }

  /** How many messages each of `n` partitions may contribute to a batch of `count`. */
  function Share(count: nat, n: nat): nat
    requires n > 0
  {
    if count / n == 0 then 1 else count / n
  }

  function StartOf(commits: map<Bytes, Int64>, group: Bytes, topic: Bytes, partition: int): Int64 {
    var key := ConsumerKey(group, topic, partition);
    if key in commits then commits[key] else 0
  }

  /** The first records of the partition from its committed offset on. */
  ghost predicate Fetched(log: Log, commits: map<Bytes, Int64>, group: Bytes, topic: Bytes, share: nat, b: Block) {
    FirstFrom(log, topic, b.partition, StartOf(commits, group, topic, b.partition), share, b.records)
  }

  /** A partition's contribution: the first records, at most `share`, from the offset committed under `key` on,
      or from 0. */
  ghost predicate Contribution(log: Log, commits: map<Bytes, Int64>, key: Bytes, topic: Bytes, share: int, b: Block) {
    FirstOfPartition(log, topic, b.partition, if key in commits then commits[key] else 0, share, b.records)
  }

  /** A record of the partition that the group has not passed. */
  predicate Awaits(log: Log, commits: map<Bytes, Int64>, group: Bytes, topic: Bytes, partition: int, o: int) {
    var key := ConsumerKey(group, topic, partition);
    o >= (if key in commits then commits[key] else 0) && Spot(topic, partition, o) in log
  }

  ghost predicate AnyAwaits(log: Log, commits: map<Bytes, Int64>, group: Bytes, topic: Bytes, ps: seq<int>) {
    exists p, o :: p in ps && Awaits(log, commits, group, topic, p, o)
  }

  lemma FetchedIs(log: Log, commits: map<Bytes, Int64>, group: Bytes, topic: Bytes, count: nat, n: nat, b: Block)
    requires n > 0 && Fetched(log, commits, group, topic, Share(count, n), b)
    ensures Contribution(log, commits, ConsumerKey(group, topic, b.partition), topic,
                         if count / n == 0 then 1 else count / n, b)
  {
    hide ConsumerKey;
    FirstFromIs(log, topic, b.partition, StartOf(commits, group, topic, b.partition), Share(count, n), b.records);
  }

  lemma {:induction false} SomeRecords(blocks: seq<Block>)
    requires Total(blocks) > 0
    ensures exists b :: b in blocks && b.records != []
    decreases |blocks|
  {
    var n := |blocks| - 1;
    if blocks[n].records == [] {
      SomeRecords(blocks[..n]);
      var b :| b in blocks[..n] && b.records != [];
      assert b in blocks;
    } else {
      assert blocks[n] in blocks;
    }
  }

  /** A consumer that asks for something gets something, if there is anything. */
  lemma NotEmpty(log: Log, commits: map<Bytes, Int64>, group: Bytes, topic: Bytes, count: nat, ps: seq<int>,
                 blocks: seq<Block>)
    requires count > 0 && ps != [] && AnyAwaits(log, commits, group, topic, ps)
    requires forall b :: b in blocks ==>
               Contribution(log, commits, ConsumerKey(group, topic, b.partition), topic,
                            if count / |ps| == 0 then 1 else count / |ps|, b)
    requires Total(blocks) >= count || forall p :: p in ps ==> exists b :: b in blocks && b.partition == p
    ensures exists b :: b in blocks && b.records != []
  {
    hide ConsumerKey;
    if Total(blocks) >= count {
      SomeRecords(blocks);
    } else {
      var p, o :| p in ps && Awaits(log, commits, group, topic, p, o);
      var b :| b in blocks && b.partition == p;
      var key := ConsumerKey(group, topic, p);
      assert InRange(log, topic, p, if key in commits then commits[key] else 0, o);
    }
  }

  predicate OncePerPartition(blocks: seq<Block>) {
    forall j, k :: 0 <= j < k < |blocks| ==> blocks[j].partition != blocks[k].partition
  }

  /** The blocks collected so far, `order` saying which partitions they come from. */
  ghost predicate Collected(fetched: seq<Block>, share: nat, count: nat, blocks: seq<Block>, order: seq<nat>) {
    && |order| == |blocks|
    && (forall k :: 0 <= k < |order| ==> order[k] < |fetched| && blocks[k] == fetched[order[k]])
    && (forall j, k :: 0 <= j < k < |order| ==> order[j] != order[k])
    && Total(blocks) <= |blocks| * share
  }

  lemma NoneCollected(fetched: seq<Block>, share: nat, count: nat)
    ensures Collected(fetched, share, count, [], [])
  {
  }

  lemma CollectedNext(fetched: seq<Block>, share: nat, count: nat, blocks: seq<Block>, order: seq<nat>, i: nat)
    requires Collected(fetched, share, count, blocks, order) && i < |fetched| && i !in order
    requires |fetched[i].records| <= share
    ensures Collected(fetched, share, count, blocks + [fetched[i]], order + [i])
    ensures Total(blocks + [fetched[i]]) == Total(blocks) + |fetched[i].records|
  {
    assert (blocks + [fetched[i]])[..|blocks|] == blocks;
    assert (|blocks| + 1) * share == |blocks| * share + share;
  }

  /** A batch that is full before the last partition has been collected has fewer messages asked for than
      there are partitions. */
  lemma FullEarly(count: nat, n: nat, taken: nat, total: nat)
    requires n > 0 && taken < n && total <= taken * Share(count, n) && count <= total
    ensures count < n
  {
    var share := Share(count, n);
    ShareBound(count, n);
    assert (n - taken) * share >= share;
    assert taken * share + share <= n * share;
  }

  lemma ShareBound(count: nat, n: nat)
    requires n > 0
    ensures Share(count, n) > 0
    ensures count >= n ==> Share(count, n) * n <= count
  {
  }

  /** The batch does not exceed what was asked for, unless nothing was asked for. */
  lemma BatchBound(count: nat, n: nat, taken: nat, before: nat, last: nat)
    requires n > 0 && taken < n && before <= taken * Share(count, n) && last <= Share(count, n)
    requires taken > 0 ==> before < count
    ensures count > 0 ==> before + last <= count
    ensures before + last <= if count == 0 then 1 else count
  {
    var share := count / n;
    assert share * n <= count;
    if share > 0 {
      assert (taken + 1) * share == taken * share + share;
      assert (taken + 1) * share <= n * share;
    }
  }

  lemma FlushedAgain(log: Log, after: Log)
    requires Flushed(log, map[], after)
    ensures after == log
  {
    hide SpotOf, RecordOf;
  }

  class Stream {
    const storage: StreamStorage
    var topics: map<Bytes, nat>
    var groups: map<Bytes, ConsumerGroup>
    var offsetCache: map<Bytes, Int64>

    /** Every group on a known topic has consumers and a balanced assignment. */
    ghost predicate GroupsBalanced()
      reads this
    {
      AllGroupsOk(topics, groups)
    }

    /** The cache agrees with the committed offsets. */
    ghost predicate CacheAgrees()
      reads this, storage
    {
      forall k :: k in offsetCache ==> offsetCache[k] == CommittedAt(k)
    }

    /** The offset committed under a cache key, 0 if none was. */
    ghost function CommittedAt(k: Bytes): Int64
      reads storage
    {
      var key := Ascii("stream:consumer:") + k;
      if key in storage.commits then storage.commits[key] else 0
    }

    ghost predicate Valid()
      reads this, storage
    {
      storage.Valid() && CacheAgrees()
    }

    constructor ()
      ensures Valid() && GroupsBalanced() && fresh(storage) && groups == map[] && topics == map[]
    {
      storage := new StreamStorage();
      topics, groups, offsetCache := map[], map[], map[];
    }

    /** Creates a topic; a partition count of 0 or less means 4. */
    method CreateTopic(name: Bytes, partitions: int)
      requires Valid()
      modifies `topics
      ensures var count := if partitions <= 0 then 4 else partitions;
              && Valid() && topics == old(topics)[name := count]
              && (old(GroupsBalanced()) ==>
                    (GroupsBalanced() <==>
                     forall g :: g in groups && groups[g].topic == name ==> Balanced(count, groups[g].consumers)))
    {
      hide Balanced, AllGroupsOk;
      var count := partitions;
      if count <= 0 {
        count := 4;
      }
      if AllGroupsOk(topics, groups) {
        TopicKeepsBalance(topics, groups, name, count);
      }
      topics := topics[name := count];
    }

    /** Registers a consumer in a group and rebalances the group.  On an unknown topic the consumer
        stays registered, without partitions, and the caller gets an error. */
    method Subscribe(topic: Bytes, group: Bytes, consumerId: Bytes) returns (r: SubscribeResult)
      requires Valid()
      modifies `groups
      ensures Valid() && JoinedGroup(topics, old(groups), groups, topic, group, consumerId, r)
      ensures old(GroupsBalanced()) ==> GroupsBalanced()
    {
      var after;
      after, r := SubscribeTo(topics, groups, topic, group, consumerId);
      groups := after;
    }

    /** Removes a consumer; the last one takes the group with it, otherwise the group is rebalanced. */
    method Unsubscribe(group: Bytes, consumerId: Bytes) returns (r: UnsubscribeResult)
      requires Valid()
      modifies `groups
      ensures Valid() && LeftGroup(topics, old(groups), groups, group, consumerId, r)
      ensures old(GroupsBalanced()) ==> GroupsBalanced()
    {
      var after;
      after, r := UnsubscribeFrom(topics, groups, group, consumerId);
      groups := after;
    }

    /** The group's start offset in a partition: from the cache, or from the storage on a miss. */
    method GetCachedOffset(group: Bytes, topic: Bytes, partition: int) returns (offset: Int64)
      requires Valid()
      modifies `offsetCache
      ensures Valid()
      ensures var key := ConsumerKey(group, topic, partition);
              offset == if key in storage.commits then storage.commits[key] else 0
    {
      var cacheKey := Join(group, Join(topic, DecInt(partition)));
      assert Ascii("stream:consumer:") + cacheKey == ConsumerKey(group, topic, partition);
      if cacheKey in offsetCache {
        return offsetCache[cacheKey];
      }
      offset := storage.GetConsumerOffset(group, topic, partition);
      offsetCache := offsetCache[cacheKey := offset];
    }

    /** Commits an offset: cache first, then storage. */
    method Commit(topic: Bytes, group: Bytes, partition: int, offset: Int64, now: Int64)
      requires Valid()
      modifies `offsetCache, storage
      ensures Valid()
      ensures storage.commits == old(storage.commits)[ConsumerKey(group, topic, partition) := offset]
      ensures storage.log == old(storage.log) && storage.writeBuffer == old(storage.writeBuffer)
    {
      var cacheKey := Join(group, Join(topic, DecInt(partition)));
      offsetCache := offsetCache[cacheKey := offset];
      ghost var before := storage.commits;
      storage.CommitOffset(group, topic, partition, offset, now);
      forall k
        ensures Ascii("stream:consumer:") + k == ConsumerKey(group, topic, partition) <==> k == cacheKey
      {
        SamePrefix(Ascii("stream:consumer:"), k, cacheKey);
      }
    }

    /** One partition's share of a batch. */
    method FetchPartition(topic: Bytes, group: Bytes, partition: int, share: nat) returns (b: Block)
      requires Valid() && ColonFree(topic)
      modifies `offsetCache, storage
      ensures Valid() && storage.commits == old(storage.commits) && storage.writeBuffer == map[]
      ensures Flushed(old(storage.log), old(storage.writeBuffer), storage.log)
      ensures b.partition == partition && Fetched(storage.log, storage.commits, group, topic, share, b)
      ensures |b.records| <= share
    {
      hide ConsumerKey, Flushed, GroupsBalanced;
      var offset := GetCachedOffset(group, topic, partition);
      var r := storage.FetchMessages(topic, partition, offset, share);
      b := Block(partition, r.records);
    }

    /** Fetches an equal share from each of the consumer's partitions. */
    method FetchAll(topic: Bytes, group: Bytes, partitions: seq<int>, share: nat) returns (fetched: seq<Block>)
      requires Valid() && ColonFree(topic) && partitions != []
      modifies `offsetCache, storage
      ensures Valid() && storage.commits == old(storage.commits) && storage.writeBuffer == map[]
      ensures Flushed(old(storage.log), old(storage.writeBuffer), storage.log)
      ensures |fetched| == |partitions| && forall i :: 0 <= i < |partitions| ==>
                fetched[i].partition == partitions[i] && |fetched[i].records| <= share
                && Fetched(storage.log, storage.commits, group, topic, share, fetched[i])
    {
      hide Fetched, Flushed;
      var b := FetchPartition(topic, group, partitions[0], share);
      fetched := [b];
      for i := 1 to |partitions|
        invariant Valid() && storage.commits == old(storage.commits) && storage.writeBuffer == map[]
        invariant Flushed(old(storage.log), old(storage.writeBuffer), storage.log)
        invariant |fetched| == i && forall k :: 0 <= k < i ==>
                    fetched[k].partition == partitions[k] && |fetched[k].records| <= share
                    && Fetched(storage.log, storage.commits, group, topic, share, fetched[k])
      {
        ghost var before := storage.log;
        b := FetchPartition(topic, group, partitions[i], share);
        FlushedAgain(before, storage.log);
        fetched := fetched + [b];
      }
    }

    /** A batch for one consumer of a group.  Each of its partitions is read from the committed offset on,
        and contributes at most an equal share; the contributions are collected in whatever order they
        arrive, until there are enough.  Nothing is committed.  When at least one message per partition
        was asked for, every partition is in the batch. */
    method Consume(topic: Bytes, group: Bytes, consumerId: Bytes, count: int) returns (r: ConsumeResult)
      requires Valid() && ColonFree(topic)
      modifies `offsetCache, storage
      ensures Valid() && storage.commits == old(storage.commits)
      ensures r.NoGroup? <==> group !in groups
      ensures r.NotRegistered? <==> group in groups && consumerId !in groups[group].consumers
      ensures group in groups && consumerId in groups[group].consumers ==>
                var ps := groups[group].consumers[consumerId];
                && (r.ConsumePanicked? <==> ps != [] && count < 0)
                && (r.Consumed? && ps != [] ==>
                      && (forall b :: b in r.blocks ==>
                            b.partition in ps
                            && Contribution(storage.log, storage.commits, ConsumerKey(group, topic, b.partition), topic,
                                            if count / |ps| == 0 then 1 else count / |ps|, b))
                      && Total(r.blocks) <= (if count == 0 then 1 else count)
                      && (IsRange(ps) ==> OncePerPartition(r.blocks))
                      && (count >= |ps| ==> forall p :: p in ps ==> exists b :: b in r.blocks && b.partition == p)
                      && (Total(r.blocks) >= count
                          || forall p :: p in ps ==> exists b :: b in r.blocks && b.partition == p)
                      && (forall j :: 0 < j < |r.blocks| ==> Total(r.blocks[..j]) < count)
                      && (count > 0 && AnyAwaits(storage.log, storage.commits, group, topic, ps) ==>
                            exists b :: b in r.blocks && b.records != [])
                      && BufferStored(old(storage.log), old(storage.writeBuffer), storage.log))
                && (r.Consumed? && ps == [] ==> r.blocks == [])
    {
      hide Fetched, Flushed, GroupsBalanced, CacheAgrees, Share, Total, Contribution, BufferStored, AnyAwaits;
      if group !in groups {
        return NoGroup;
      }
      if consumerId !in groups[group].consumers {
        return NotRegistered;
      }
      var partitions := groups[group].consumers[consumerId];
      if partitions == [] {
        return Consumed([]);
      }
      if count < 0 {
        return ConsumePanicked;
      }
      var share := Share(count, |partitions|);
      var fetched := FetchAll(topic, group, partitions, share);
      var blocks := Collect(fetched, share, count);
      assert IsRange(partitions) ==> OncePerPartition(fetched);
      forall p | count >= |partitions| && p in partitions
        ensures exists b :: b in blocks && b.partition == p
      {
        var i :| 0 <= i < |partitions| && partitions[i] == p;
        assert fetched[i] in blocks;
      }
      FlushedIsStored(old(storage.log), old(storage.writeBuffer));
      forall b | b in blocks
        ensures Contribution(storage.log, storage.commits, ConsumerKey(group, topic, b.partition), topic,
                             if count / |partitions| == 0 then 1 else count / |partitions|, b)
      {
        FetchedIs(storage.log, storage.commits, group, topic, count, |partitions|, b);
      }
      if Total(blocks) < count {
        forall p | p in partitions
          ensures exists b :: b in blocks && b.partition == p
        {
          var i :| 0 <= i < |partitions| && partitions[i] == p;
          assert fetched[i] in blocks;
        }
      }
      if count > 0 && AnyAwaits(storage.log, storage.commits, group, topic, partitions) {
        NotEmpty(storage.log, storage.commits, group, topic, count, partitions, blocks);
      }
      r := Consumed(blocks);
    }
  }

  function Below(n: nat): (r: set<nat>)
    ensures forall i :: i in r <==> 0 <= i < n
    ensures |r| == n
  {
    if n == 0 then {} else Below(n - 1) + {n - 1}
  }

  /** Takes the contributions in any order until there are enough messages. */
  method Collect(fetched: seq<Block>, share: nat, count: nat) returns (blocks: seq<Block>)
    requires fetched != [] && share == Share(count, |fetched|)
    requires forall i :: 0 <= i < |fetched| ==> |fetched[i].records| <= share
    ensures forall b :: b in blocks ==> b in fetched
    ensures Total(blocks) <= if count == 0 then 1 else count
    ensures count >= |fetched| ==> forall i :: 0 <= i < |fetched| ==> fetched[i] in blocks
    ensures OncePerPartition(fetched) ==> OncePerPartition(blocks)
    ensures Total(blocks) >= count || forall i :: 0 <= i < |fetched| ==> fetched[i] in blocks
    ensures blocks != [] && forall j :: 0 < j < |blocks| ==> Total(blocks[..j]) < count
  {
    hide Share, Total, Collected, OncePerPartition;
    blocks := [];
    var pending := Below(|fetched|);
    ghost var order: seq<nat> := [];
    var total := 0;
    NoneCollected(fetched, share, count);
    NothingTotal();
    while pending != {}
      invariant forall i :: i in pending <==> 0 <= i < |fetched| && i !in order
      invariant Collected(fetched, share, count, blocks, order) && total == Total(blocks)
      invariant total <= |blocks| * share
      invariant order != [] ==> total < count
      invariant order == [] ==> blocks == []
      invariant order != [] ==> blocks != []
      invariant forall j :: 0 < j <= |blocks| ==> Total(blocks[..j]) < count
      decreases |pending|
    {
      var i :| i in pending;
      pending := pending - {i};
      CollectedNext(fetched, share, count, blocks, order, i);
      TakenFewer(fetched, share, count, blocks, order, i);
      BatchBound(count, |fetched|, |blocks|, total, |fetched[i].records|);
      ghost var before := blocks;
      total := total + |fetched[i].records|;
      blocks := blocks + [fetched[i]];
      order := order + [i];
      PrefixesNext(before, fetched[i], count);
      CollectedShare(fetched, share, count, blocks, order);
      if total >= count {
        Enough(fetched, share, count, blocks, order);
        return;
      }
    }
    Enough(fetched, share, count, blocks, order);
    AllCollected(fetched, share, count, blocks, order);
  }

  lemma PrefixesNext(before: seq<Block>, b: Block, count: nat)
    requires forall j :: 0 < j <= |before| ==> Total(before[..j]) < count
    ensures forall j :: 0 < j < |before + [b]| ==> Total((before + [b])[..j]) < count
    ensures Total(before + [b]) < count ==> forall j :: 0 < j <= |before + [b]| ==> Total((before + [b])[..j]) < count
  {
    hide Total;
    forall j | 0 < j <= |before|
      ensures (before + [b])[..j] == before[..j]
    {
    }
    assert (before + [b])[..|before| + 1] == before + [b];
  }

  lemma AllCollected(fetched: seq<Block>, share: nat, count: nat, blocks: seq<Block>, order: seq<nat>)
    requires Collected(fetched, share, count, blocks, order) && forall i :: 0 <= i < |fetched| ==> i in order
    ensures forall i :: 0 <= i < |fetched| ==> fetched[i] in blocks
  {
    hide Total;
    forall i | 0 <= i < |fetched|
      ensures fetched[i] in blocks
    {
      assert i in order;
      var k :| 0 <= k < |order| && order[k] == i;
      assert blocks[k] == fetched[i];
    }
  }

  lemma NothingTotal()
    ensures Total([]) == 0
  {
  }

  lemma CollectedShare(fetched: seq<Block>, share: nat, count: nat, blocks: seq<Block>, order: seq<nat>)
    requires Collected(fetched, share, count, blocks, order)
    ensures Total(blocks) <= |blocks| * share && |blocks| == |order|
  {
  }

  lemma TakenFewer(fetched: seq<Block>, share: nat, count: nat, blocks: seq<Block>, order: seq<nat>, i: nat)
    requires Collected(fetched, share, count, blocks, order) && i < |fetched| && i !in order
    ensures |blocks| < |fetched| && |blocks| == |order|
  {
    DistinctFewer(order, i, |fetched|);
  }

  lemma {:induction false} DistinctFewer(order: seq<nat>, i: nat, n: nat)
    requires forall k :: 0 <= k < |order| ==> order[k] < n
    requires forall j, k :: 0 <= j < k < |order| ==> order[j] != order[k]
    requires i < n && i !in order
    ensures |order| < n
  {
    var taken := set k | 0 <= k < |order| :: order[k];
    SizeOfDistinct(order);
    assert taken <= Below(n) - {i};
    SubsetSize(taken, Below(n) - {i});
  }

  lemma {:induction false} SubsetSize(a: set<nat>, b: set<nat>)
    requires a <= b
    ensures |a| <= |b|
    decreases |a|
  {
    if a != {} {
      var x :| x in a;
      SubsetSize(a - {x}, b - {x});
    }
  }

  lemma {:induction false} SizeOfDistinct(order: seq<nat>)
    requires forall j, k :: 0 <= j < k < |order| ==> order[j] != order[k]
    ensures |set k | 0 <= k < |order| :: order[k]| == |order|
    decreases |order|
  {
    if order != [] {
      var n := |order| - 1;
      var init := order[..n];
      SizeOfDistinct(init);
      assert (set k | 0 <= k < |order| :: order[k]) == (set k | 0 <= k < n :: init[k]) + {order[n]};
    }
  }

  lemma Enough(fetched: seq<Block>, share: nat, count: nat, blocks: seq<Block>, order: seq<nat>)
    requires fetched != [] && share == Share(count, |fetched|) && Collected(fetched, share, count, blocks, order)
    requires (forall i :: 0 <= i < |fetched| ==> i in order) || count <= Total(blocks)
    ensures forall b :: b in blocks ==> b in fetched
    ensures count >= |fetched| ==> forall i :: 0 <= i < |fetched| ==> fetched[i] in blocks
    ensures OncePerPartition(fetched) ==> OncePerPartition(blocks)
  {
    hide Share, Total;
    if OncePerPartition(fetched) {
      forall j, k | 0 <= j < k < |blocks|
        ensures blocks[j].partition != blocks[k].partition
      {
        assert order[j] != order[k];
      }
    }
    forall i | 0 <= i < |fetched| && count >= |fetched|
      ensures fetched[i] in blocks
    {
      if i !in order {
        DistinctFewer(order, i, |fetched|);
        FullEarly(count, |fetched|, |blocks|, Total(blocks));
      } else {
        var k :| 0 <= k < |order| && order[k] == i;
        assert blocks[k] == fetched[i];
      }
    }
  }
}
