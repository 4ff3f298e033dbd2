/** The key builders: names joined with ':' under a family prefix, and when two
    different records can share a key. */
module Keys {
  import opened ByteStrings
  import opened Decimal

  function Join(a: Bytes, b: Bytes): Bytes {
    a + [COLON] + b
  }

  /** Splitting at the first ':' recovers both parts when the first part has none. */
  lemma FirstColon(a: Bytes, x: Bytes, b: Bytes, y: Bytes)
    requires ColonFree(a) && ColonFree(b)
    ensures Join(a, x) == Join(b, y) <==> a == b && x == y
  {
    var s, t := Join(a, x), Join(b, y);
    assert s[|a|] == COLON && t[|b|] == COLON;
    assert forall i :: 0 <= i < |a| ==> s[i] == a[i] && a[i] in a;
    assert forall i :: 0 <= i < |b| ==> t[i] == b[i] && b[i] in b;
    if s == t {
      assert |a| == |b|;
      assert a == s[..|a|] && b == t[..|b|];
      assert x == s[|a| + 1..] && y == t[|b| + 1..];
    }
  }

  lemma NoColonAfter(x: Bytes, a: Bytes, i: nat)
    requires ColonFree(a)
    ensures |x| < i < |Join(x, a)| ==> Join(x, a)[i] != COLON
  {
    if |x| < i < |Join(x, a)| {
      assert Join(x, a)[i] == a[i - |x| - 1];
    }
  }

  /** Splitting at the last ':' recovers both parts when the last part has none. */
  lemma LastColon(x: Bytes, a: Bytes, y: Bytes, b: Bytes)
    requires ColonFree(a) && ColonFree(b)
    ensures Join(x, a) == Join(y, b) <==> x == y && a == b
  {
    var s, t := Join(x, a), Join(y, b);
    assert s[|x|] == COLON && t[|y|] == COLON;
    NoColonAfter(x, a, |y|);
    NoColonAfter(y, b, |x|);
    if s == t {
      assert |x| == |y|;
      assert x == s[..|x|] && y == t[..|y|];
      assert a == s[|x| + 1..] && b == t[|y| + 1..];
    }
  }

  lemma SamePrefix(p: Bytes, a: Bytes, b: Bytes)
    ensures p + a == p + b <==> a == b
  {
    assert (p + a)[|p|..] == a && (p + b)[|p|..] == b;
  }

  lemma UnderPrefix(head: Bytes, a: Bytes, b: Bytes)
    ensures head + a <= head + b <==> a <= b
  {
    PrefixSplit(head, a, head + b);
    assert (head + b)[|head|..] == b;
  }

  /** The name `r` goes on after `q` with ':' and `s`, and then ends or goes on after another ':'. */
  predicate Nested(q: Bytes, s: Bytes, r: Bytes) {
    r == Join(q, s) || Join(q, Join(s, [])) <= r
  }

  /** A scan of everything under q:s: meets r:t:id exactly when the two are the same place or `r` is nested
      in q:s.  Only `q` and `r` may contain ':'. */
  lemma ScanMeets(q: Bytes, s: Bytes, r: Bytes, t: Bytes, id: Bytes)
    requires ColonFree(s) && ColonFree(t) && ColonFree(id)
    ensures Join(q, Join(s, [])) <= Join(r, Join(t, id)) <==> (q == r && s == t) || Nested(q, s, r)
  {
    var p, k := Join(q, Join(s, [])), Join(r, Join(t, id));
    var last := |p| - 1;
    assert p == Join(q, s) + [COLON] && p[last] == COLON;
    assert k == Join(r, t) + [COLON] + id == r + [COLON] + Join(t, id);
    if p <= k {
      assert k[..|p|] == p && k[last] == COLON;
      NoColonAfter(Join(r, t), id, last);
      NoColonAfter(r, t, last);
      if last == |r| + 1 + |t| {
        assert Join(r, t) == k[..last] == p[..last] == Join(q, s);
        LastColon(q, s, r, t);
      } else if last == |r| {
        assert r == k[..last] == p[..last] == Join(q, s);
      } else {
        BeforeName(r, t, id, last);
        assert p == r[..|p|];
      }
    }
    if Nested(q, s, r) {
      NestedMeets(q, s, r, t, id);
    }
  }

  /** A ':' of r:t:id that is not one of the two that were added lies in `r`. */
  lemma BeforeName(r: Bytes, t: Bytes, id: Bytes, i: nat)
    requires ColonFree(t) && ColonFree(id) && i < |Join(r, Join(t, id))| && Join(r, Join(t, id))[i] == COLON
    requires i != |r| && i != |r| + 1 + |t|
    ensures i < |r|
  {
    var k := Join(r, Join(t, id));
    assert forall j :: |r| < j < |r| + 1 + |t| ==> k[j] == t[j - |r| - 1];
    assert forall j :: |r| + 1 + |t| < j < |k| ==> k[j] == id[j - |r| - |t| - 2];
  }

  lemma NestedMeets(q: Bytes, s: Bytes, r: Bytes, t: Bytes, id: Bytes)
    requires Nested(q, s, r)
    ensures Join(q, Join(s, [])) <= Join(r, Join(t, id))
  {
    var p, k := Join(q, Join(s, [])), Join(r, Join(t, id));
    assert p == Join(q, s) + [COLON];
    if r == Join(q, s) {
      assert k == p + Join(t, id);
    } else {
      assert r <= k;
      assert p == r[..|p|] == k[..|p|];
    }
  }

  // ---------- queue store ----------

  function MetadataKey(queue: Bytes): Bytes {
    Ascii("queue:meta:") + queue
  }

  function DataKey(queue: Bytes, seqId: int): Bytes
    requires 0 <= seqId < TWO_64
  {
    Ascii("queue:data:") + Join(queue, Pad20(seqId))
  }

  function MessageKey(queue: Bytes, id: Bytes): Bytes {
    Ascii("queue:msg:") + Join(queue, id)
  }

  function IndexPrefix(queue: Bytes, state: int): Bytes {
    Ascii("queue:idx:") + Join(queue, Join(DecInt(state), []))
  }

  function IndexKey(queue: Bytes, state: int, id: Bytes): Bytes {
    Ascii("queue:idx:") + Join(queue, Join(DecInt(state), id))
  }

  function ConfigKey(queue: Bytes): Bytes {
    Ascii("queue:config:") + queue
  }

  predicate InFamily(k: Bytes, family: string) {
    Ascii(family) <= k
  }

  /** The five families never meet: each of these positions tells some of them apart. */
  lemma QueueFamilies(k: Bytes)
    ensures InFamily(k, "queue:meta:") ==> k[6] == 109 && k[7] == 101
    ensures InFamily(k, "queue:msg:") ==> k[6] == 109 && k[7] == 115
    ensures InFamily(k, "queue:idx:") ==> k[6] == 105
    ensures InFamily(k, "queue:data:") ==> k[6] == 100
    ensures InFamily(k, "queue:config:") ==> k[6] == 99
  {
    hide InFamily;
    FamilyByte(k, "queue:meta:", 6);
    FamilyByte(k, "queue:meta:", 7);
    FamilyByte(k, "queue:msg:", 6);
    FamilyByte(k, "queue:msg:", 7);
    FamilyByte(k, "queue:idx:", 6);
    FamilyByte(k, "queue:data:", 6);
    FamilyByte(k, "queue:config:", 6);
  }

  lemma FamilyByte(k: Bytes, family: string, i: nat)
    requires i < |family|
    ensures InFamily(k, family) ==> |k| > i && k[i] == family[i] as int % 256
  {
  }

  /** The families that the acknowledging queue writes to. */
  predicate AckFamily(k: Bytes) {
    InFamily(k, "queue:msg:") || InFamily(k, "queue:idx:") || InFamily(k, "queue:config:")
  }

  /** The families that the first-in first-out queue writes to. */
  predicate LegacyFamily(k: Bytes) {
    InFamily(k, "queue:meta:") || InFamily(k, "queue:data:")
  }

  lemma FamiliesApart(k: Bytes)
    ensures !(AckFamily(k) && LegacyFamily(k))
    ensures !(InFamily(k, "queue:msg:") && InFamily(k, "queue:idx:"))
    ensures !(InFamily(k, "queue:msg:") && InFamily(k, "queue:config:"))
    ensures !(InFamily(k, "queue:idx:") && InFamily(k, "queue:config:"))
    ensures !(InFamily(k, "queue:meta:") && InFamily(k, "queue:data:"))
  {
    QueueFamilies(k);
  }

  lemma MetadataKeyInjective(q: Bytes, r: Bytes)
    ensures MetadataKey(q) == MetadataKey(r) <==> q == r
  {
    SamePrefix(Ascii("queue:meta:"), q, r);
  }

  /** A legacy item's key determines its queue and position, whatever the queue is called:
      the sequence number is a fixed-width suffix. */
  lemma DataKeyInjective(q: Bytes, m: int, r: Bytes, n: int)
    requires 0 <= m < TWO_64 && 0 <= n < TWO_64
    ensures DataKey(q, m) == DataKey(r, n) <==> q == r && m == n
  {
    SamePrefix(Ascii("queue:data:"), Join(q, Pad20(m)), Join(r, Pad20(n)));
    LastColon(q, Pad20(m), r, Pad20(n));
    Pad20Order(m, n);
  }

  /** A message's key determines its queue and id when the queue names hold no ':'. */
  lemma MessageKeyInjective(q: Bytes, i: Bytes, r: Bytes, j: Bytes)
    requires ColonFree(q) && ColonFree(r)
    ensures MessageKey(q, i) == MessageKey(r, j) <==> q == r && i == j
  {
    SamePrefix(Ascii("queue:msg:"), Join(q, i), Join(r, j));
    FirstColon(q, i, r, j);
  }

  lemma IndexKeyInjective(q: Bytes, s: int, i: Bytes, r: Bytes, t: int, j: Bytes)
    requires ColonFree(q) && ColonFree(r)
    ensures IndexKey(q, s, i) == IndexKey(r, t, j) <==> q == r && s == t && i == j
  {
    SamePrefix(Ascii("queue:idx:"), Join(q, Join(DecInt(s), i)), Join(r, Join(DecInt(t), j)));
    FirstColon(q, Join(DecInt(s), i), r, Join(DecInt(t), j));
    FirstColon(DecInt(s), i, DecInt(t), j);
    if DecInt(s) == DecInt(t) {
      DecIntInjective(s, t);
    }
  }

  lemma ConfigKeyInjective(q: Bytes, r: Bytes)
    ensures ConfigKey(q) == ConfigKey(r) <==> q == r
  {
    SamePrefix(Ascii("queue:config:"), q, r);
  }

  /** A key found by a scan of one state's index is the index key of the id that follows the prefix. */
  lemma IndexScanKey(q: Bytes, state: int, k: Bytes)
    ensures IndexPrefix(q, state) <= k <==>
            |IndexPrefix(q, state)| <= |k| && k == IndexKey(q, state, k[|IndexPrefix(q, state)|..])
  {
    var p := IndexPrefix(q, state);
    if |p| <= |k| {
      var id := k[|p|..];
      assert IndexKey(q, state, id) == p + id;
    }
  }

  lemma IndexKeyIsPrefixed(q: Bytes, state: int, id: Bytes)
    ensures IndexKey(q, state, id) == IndexPrefix(q, state) + id
  {
  }

  /** With ids free of ':', a scan of one state's index meets the entries of another queue exactly when that
      queue's name continues this queue's name with ':' and the state: whatever state and id the entry has. */
  lemma IndexScanMeets(q: Bytes, state: int, r: Bytes, other: int, id: Bytes)
    requires ColonFree(id)
    ensures IndexPrefix(q, state) <= IndexKey(r, other, id) <==>
            (q == r && state == other) || Nested(q, DecInt(state), r)
  {
    hide DecInt, Nested;
    UnderPrefix(Ascii("queue:idx:"), Join(q, Join(DecInt(state), [])), Join(r, Join(DecInt(other), id)));
    ScanMeets(q, DecInt(state), r, DecInt(other), id);
    if DecInt(state) == DecInt(other) {
      DecIntInjective(state, other);
    }
  }

  /** With ids free of ':', queue and id can be read back from a message key, whatever the queue names. */
  lemma MessageKeysApart(q: Bytes, i: Bytes, r: Bytes, j: Bytes)
    requires ColonFree(i) && ColonFree(j)
    ensures MessageKey(q, i) == MessageKey(r, j) <==> q == r && i == j
  {
    SamePrefix(Ascii("queue:msg:"), Join(q, i), Join(r, j));
    LastColon(q, i, r, j);
  }

  // ---------- stream store ----------

  /** The name of a partition's counter and write buffer. */
  function PartitionKey(topic: Bytes, partition: int): Bytes {
    Join(topic, DecInt(partition))
  }

  function RecordPrefix(topic: Bytes, partition: int): Bytes {
    Ascii("stream:msg:") + Join(topic, Join(DecInt(partition), []))
  }

  function RecordKey(topic: Bytes, partition: int, offset: int): Bytes
    requires -TWO_63 <= offset < TWO_63
  {
    Ascii("stream:msg:") + Join(topic, Join(DecInt(partition), Pad20(offset)))
  }

  function ConsumerKey(group: Bytes, topic: Bytes, partition: int): Bytes {
    Ascii("stream:consumer:") + Join(group, Join(topic, DecInt(partition)))
  }

  lemma PartitionKeyInjective(t: Bytes, p: int, u: Bytes, r: int)
    ensures PartitionKey(t, p) == PartitionKey(u, r) <==> t == u && p == r
  {
    LastColon(t, DecInt(p), u, DecInt(r));
    if DecInt(p) == DecInt(r) {
      DecIntInjective(p, r);
    }
  }

  /** A record's key determines topic, partition and offset, whatever the topic is called. */
  lemma RecordKeyInjective(t: Bytes, p: int, m: int, u: Bytes, r: int, n: int)
    requires 0 <= m < TWO_63 && 0 <= n < TWO_63
    ensures RecordKey(t, p, m) == RecordKey(u, r, n) <==> t == u && p == r && m == n
  {
    var a, b := Pad20(m), Pad20(n);
    SamePrefix(Ascii("stream:msg:"), Join(t, Join(DecInt(p), a)), Join(u, Join(DecInt(r), b)));
    assert Join(t, Join(DecInt(p), a)) == Join(PartitionKey(t, p), a);
    assert Join(u, Join(DecInt(r), b)) == Join(PartitionKey(u, r), b);
    LastColon(PartitionKey(t, p), a, PartitionKey(u, r), b);
    PartitionKeyInjective(t, p, u, r);
    Pad20Order(m, n);
  }

  lemma RecordKeyIsPrefixed(topic: Bytes, partition: int, offset: int)
    requires -TWO_63 <= offset < TWO_63
    ensures RecordKey(topic, partition, offset) == RecordPrefix(topic, partition) + Pad20(offset)
  {
  }

  function OffsetKey(topic: Bytes, partition: int): Bytes {
    Ascii("stream:offset:") + PartitionKey(topic, partition)
  }

  predicate RecordFamily(k: Bytes) {
    InFamily(k, "stream:msg:")
  }

  predicate ConsumerFamily(k: Bytes) {
    InFamily(k, "stream:consumer:")
  }

  lemma StreamFamilies(k: Bytes)
    ensures !(RecordFamily(k) && ConsumerFamily(k))
    ensures InFamily(k, "stream:offset:") ==> !RecordFamily(k) && !ConsumerFamily(k)
  {
    FamilyByte(k, "stream:msg:", 7);
    FamilyByte(k, "stream:consumer:", 7);
    FamilyByte(k, "stream:offset:", 7);
  }

  lemma StreamKeys(g: Bytes, t: Bytes, p: int, n: int)
    requires -TWO_63 <= n < TWO_63
    ensures RecordFamily(RecordKey(t, p, n)) && RecordFamily(RecordPrefix(t, p))
    ensures ConsumerFamily(ConsumerKey(g, t, p))
    ensures InFamily(OffsetKey(t, p), "stream:offset:")
  {
  }

  /** Among colon-free topics a prefix scan meets only its own topic and partition. */
  lemma RecordPrefixExact(t: Bytes, p: int, u: Bytes, r: int, n: int)
    requires ColonFree(t) && ColonFree(u) && 0 <= n < TWO_63
    ensures RecordPrefix(t, p) <= RecordKey(u, r, n) <==> t == u && p == r
  {
    hide Pad20, DecInt, Ascii, ColonFree;
    var k := RecordKey(u, r, n);
    var pre := RecordPrefix(t, p);
    if pre <= k {
      var x := k[|pre|..];
      var head := Ascii("stream:msg:");
      assert k == pre + x == head + Join(t, Join(DecInt(p), x));
      SamePrefix(head, Join(t, Join(DecInt(p), x)), Join(u, Join(DecInt(r), Pad20(n))));
      FirstColon(t, Join(DecInt(p), x), u, Join(DecInt(r), Pad20(n)));
      FirstColon(DecInt(p), x, DecInt(r), Pad20(n));
      DecIntInjective(p, r);
    } else {
      RecordKeyIsPrefixed(u, r, n);
    }
  }

  /** For any topics, a scan of one partition meets the messages of another topic exactly when that topic's
      name continues this one's with ':' and the partition: whatever partition and offset they have. */
  lemma RecordScanMeets(t: Bytes, p: int, u: Bytes, r: int, n: int)
    requires 0 <= n < TWO_63
    ensures RecordPrefix(t, p) <= RecordKey(u, r, n) <==> (t == u && p == r) || Nested(t, DecInt(p), u)
  {
    hide DecInt, Nested, Pad20;
    UnderPrefix(Ascii("stream:msg:"), Join(t, Join(DecInt(p), [])), Join(u, Join(DecInt(r), Pad20(n))));
    ScanMeets(t, DecInt(p), u, DecInt(r), Pad20(n));
    if DecInt(p) == DecInt(r) {
      DecIntInjective(p, r);
    }
  }

  /** A consumer offset's key determines group, topic and partition when the group has no ':'. */
  lemma ConsumerKeyInjective(g: Bytes, t: Bytes, p: int, h: Bytes, u: Bytes, r: int)
    requires ColonFree(g) && ColonFree(h)
    ensures ConsumerKey(g, t, p) == ConsumerKey(h, u, r) <==> g == h && t == u && p == r
  {
    SamePrefix(Ascii("stream:consumer:"), Join(g, PartitionKey(t, p)), Join(h, PartitionKey(u, r)));
    FirstColon(g, PartitionKey(t, p), h, PartitionKey(u, r));
    PartitionKeyInjective(t, p, u, r);
  }
}
