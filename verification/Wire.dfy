/** The binary protocol: what each request means as bytes, what the decoders accept, and when a
    request survives the trip. */
module Wire {
  import opened ByteStrings

  const OP_SET: byte := 0x01
  const OP_GET: byte := 0x02
  const OP_DEL: byte := 0x03
  const OP_EXISTS: byte := 0x04
  const OP_INCR: byte := 0x05
  const OP_DECR: byte := 0x06
  const OP_MSET: byte := 0x10
  const OP_MGET: byte := 0x11
  const OP_MDEL: byte := 0x12
  const OP_Q_PUSH: byte := 0x20
  const OP_Q_POP: byte := 0x21
  const OP_Q_PEEK: byte := 0x22
  const OP_Q_LEN: byte := 0x23
  const OP_Q_CLEAR: byte := 0x24
  const OP_S_PUBLISH: byte := 0x30
  const OP_S_CONSUME: byte := 0x31
  const OP_S_COMMIT: byte := 0x32
  const OP_S_CREATE_TOPIC: byte := 0x33
  const OP_S_SUBSCRIBE: byte := 0x34
  const OP_S_UNSUBSCRIBE: byte := 0x35
  const OP_S_PUBLISH_BATCH: byte := 0x37
  const OP_DOC_INSERT: byte := 0x40
  const OP_DOC_FIND: byte := 0x41
  const OP_DOC_UPDATE: byte := 0x42
  const OP_DOC_DELETE: byte := 0x43
  const OP_DOC_INDEX: byte := 0x44

  const MAX_BATCH_SIZE := 10000

  predicate IsKeyValueOp(op: byte) {
    op in {OP_SET, OP_Q_PUSH, OP_DOC_INSERT, OP_DOC_FIND, OP_DOC_UPDATE, OP_DOC_DELETE}
  }

  predicate IsSingleOp(op: byte) {
    op in {OP_GET, OP_DEL, OP_EXISTS, OP_INCR, OP_DECR, OP_Q_POP, OP_Q_PEEK, OP_Q_LEN, OP_Q_CLEAR}
  }

  datatype BatchMessage = BatchMessage(partition: int, key: Bytes, value: Bytes)

  /** A request, by the shape of its payload.  In a KeyValue the name is a key, a queue or a collection. */
  datatype Request =
    | KeyValue(op: byte, name: Bytes, body: Bytes)
    | Single(op: byte, name: Bytes)
    | MSet(keys: seq<Bytes>, values: seq<Bytes>)
    | MKeys(op: byte, keys: seq<Bytes>)
    | Publish(topic: Bytes, partition: int, key: Bytes, value: Bytes)
    | Consume(topic: Bytes, group: Bytes, consumer: Bytes, count: int)
    | CommitOffset(topic: Bytes, group: Bytes, partition: int, offset: Int64)
    | CreateTopic(topic: Bytes, partitions: int, retentionMs: Int64)
    | Membership(op: byte, topic: Bytes, group: Bytes, consumer: Bytes)
    | PublishBatch(topic: Bytes, messages: seq<BatchMessage>)
    | DocIndex(collection: Bytes, field: Bytes)

  /** The operation code goes with the shape. */
  predicate WellKinded(r: Request) {
    match r
    case KeyValue(op, _, _) => IsKeyValueOp(op)
    case Single(op, _) => IsSingleOp(op)
    case MSet(keys, values) => |keys| == |values|
    case MKeys(op, _) => op in {OP_MGET, OP_MDEL}
    case Membership(op, _, _, _) => op in {OP_S_SUBSCRIBE, OP_S_UNSUBSCRIBE}
    case _ => true
  }

  function OpOf(r: Request): byte {
    match r
    case KeyValue(op, _, _) => op
    case Single(op, _) => op
    case MSet(_, _) => OP_MSET
    case MKeys(op, _) => op
    case Publish(_, _, _, _) => OP_S_PUBLISH
    case Consume(_, _, _, _) => OP_S_CONSUME
    case CommitOffset(_, _, _, _) => OP_S_COMMIT
    case CreateTopic(_, _, _) => OP_S_CREATE_TOPIC
    case Membership(op, _, _, _) => op
    case PublishBatch(_, _) => OP_S_PUBLISH_BATCH
    case DocIndex(_, _) => OP_DOC_INDEX
  }

  // ---------- payloads ----------

  function PairsBytes(keys: seq<Bytes>, values: seq<Bytes>): Bytes
    requires |keys| == |values|
  {
    if keys == [] then [] else Field16(keys[0], Field32(values[0], PairsBytes(keys[1..], values[1..])))
  }

  function KeysBytes(keys: seq<Bytes>): Bytes {
    if keys == [] then [] else Field16(keys[0], KeysBytes(keys[1..]))
  }

  function MessagesBytes(ms: seq<BatchMessage>): Bytes {
    if ms == [] then []
    else U32(ms[0].partition) + Field16(ms[0].key, Field32(ms[0].value, MessagesBytes(ms[1..])))
  }

  function PayloadOf(r: Request): Bytes
    requires WellKinded(r)
  {
    match r
    case KeyValue(_, name, body) => Field16(name, Field32(body, []))
    case Single(_, name) => Field16(name, [])
    case MSet(keys, values) => U16(|keys|) + PairsBytes(keys, values)
    case MKeys(_, keys) => U16(|keys|) + KeysBytes(keys)
    case Publish(topic, partition, key, value) => Field16(topic, U32(partition) + Field16(key, Field32(value, [])))
    case Consume(topic, group, consumer, count) => Field16(topic, Field16(group, Field16(consumer, U32(count) + [])))
    case CommitOffset(topic, group, partition, offset) =>
      Field16(topic, Field16(group, U32(partition) + (U64(offset) + [])))
    case CreateTopic(topic, partitions, retentionMs) => Field16(topic, U32(partitions) + (U64(retentionMs) + []))
    case Membership(_, topic, group, consumer) => Field16(topic, Field16(group, Field16(consumer, [])))
    case PublishBatch(topic, messages) => Field16(topic, U32(|messages|) + MessagesBytes(messages))
    case DocIndex(collection, field) => Field16(collection, Field16(field, []))
  }

  predicate Short16(s: Bytes) {
    |s| < TWO_16
  }

  predicate Short32(s: Bytes) {
    |s| < TWO_32
  }

  predicate FitsU32(n: int) {
    0 <= n < TWO_32
  }

  predicate AllShort16(ss: seq<Bytes>) {
    forall i :: 0 <= i < |ss| ==> Short16(ss[i])
  }

  predicate AllShort32(ss: seq<Bytes>) {
    forall i :: 0 <= i < |ss| ==> Short32(ss[i])
  }

  predicate MessageFits(m: BatchMessage) {
    FitsU32(m.partition) && Short16(m.key) && Short32(m.value)
  }

  predicate MessagesFit(ms: seq<BatchMessage>) {
    forall i :: 0 <= i < |ms| ==> MessageFits(ms[i])
  }

  /** The requests whose fields fit the widths they are sent in.  A lone name is two bytes tighter than
      elsewhere, because its decoder adds its length to 2 in 16 bits. */
  predicate Fits(r: Request) {
    match r
    case KeyValue(_, name, body) => Short16(name) && Short32(body)
    case Single(_, name) => |name| <= 65533
    case MSet(keys, values) => |keys| < TWO_16 && AllShort16(keys) && AllShort32(values)
    case MKeys(_, keys) => |keys| < TWO_16 && AllShort16(keys)
    case Publish(topic, partition, key, value) => Short16(topic) && FitsU32(partition) && Short16(key) && Short32(value)
    case Consume(topic, group, consumer, count) =>
      Short16(topic) && Short16(group) && Short16(consumer) && FitsU32(count)
    case CommitOffset(topic, group, partition, _) => Short16(topic) && Short16(group) && FitsU32(partition)
    case CreateTopic(topic, partitions, _) => Short16(topic) && FitsU32(partitions)
    case Membership(_, topic, group, consumer) => Short16(topic) && Short16(group) && Short16(consumer)
    case PublishBatch(topic, messages) => Short16(topic) && |messages| <= MAX_BATCH_SIZE && MessagesFit(messages)
    case DocIndex(collection, field) => Short16(collection) && Short16(field)
  }

  // ---------- decoders ----------

  /** Every way for a field to be incomplete is an invalid payload. */
  function Field<T>(t: Taken<T>): Decoded<(T, Bytes)> {
    if t.Took? then Decoded.Ok((t.value, t.rest)) else Malformed("invalid payload")
  }

  function ParseKeyValue(op: byte, p: Bytes): Decoded<Request> {
    var (name, r1) :- Field(TakeStr16(p));
    var (body, r2) :- Field(TakeStr32(r1));
    Decoded.Ok(KeyValue(op, name, body))
  }

  /** The end of a lone name is computed in 16 bits and can fall before its start. */
  function ParseSingle(op: byte, p: Bytes): Decoded<Request> {
    if |p| < 2 then Malformed("invalid payload")
    else
      var end := (2 + GetU16(p, 0)) % 0x1_0000;
      if |p| < end then Malformed("invalid payload")
      else if end < 2 then Panic
      else Decoded.Ok(Single(op, p[2..end]))
  }

  function ParsePairs(d: Bytes, n: nat): Decoded<(seq<Bytes>, seq<Bytes>)> {
    if n == 0 then Decoded.Ok(([], []))
    else
      var (key, r1) :- Field(TakeStr16(d));
      var (value, r2) :- Field(TakeStr32(r1));
      var (keys, values) :- ParsePairs(r2, n - 1);
      Decoded.Ok(([key] + keys, [value] + values))
  }

  function ParseKeys(d: Bytes, n: nat): Decoded<seq<Bytes>> {
    if n == 0 then Decoded.Ok([])
    else
      var (key, r1) :- Field(TakeStr16(d));
      var keys :- ParseKeys(r1, n - 1);
      Decoded.Ok([key] + keys)
  }

  function ParseMessages(d: Bytes, n: nat): Decoded<seq<BatchMessage>> {
    if n == 0 then Decoded.Ok([])
    else
      var (partition, r1) :- Field(TakeU32(d));
      var (key, r2) :- Field(TakeStr16(r1));
      var (value, r3) :- Field(TakeStr32(r2));
      var ms :- ParseMessages(r3, n - 1);
      Decoded.Ok([BatchMessage(partition, key, value)] + ms)
  }

  function ParseMSet(p: Bytes): Decoded<Request> {
    var (count, r1) :- Field(TakeU16(p));
    var (keys, values) :- ParsePairs(r1, count);
    Decoded.Ok(MSet(keys, values))
  }

  function ParseMKeys(op: byte, p: Bytes): Decoded<Request> {
    var (count, r1) :- Field(TakeU16(p));
    var keys :- ParseKeys(r1, count);
    Decoded.Ok(MKeys(op, keys))
  }

  function ParsePublish(p: Bytes): Decoded<Request> {
    var (topic, r1) :- Field(TakeStr16(p));
    var (partition, r2) :- Field(TakeU32(r1));
    var (key, r3) :- Field(TakeStr16(r2));
    var (value, r4) :- Field(TakeStr32(r3));
    Decoded.Ok(Publish(topic, partition, key, value))
  }

  function ParseConsume(p: Bytes): Decoded<Request> {
    var (topic, r1) :- Field(TakeStr16(p));
    var (group, r2) :- Field(TakeStr16(r1));
    var (consumer, r3) :- Field(TakeStr16(r2));
    var (count, r4) :- Field(TakeU32(r3));
    Decoded.Ok(Consume(topic, group, consumer, count))
  }

  function ParseCommit(p: Bytes): Decoded<Request> {
    var (topic, r1) :- Field(TakeStr16(p));
    var (group, r2) :- Field(TakeStr16(r1));
    var (partition, r3) :- Field(TakeU32(r2));
    var (offset, r4) :- Field(TakeI64(r3));
    Decoded.Ok(CommitOffset(topic, group, partition, offset))
  }

  function ParseCreateTopic(p: Bytes): Decoded<Request> {
    var (topic, r1) :- Field(TakeStr16(p));
    var (partitions, r2) :- Field(TakeU32(r1));
    var (retention, r3) :- Field(TakeI64(r2));
    Decoded.Ok(CreateTopic(topic, partitions, retention))
  }

  function ParseMembership(op: byte, p: Bytes): Decoded<Request> {
    var (topic, r1) :- Field(TakeStr16(p));
    var (group, r2) :- Field(TakeStr16(r1));
    var (consumer, r3) :- Field(TakeStr16(r2));
    Decoded.Ok(Membership(op, topic, group, consumer))
  }

  function ParseDocIndex(p: Bytes): Decoded<Request> {
    var (collection, r1) :- Field(TakeStr16(p));
    var (field, r2) :- Field(TakeStr16(r1));
    Decoded.Ok(DocIndex(collection, field))
  }

  function ParsePublishBatch(p: Bytes): Decoded<Request> {
    var (topic, r1) :- Field(TakeStr16(p));
    var (count, r2) :- Field(TakeU32(r1));
    if count > MAX_BATCH_SIZE then Malformed("batch size exceeds maximum")
    else
      var ms :- ParseMessages(r2, count);
      Decoded.Ok(PublishBatch(topic, ms))
  }

  function ParsePayload(op: byte, p: Bytes): Decoded<Request> {
    if IsKeyValueOp(op) then ParseKeyValue(op, p)
    else if IsSingleOp(op) then ParseSingle(op, p)
    else if op == OP_MSET then ParseMSet(p)
    else if op == OP_MGET || op == OP_MDEL then ParseMKeys(op, p)
    else if op == OP_S_PUBLISH then ParsePublish(p)
    else if op == OP_S_CONSUME then ParseConsume(p)
    else if op == OP_S_COMMIT then ParseCommit(p)
    else if op == OP_S_CREATE_TOPIC then ParseCreateTopic(p)
    else if op == OP_S_PUBLISH_BATCH then ParsePublishBatch(p)
    else if op == OP_S_SUBSCRIBE || op == OP_S_UNSUBSCRIBE then ParseMembership(op, p)
    else if op == OP_DOC_INDEX then ParseDocIndex(p)
    else Malformed("unknown opcode")
  }

  /** The payload of a frame.  Its end, too, is computed in the width of its length field, 32 bits. */
  function PayloadIn(data: Bytes): Decoded<Bytes>
    requires |data| >= 5
  {
    var end := (5 + GetU32(data, 1)) % 0x1_0000_0000;
    if |data| < end then Malformed("incomplete")
    else if end < 5 then Panic
    else Decoded.Ok(data[5..end])
  }

  function ParseRequest(data: Bytes): Decoded<Request> {
    if |data| < 5 then Malformed("request too short")
    else
      var payload :- PayloadIn(data);
      ParsePayload(data[0], payload)
  }

  // ---------- what the decoders accept ----------

  lemma ParseKeyValueExact(op: byte, p: Bytes, r: Request)
    requires IsKeyValueOp(op)
    ensures ParseKeyValue(op, p) == Decoded.Ok(r) <==> r.KeyValue? && r.op == op && Fits(r) && PayloadOf(r) <= p
  {
    hide TakeStr16, TakeStr32, Field16, Field32;
    if r.KeyValue? {
      TakeStr16Exact(p, r.name, Field32(r.body, []));
      TakeStr32Exact(Rest(TakeStr16(p)), r.body, []);
    }
  }

  /** A lone name is accepted up to 65533 bytes; from there on the 16-bit sum wraps around. */
  lemma ParseSingleExact(op: byte, p: Bytes, r: Request)
    requires IsSingleOp(op)
    ensures ParseSingle(op, p) == Decoded.Ok(r) <==> r.Single? && r.op == op && Fits(r) && PayloadOf(r) <= p
  {
    hide Field16;
    if r.Single? {
      TakeStr16Exact(p, r.name, []);
    }
  }

  /** A lone name of 65534 or 65535 bytes makes its decoder panic; any other incomplete one is an error. */
  lemma ParseSingleEnds(op: byte, p: Bytes)
    ensures ParseSingle(op, p) == Panic <==> |p| >= 2 && GetU16(p, 0) >= 65534
                                             && |p| >= GetU16(p, 0) - 65534
    ensures ParseSingle(op, p).Malformed? <==> |p| < 2 || (GetU16(p, 0) < 65534 && |p| < 2 + GetU16(p, 0))
  {
    hide GetU16;
  }

  /** A payload length of which too little is there is an error; one that leaves no room for the header in 32 bits
      makes the decoder panic. */
  lemma PayloadEnds(data: Bytes)
    requires |data| >= 5
    ensures PayloadIn(data) == Panic <==> GetU32(data, 1) >= TWO_32 - 5
    ensures PayloadIn(data).Malformed? <==> GetU32(data, 1) < TWO_32 - 5 && |data| < 5 + GetU32(data, 1)
  {
    hide GetU32;
  }

  lemma {:induction false} ParsePairsExact(d: Bytes, n: nat, keys: seq<Bytes>, values: seq<Bytes>)
    requires |keys| == |values|
    ensures ParsePairs(d, n) == Decoded.Ok((keys, values))
       <==> |keys| == n && AllShort16(keys) && AllShort32(values) && PairsBytes(keys, values) <= d
    decreases n
  {
    hide TakeStr16, TakeStr32, Field16, Field32;
    if n > 0 && keys != [] {
      var x := PairsBytes(keys[1..], values[1..]);
      TakeStr16Exact(d, keys[0], Field32(values[0], x));
      var r1 := Rest(TakeStr16(d));
      TakeStr32Exact(r1, values[0], x);
      var r2 := Rest(TakeStr32(r1));
      ParsePairsExact(r2, n - 1, keys[1..], values[1..]);
      AllShortNext(keys);
      AllShortNext(values);
      var rest := ParsePairs(r2, n - 1);
      if TakeStr16(d).Took? && TakeStr32(r1).Took? && rest.Ok? {
        Prepended(TakeStr16(d).value, rest.value.0, keys);
        Prepended(TakeStr32(r1).value, rest.value.1, values);
      }
    }
  }

  lemma AllShortNext(ss: seq<Bytes>)
    requires ss != []
    ensures AllShort16(ss) <==> Short16(ss[0]) && AllShort16(ss[1..])
    ensures AllShort32(ss) <==> Short32(ss[0]) && AllShort32(ss[1..])
  {
    assert forall i :: 0 <= i < |ss| - 1 ==> ss[1..][i] == ss[i + 1];
    assert forall i :: 1 <= i < |ss| ==> ss[i] == ss[1..][i - 1];
  }

  lemma Prepended<T>(x: T, t: seq<T>, s: seq<T>)
    requires s != []
    ensures [x] + t == s <==> x == s[0] && t == s[1..]
  {
    assert ([x] + t)[1..] == t;
    assert s == [s[0]] + s[1..];
  }

  lemma {:induction false} ParseKeysExact(d: Bytes, n: nat, keys: seq<Bytes>)
    ensures ParseKeys(d, n) == Decoded.Ok(keys) <==> |keys| == n && AllShort16(keys) && KeysBytes(keys) <= d
    decreases n
  {
    hide TakeStr16, Field16;
    if n > 0 && keys != [] {
      TakeStr16Exact(d, keys[0], KeysBytes(keys[1..]));
      ParseKeysExact(Rest(TakeStr16(d)), n - 1, keys[1..]);
      AllShortNext(keys);
      var rest := ParseKeys(Rest(TakeStr16(d)), n - 1);
      if TakeStr16(d).Took? && rest.Ok? {
        Prepended(TakeStr16(d).value, rest.value, keys);
      }
    }
  }

  lemma {:induction false} ParseMessagesExact(d: Bytes, n: nat, ms: seq<BatchMessage>)
    ensures ParseMessages(d, n) == Decoded.Ok(ms) <==> |ms| == n && MessagesFit(ms) && MessagesBytes(ms) <= d
    decreases n
  {
    hide TakeStr16, TakeStr32, TakeU32, Field16, Field32;
    if n > 0 && ms != [] {
      var x3 := MessagesBytes(ms[1..]);
      var x2 := Field32(ms[0].value, x3);
      var x1 := Field16(ms[0].key, x2);
      TakeU32Exact(d, ms[0].partition, x1);
      var r1 := Rest(TakeU32(d));
      TakeStr16Exact(r1, ms[0].key, x2);
      var r2 := Rest(TakeStr16(r1));
      TakeStr32Exact(r2, ms[0].value, x3);
      ParseMessagesExact(Rest(TakeStr32(r2)), n - 1, ms[1..]);
      MessagesFitNext(ms);
      var rest := ParseMessages(Rest(TakeStr32(r2)), n - 1);
      if TakeU32(d).Took? && TakeStr16(r1).Took? && TakeStr32(r2).Took? && rest.Ok? {
        Prepended(BatchMessage(TakeU32(d).value, TakeStr16(r1).value, TakeStr32(r2).value), rest.value, ms);
      }
    }
  }

  lemma MessagesFitNext(ms: seq<BatchMessage>)
    requires ms != []
    ensures MessagesFit(ms) <==> MessageFits(ms[0]) && MessagesFit(ms[1..])
  {
    assert forall i :: 0 <= i < |ms| - 1 ==> ms[1..][i] == ms[i + 1];
    assert forall i :: 1 <= i < |ms| ==> ms[i] == ms[1..][i - 1];
  }

  lemma ParseMSetExact(p: Bytes, r: Request)
    ensures ParseMSet(p) == Decoded.Ok(r) <==> r.MSet? && WellKinded(r) && Fits(r) && PayloadOf(r) <= p
  {
    hide TakeU16, PairsBytes, ParsePairs, AllShort16, AllShort32;
    if r.MSet? && |r.keys| == |r.values| {
      TakeU16Exact(p, |r.keys|, PairsBytes(r.keys, r.values));
      ParsePairsExact(Rest(TakeU16(p)), |r.keys|, r.keys, r.values);
      if TakeU16(p).Took? {
        ParsePairsExact(Rest(TakeU16(p)), TakeU16(p).value, r.keys, r.values);
        var pairs := ParsePairs(Rest(TakeU16(p)), TakeU16(p).value);
        assert pairs.Ok? ==> pairs.value == (pairs.value.0, pairs.value.1);
      }
    } else if TakeU16(p).Took? {
      ParsePairsLengths(Rest(TakeU16(p)), TakeU16(p).value);
    }
  }

  lemma {:induction false} ParsePairsLengths(d: Bytes, n: nat)
    ensures var r := ParsePairs(d, n); r.Ok? ==> |r.value.0| == |r.value.1| == n
    decreases n
  {
    hide TakeStr16, TakeStr32;
    if n > 0 {
      ParsePairsLengths(Rest(TakeStr32(Rest(TakeStr16(d)))), n - 1);
    }
  }

  lemma ParseMKeysExact(op: byte, p: Bytes, r: Request)
    requires op in {OP_MGET, OP_MDEL}
    ensures ParseMKeys(op, p) == Decoded.Ok(r) <==> r.MKeys? && r.op == op && Fits(r) && PayloadOf(r) <= p
  {
    hide TakeU16, KeysBytes, ParseKeys, AllShort16;
    if r.MKeys? {
      TakeU16Exact(p, |r.keys|, KeysBytes(r.keys));
      ParseKeysExact(Rest(TakeU16(p)), |r.keys|, r.keys);
      if TakeU16(p).Took? {
        ParseKeysExact(Rest(TakeU16(p)), TakeU16(p).value, r.keys);
      }
    }
  }

  lemma ParsePublishExact(p: Bytes, r: Request)
    ensures ParsePublish(p) == Decoded.Ok(r) <==> r.Publish? && Fits(r) && PayloadOf(r) <= p
  {
    hide TakeStr16, TakeStr32, TakeU32, Field16, Field32;
    if r.Publish? {
      var x3 := Field32(r.value, []);
      var x2 := Field16(r.key, x3);
      var x1 := U32(r.partition) + x2;
      TakeStr16Exact(p, r.topic, x1);
      var r1 := Rest(TakeStr16(p));
      TakeU32Exact(r1, r.partition, x2);
      var r2 := Rest(TakeU32(r1));
      TakeStr16Exact(r2, r.key, x3);
      TakeStr32Exact(Rest(TakeStr16(r2)), r.value, []);
    }
  }

  lemma ParseConsumeExact(p: Bytes, r: Request)
    ensures ParseConsume(p) == Decoded.Ok(r) <==> r.Consume? && Fits(r) && PayloadOf(r) <= p
  {
    hide TakeStr16, TakeU32, Field16;
    if r.Consume? {
      var x3 := U32(r.count) + [];
      var x2 := Field16(r.consumer, x3);
      var x1 := Field16(r.group, x2);
      TakeStr16Exact(p, r.topic, x1);
      var r1 := Rest(TakeStr16(p));
      TakeStr16Exact(r1, r.group, x2);
      var r2 := Rest(TakeStr16(r1));
      TakeStr16Exact(r2, r.consumer, x3);
      TakeU32Exact(Rest(TakeStr16(r2)), r.count, []);
    }
  }

  lemma ParseCommitExact(p: Bytes, r: Request)
    ensures ParseCommit(p) == Decoded.Ok(r) <==> r.CommitOffset? && Fits(r) && PayloadOf(r) <= p
  {
    hide TakeStr16, TakeU32, TakeI64, Field16;
    if r.CommitOffset? {
      var x3 := U64(r.offset) + [];
      var x2 := U32(r.partition) + x3;
      var x1 := Field16(r.group, x2);
      TakeStr16Exact(p, r.topic, x1);
      var r1 := Rest(TakeStr16(p));
      TakeStr16Exact(r1, r.group, x2);
      var r2 := Rest(TakeStr16(r1));
      TakeU32Exact(r2, r.partition, x3);
      TakeI64Exact(Rest(TakeU32(r2)), r.offset, []);
    }
  }

  lemma ParseCreateTopicExact(p: Bytes, r: Request)
    ensures ParseCreateTopic(p) == Decoded.Ok(r) <==> r.CreateTopic? && Fits(r) && PayloadOf(r) <= p
  {
    hide TakeStr16, TakeU32, TakeI64, Field16;
    if r.CreateTopic? {
      var x2 := U64(r.retentionMs) + [];
      var x1 := U32(r.partitions) + x2;
      TakeStr16Exact(p, r.topic, x1);
      var r1 := Rest(TakeStr16(p));
      TakeU32Exact(r1, r.partitions, x2);
      TakeI64Exact(Rest(TakeU32(r1)), r.retentionMs, []);
    }
  }

  lemma ParseMembershipExact(op: byte, p: Bytes, r: Request)
    ensures ParseMembership(op, p) == Decoded.Ok(r)
       <==> r.Membership? && r.op == op && Fits(r)
            && Field16(r.topic, Field16(r.group, Field16(r.consumer, []))) <= p
  {
    hide TakeStr16, Field16;
    if r.Membership? {
      var x2 := Field16(r.consumer, []);
      var x1 := Field16(r.group, x2);
      TakeStr16Exact(p, r.topic, x1);
      var r1 := Rest(TakeStr16(p));
      TakeStr16Exact(r1, r.group, x2);
      TakeStr16Exact(Rest(TakeStr16(r1)), r.consumer, []);
    }
  }

  lemma ParseDocIndexExact(p: Bytes, r: Request)
    ensures ParseDocIndex(p) == Decoded.Ok(r) <==> r.DocIndex? && Fits(r) && PayloadOf(r) <= p
  {
    hide TakeStr16, Field16;
    if r.DocIndex? {
      TakeStr16Exact(p, r.collection, Field16(r.field, []));
      TakeStr16Exact(Rest(TakeStr16(p)), r.field, []);
    }
  }

  lemma ParsePublishBatchExact(p: Bytes, r: Request)
    ensures ParsePublishBatch(p) == Decoded.Ok(r) <==> r.PublishBatch? && Fits(r) && PayloadOf(r) <= p
  {
    hide TakeStr16, TakeU32, Field16, ParseMessages, MessagesBytes, MessagesFit;
    if r.PublishBatch? {
      var n := |r.messages|;
      var x1 := U32(n) + MessagesBytes(r.messages);
      TakeStr16Exact(p, r.topic, x1);
      var r1 := Rest(TakeStr16(p));
      TakeU32Exact(r1, n, MessagesBytes(r.messages));
      var r2 := Rest(TakeU32(r1));
      ParseMessagesExact(r2, n, r.messages);
      if TakeU32(r1).Took? {
        ParseMessagesExact(r2, TakeU32(r1).value, r.messages);
      }
    }
  }

  /** The decoder of a payload accepts exactly the payloads that begin with the encoding of a request
      whose fields fit, and returns that request. */
  lemma ParsePayloadExact(op: byte, p: Bytes, r: Request)
    ensures ParsePayload(op, p) == Decoded.Ok(r) <==> WellKinded(r) && OpOf(r) == op && Fits(r) && PayloadOf(r) <= p
  {
    hide ParseKeyValue, ParseSingle, ParseMSet, ParseMKeys, ParsePublish, ParseConsume, ParseCommit, ParseCreateTopic,
         ParseMembership, ParseDocIndex, ParsePublishBatch, Fits, Field16, Field32, PairsBytes, KeysBytes,
         MessagesBytes;
    if IsKeyValueOp(op) {
      ParseKeyValueExact(op, p, r);
    } else if IsSingleOp(op) {
      ParseSingleExact(op, p, r);
    } else if op == OP_MSET {
      ParseMSetExact(p, r);
    } else if op == OP_MGET || op == OP_MDEL {
      ParseMKeysExact(op, p, r);
    } else if op == OP_S_PUBLISH {
      ParsePublishExact(p, r);
    } else if op == OP_S_CONSUME {
      ParseConsumeExact(p, r);
    } else if op == OP_S_COMMIT {
      ParseCommitExact(p, r);
    } else if op == OP_S_CREATE_TOPIC {
      ParseCreateTopicExact(p, r);
    } else if op == OP_S_PUBLISH_BATCH {
      ParsePublishBatchExact(p, r);
    } else if op == OP_S_SUBSCRIBE || op == OP_S_UNSUBSCRIBE {
      ParseMembershipExact(op, p, r);
    } else if op == OP_DOC_INDEX {
      ParseDocIndexExact(p, r);
    }
  }

  // ---------- frames ----------

  function Frame(op: byte, payload: Bytes): Bytes {
    [op] + (U32(|payload|) + payload)
  }

  /** The batch publish encoder writes no payload length. */
  function Encode(r: Request): Bytes
    requires WellKinded(r)
  {
    if r.PublishBatch? then [OpOf(r)] + PayloadOf(r) else Frame(OpOf(r), PayloadOf(r))
  }

  /** A frame gives its payload back exactly when the payload's length leaves room for the header in
      32 bits; a longer payload is cut short or the decoder panics. */
  lemma FramePayload(op: byte, payload: Bytes)
    ensures |payload| < TWO_32 - 5 ==> PayloadIn(Frame(op, payload)) == Decoded.Ok(payload)
    ensures |payload| >= TWO_32 - 5 ==>
              var d := PayloadIn(Frame(op, payload));
              d.Ok? ==> d.value <= payload && |d.value| < |payload|
  {
    hide U32, GetU32;
    var data := Frame(op, payload);
    assert data[1..5] == U32(|payload|);
    ReadU32(data, 1, |payload|);
    var n := |payload| % TWO_32;
    assert data[5..] == payload;
    if n < TWO_32 - 5 {
      assert |data| == 5 + |payload| && data[5..5 + n] == payload[..n];
    }
    assert payload[..|payload|] == payload;
  }

  /** A framed request is decoded as it was sent exactly when its fields fit and its payload leaves
      room for the header in 32 bits. */
  lemma RequestRoundTrip(r: Request)
    requires WellKinded(r) && !r.PublishBatch?
    ensures ParseRequest(Encode(r)) == Decoded.Ok(r) <==> Fits(r) && |PayloadOf(r)| < TWO_32 - 5
  {
    hide ParsePayload, PayloadOf, Fits, PayloadIn, U32;
    var payload := PayloadOf(r);
    FramePayload(OpOf(r), payload);
    var d := PayloadIn(Encode(r));
    if d.Ok? {
      ParsePayloadExact(OpOf(r), d.value, r);
    }
  }

  /** A batch publish is never decoded as it was sent: the decoder takes the topic length for part of
      a payload length, and the payload it then cuts out starts four bytes too late. */
  lemma PublishBatchNeverRoundTrips(topic: Bytes, messages: seq<BatchMessage>)
    ensures ParseRequest(Encode(PublishBatch(topic, messages))) != Decoded.Ok(PublishBatch(topic, messages))
  {
    hide ParsePayload, PayloadOf, Fits, GetU32;
    var r := PublishBatch(topic, messages);
    var data := Encode(r);
    if |data| >= 5 && PayloadIn(data).Ok? {
      ParsePayloadExact(data[0], PayloadIn(data).value, r);
    }
  }

  /** What follows the operation code of a batch publish does decode as it was sent. */
  lemma PublishBatchPayloadRoundTrips(topic: Bytes, messages: seq<BatchMessage>)
    ensures var r := PublishBatch(topic, messages);
            ParsePublishBatch(Encode(r)[1..]) == Decoded.Ok(r) <==> Fits(r)
  {
    hide ParsePublishBatch, PayloadOf, Fits;
    var r := PublishBatch(topic, messages);
    assert Encode(r)[1..] == PayloadOf(r);
    ParsePublishBatchExact(PayloadOf(r), r);
  }

  // ---------- responses ----------

  const STATUS_OK: byte := 0x00
  const STATUS_ERROR: byte := 0x01
  const STATUS_NOT_FOUND: byte := 0x02
  const STATUS_MULTI_VALUE: byte := 0x04

  datatype Response =
    | OkResponse(value: Bytes)
    | ErrorResponse(message: Bytes)
    | NotFoundResponse
    | MultiResponse(values: seq<Bytes>)

  function ValuesBytes(values: seq<Bytes>): Bytes {
    if values == [] then [] else Field32(values[0], ValuesBytes(values[1..]))
  }

  function MultiPayload(values: seq<Bytes>): Bytes {
    U16(|values|) + ValuesBytes(values)
  }

  function EncodeResponse(r: Response): Bytes {
    match r
    case OkResponse(value) => Frame(STATUS_OK, value)
    case ErrorResponse(message) => Frame(STATUS_ERROR, message)
    case NotFoundResponse => Frame(STATUS_NOT_FOUND, [])
    case MultiResponse(values) => Frame(STATUS_MULTI_VALUE, MultiPayload(values))
  }

  function ParseValues(d: Bytes, n: nat): Decoded<seq<Bytes>> {
    if n == 0 then Decoded.Ok([])
    else
      var (value, r1) :- Field(TakeStr32(d));
      var values :- ParseValues(r1, n - 1);
      Decoded.Ok([value] + values)
  }

  function ParseMulti(p: Bytes): Decoded<Response> {
    var (count, r1) :- Field(TakeU16(p));
    var values :- ParseValues(r1, count);
    Decoded.Ok(MultiResponse(values))
  }

  function ParseResponse(data: Bytes): Decoded<Response> {
    if |data| < 5 then Malformed("response too short")
    else
      var payload :- PayloadIn(data);
      if data[0] == STATUS_OK then Decoded.Ok(OkResponse(payload))
      else if data[0] == STATUS_ERROR then Decoded.Ok(ErrorResponse(payload))
      else if data[0] == STATUS_MULTI_VALUE then ParseMulti(payload)
      else if data[0] == STATUS_NOT_FOUND then Decoded.Ok(NotFoundResponse)
      else Malformed("unknown status")
  }

  lemma {:induction false} ParseValuesExact(d: Bytes, n: nat, values: seq<Bytes>)
    ensures ParseValues(d, n) == Decoded.Ok(values) <==> |values| == n && AllShort32(values) && ValuesBytes(values) <= d
    decreases n
  {
    hide TakeStr32, Field32;
    if n > 0 && values != [] {
      TakeStr32Exact(d, values[0], ValuesBytes(values[1..]));
      ParseValuesExact(Rest(TakeStr32(d)), n - 1, values[1..]);
      AllShortNext(values);
      var rest := ParseValues(Rest(TakeStr32(d)), n - 1);
      if TakeStr32(d).Took? && rest.Ok? {
        Prepended(TakeStr32(d).value, rest.value, values);
      }
    }
  }

  lemma ParseMultiExact(p: Bytes, values: seq<Bytes>)
    ensures ParseMulti(p) == Decoded.Ok(MultiResponse(values))
       <==> |values| < TWO_16 && AllShort32(values) && MultiPayload(values) <= p
  {
    hide TakeU16, ValuesBytes, ParseValues, AllShort32;
    TakeU16Exact(p, |values|, ValuesBytes(values));
    ParseValuesExact(Rest(TakeU16(p)), |values|, values);
    if TakeU16(p).Took? {
      ParseValuesExact(Rest(TakeU16(p)), TakeU16(p).value, values);
    }
  }

  function ResponsePayload(r: Response): Bytes {
    match r
    case OkResponse(value) => value
    case ErrorResponse(message) => message
    case NotFoundResponse => []
    case MultiResponse(values) => MultiPayload(values)
  }

  predicate ResponseFits(r: Response) {
    r.MultiResponse? ==> |r.values| < TWO_16 && AllShort32(r.values)
  }

  /** A response is decoded as it was sent exactly when its parts fit their widths and its payload
      leaves room for the header in 32 bits. */
  lemma ResponseRoundTrip(r: Response)
    ensures ParseResponse(EncodeResponse(r)) == Decoded.Ok(r) <==> ResponseFits(r) && |ResponsePayload(r)| < TWO_32 - 5
  {
    hide MultiPayload, ParseMulti, PayloadIn, U32, AllShort32;
    var data := EncodeResponse(r);
    FramePayload(data[0], ResponsePayload(r));
    var d := PayloadIn(data);
    if d.Ok? && r.MultiResponse? {
      ParseMultiExact(d.value, r.values);
    }
  }
}
