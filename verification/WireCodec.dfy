/** The encoders and decoders of the binary protocol as they run: a buffer of a size computed beforehand
    is filled at a moving position, and a payload is read at a moving position.  Each is proved against
    the meaning that module Wire gives to requests and responses. */
module WireCodec {
  import opened ByteStrings
  import opened Buffers
  import opened Wire

  // ---------- request encoders ----------

  /** A frame whose header announces `n` bytes of payload. */
  function FrameWith(op: byte, n: int, payload: Bytes): Bytes {
    [op] + (U32(n) + payload)
  }

  lemma FramedIs(op: byte, n: int, payload: Bytes)
    requires |FrameWith(op, n, payload)| == 5 + n
    ensures FrameWith(op, n, payload) == Frame(op, payload)
  {
    hide U32;
  }

  /** The header that all requests but one begin with. */
  method PutHeader(buf: array<byte>, op: byte, payloadLen: int, ghost payload: Bytes) returns (next: nat)
    requires buf.Length >= 5
    modifies buf
    ensures next == 5 && Writing(buf, next, payload, FrameWith(op, payloadLen, payload))
  {
    hide U32, Writing;
    ghost var whole := FrameWith(op, payloadLen, payload);
    Begin(buf, whole);
    next := PutByte(buf, 0, op, U32(payloadLen) + payload, whole);
    next := PutUint32(buf, next, payloadLen, payload, whole);
  }

  /** SET, QPUSH and the document requests with a JSON body differ only in their operation code. */
  method EncodeKeyValue(op: byte, name: Bytes, body: Bytes) returns (data: Bytes)
    requires IsKeyValueOp(op)
    ensures data == Encode(KeyValue(op, name, body))
  {
    hide *;
    var totalSize := 1 + 4 + 2 + |name| + 4 + |body|;
    ghost var x1 := Field32(body, []);
    ghost var payload := Field16(name, x1);
    var buf := new byte[totalSize];
    var payloadLen := totalSize - 5;
    ghost var whole := FrameWith(op, payloadLen, payload);
    var pos := PutHeader(buf, op, payloadLen, payload);
    pos := PutField16(buf, pos, name, x1, whole);
    pos := PutField32(buf, pos, body, [], whole);
    Filled(buf, pos, whole);
    data := buf[..];
    FramedIs(op, payloadLen, payload);
    KeyValueIs(op, name, body);
  }

  lemma KeyValueIs(op: byte, name: Bytes, body: Bytes)
    requires IsKeyValueOp(op)
    ensures WellKinded(KeyValue(op, name, body))
    ensures Encode(KeyValue(op, name, body)) == Frame(op, Field16(name, Field32(body, [])))
  {
    hide U16, U32, U64, Field16, Field32;
  }

  method EncodeSimple(op: byte, name: Bytes) returns (data: Bytes)
    requires IsSingleOp(op)
    ensures data == Encode(Single(op, name))
  {
    hide *;
    var totalSize := 1 + 4 + 2 + |name|;
    ghost var payload := Field16(name, []);
    var buf := new byte[totalSize];
    var payloadLen := totalSize - 5;
    ghost var whole := FrameWith(op, payloadLen, payload);
    var pos := PutHeader(buf, op, payloadLen, payload);
    pos := PutField16(buf, pos, name, [], whole);
    Filled(buf, pos, whole);
    data := buf[..];
    FramedIs(op, payloadLen, payload);
    SimpleIs(op, name);
  }

  lemma SimpleIs(op: byte, name: Bytes)
    requires IsSingleOp(op)
    ensures WellKinded(Single(op, name))
    ensures Encode(Single(op, name)) == Frame(op, Field16(name, []))
  {
    hide U16, U32, U64, Field16, Field32;
  }

  /** Lists of different lengths are refused with a nil slice, which has no bytes. */
  method EncodeMSet(keys: seq<Bytes>, values: seq<Bytes>) returns (data: Bytes)
    ensures data == if |keys| == |values| then Encode(MSet(keys, values)) else []
  {
    hide *;
    if |keys| != |values| {
      return [];
    }
    PairsFrom(keys, values);
    ghost var pairs := PairsBytes(keys, values);
    var totalSize: nat := 1 + 4 + 2;
    for i := 0 to |keys|
      invariant totalSize + |PairsBytes(keys[i..], values[i..])| == 7 + |pairs|
    {
      NextPair(keys, values, i);
      totalSize := totalSize + 2 + |keys[i]| + 4 + |values[i]|;
    }
    PairsEnd(keys, values);
    var buf := new byte[totalSize];
    var payloadLen := totalSize - 5;
    ghost var whole := FrameWith(OP_MSET, payloadLen, U16(|keys|) + pairs);
    var pos: nat := PutHeader(buf, OP_MSET, payloadLen, U16(|keys|) + pairs);
    pos := PutUint16(buf, pos, |keys|, pairs, whole);
    for i := 0 to |keys|
      invariant pos + |PairsBytes(keys[i..], values[i..])| == buf.Length
      invariant Writing(buf, pos, PairsBytes(keys[i..], values[i..]), whole)
    {
      ghost var rest := PairsBytes(keys[i + 1..], values[i + 1..]);
      NextPair(keys, values, i);
      pos := PutField16(buf, pos, keys[i], Field32(values[i], rest), whole);
      pos := PutField32(buf, pos, values[i], rest, whole);
    }
    Filled(buf, pos, whole);
    MSetFlat(keys, values);
    data := buf[..];
  }

  lemma PairsFrom(keys: seq<Bytes>, values: seq<Bytes>)
    requires |keys| == |values|
    ensures PairsBytes(keys[0..], values[0..]) == PairsBytes(keys, values)
  {
    assert keys[0..] == keys && values[0..] == values;
  }

  lemma PairsEnd(keys: seq<Bytes>, values: seq<Bytes>)
    requires |keys| == |values|
    ensures PairsBytes(keys[|keys|..], values[|keys|..]) == []
  {
  }

  lemma NextPair(keys: seq<Bytes>, values: seq<Bytes>, i: nat)
    requires |keys| == |values| && i < |keys|
    ensures PairsBytes(keys[i..], values[i..]) ==
            Field16(keys[i], Field32(values[i], PairsBytes(keys[i + 1..], values[i + 1..])))
    ensures |PairsBytes(keys[i..], values[i..])| ==
            2 + |keys[i]| + 4 + |values[i]| + |PairsBytes(keys[i + 1..], values[i + 1..])|
  {
    hide U16, U32;
    assert keys[i..][1..] == keys[i + 1..] && values[i..][1..] == values[i + 1..];
  }

  lemma MSetFlat(keys: seq<Bytes>, values: seq<Bytes>)
    requires |keys| == |values|
    ensures WellKinded(MSet(keys, values))
    ensures Encode(MSet(keys, values)) ==
            FrameWith(OP_MSET, 2 + |PairsBytes(keys, values)|, U16(|keys|) + PairsBytes(keys, values))
  {
  }

  /** MGET and MDEL. */
  method EncodeMKeys(op: byte, keys: seq<Bytes>) returns (data: Bytes)
    requires op in {OP_MGET, OP_MDEL}
    ensures data == Encode(MKeys(op, keys))
  {
    hide *;
    KeysFrom(keys);
    ghost var all := KeysBytes(keys);
    var totalSize: nat := 1 + 4 + 2;
    for i := 0 to |keys|
      invariant totalSize + |KeysBytes(keys[i..])| == 7 + |all|
    {
      NextKey(keys, i);
      totalSize := totalSize + 2 + |keys[i]|;
    }
    KeysEnd(keys);
    var buf := new byte[totalSize];
    var payloadLen := totalSize - 5;
    ghost var whole := FrameWith(op, payloadLen, U16(|keys|) + all);
    var pos: nat := PutHeader(buf, op, payloadLen, U16(|keys|) + all);
    pos := PutUint16(buf, pos, |keys|, all, whole);
    for i := 0 to |keys|
      invariant pos + |KeysBytes(keys[i..])| == buf.Length
      invariant Writing(buf, pos, KeysBytes(keys[i..]), whole)
    {
      ghost var rest := KeysBytes(keys[i + 1..]);
      NextKey(keys, i);
      pos := PutField16(buf, pos, keys[i], rest, whole);
    }
    Filled(buf, pos, whole);
    data := buf[..];
    MKeysFlat(op, keys);
  }

  lemma KeysFrom(keys: seq<Bytes>)
    ensures KeysBytes(keys[0..]) == KeysBytes(keys)
  {
    assert keys[0..] == keys;
  }

  lemma KeysEnd(keys: seq<Bytes>)
    ensures KeysBytes(keys[|keys|..]) == []
  {
  }

  lemma NextKey(keys: seq<Bytes>, i: nat)
    requires i < |keys|
    ensures KeysBytes(keys[i..]) == Field16(keys[i], KeysBytes(keys[i + 1..]))
    ensures |KeysBytes(keys[i..])| == 2 + |keys[i]| + |KeysBytes(keys[i + 1..])|
  {
    hide U16;
    assert keys[i..][1..] == keys[i + 1..];
  }

  lemma MKeysFlat(op: byte, keys: seq<Bytes>)
    requires op in {OP_MGET, OP_MDEL}
    ensures WellKinded(MKeys(op, keys))
    ensures Encode(MKeys(op, keys)) == FrameWith(op, 2 + |KeysBytes(keys)|, U16(|keys|) + KeysBytes(keys))
  {
  }

  /** A negative partition, the caller's way of asking for any partition, is sent as its low 32 bits. */
  method EncodePublish(topic: Bytes, partition: int, key: Bytes, value: Bytes) returns (data: Bytes)
    ensures data == Encode(Publish(topic, partition, key, value))
  {
    hide *;
    var totalSize := 1 + 4 + 2 + |topic| + 4 + 2 + |key| + 4 + |value|;
    ghost var x3 := Field32(value, []);
    ghost var x2 := Field16(key, x3);
    ghost var x1 := U32(partition) + x2;
    ghost var payload := Field16(topic, x1);
    var buf := new byte[totalSize];
    var payloadLen := totalSize - 5;
    ghost var whole := FrameWith(OP_S_PUBLISH, payloadLen, payload);
    var pos := PutHeader(buf, OP_S_PUBLISH, payloadLen, payload);
    pos := PutField16(buf, pos, topic, x1, whole);
    pos := PutUint32(buf, pos, partition, x2, whole);
    pos := PutField16(buf, pos, key, x3, whole);
    pos := PutField32(buf, pos, value, [], whole);
    Filled(buf, pos, whole);
    data := buf[..];
    FramedIs(OP_S_PUBLISH, payloadLen, payload);
    PublishIs(topic, partition, key, value);
  }

  lemma PublishIs(topic: Bytes, partition: int, key: Bytes, value: Bytes)
    ensures WellKinded(Publish(topic, partition, key, value))
    ensures Encode(Publish(topic, partition, key, value)) ==
            Frame(OP_S_PUBLISH, Field16(topic, U32(partition) + Field16(key, Field32(value, []))))
  {
    hide U16, U32, U64, Field16, Field32;
  }

  method EncodeConsume(topic: Bytes, group: Bytes, consumer: Bytes, count: int) returns (data: Bytes)
    ensures data == Encode(Consume(topic, group, consumer, count))
  {
    hide *;
    var totalSize := 1 + 4 + 2 + |topic| + 2 + |group| + 2 + |consumer| + 4;
    ghost var x3 := U32(count) + [];
    ghost var x2 := Field16(consumer, x3);
    ghost var x1 := Field16(group, x2);
    ghost var payload := Field16(topic, x1);
    var buf := new byte[totalSize];
    var payloadLen := totalSize - 5;
    ghost var whole := FrameWith(OP_S_CONSUME, payloadLen, payload);
    var pos := PutHeader(buf, OP_S_CONSUME, payloadLen, payload);
    pos := PutField16(buf, pos, topic, x1, whole);
    pos := PutField16(buf, pos, group, x2, whole);
    pos := PutField16(buf, pos, consumer, x3, whole);
    pos := PutUint32(buf, pos, count, [], whole);
    Filled(buf, pos, whole);
    data := buf[..];
    FramedIs(OP_S_CONSUME, payloadLen, payload);
    ConsumeIs(topic, group, consumer, count);
  }

  lemma ConsumeIs(topic: Bytes, group: Bytes, consumer: Bytes, count: int)
    ensures WellKinded(Consume(topic, group, consumer, count))
    ensures Encode(Consume(topic, group, consumer, count)) ==
            Frame(OP_S_CONSUME, Field16(topic, Field16(group, Field16(consumer, U32(count) + []))))
  {
    hide U16, U32, U64, Field16, Field32;
  }

  /** The offset is given as a uint64 and read back as an int64. */
  method EncodeCommit(topic: Bytes, group: Bytes, partition: int, offset: nat) returns (data: Bytes)
    requires offset < TWO_64
    ensures data == Encode(CommitOffset(topic, group, partition, Signed64(offset)))
  {
    hide *;
    var totalSize := 1 + 4 + 2 + |topic| + 2 + |group| + 4 + 8;
    ghost var x3 := U64(offset) + [];
    ghost var x2 := U32(partition) + x3;
    ghost var x1 := Field16(group, x2);
    ghost var payload := Field16(topic, x1);
    var buf := new byte[totalSize];
    var payloadLen := totalSize - 5;
    ghost var whole := FrameWith(OP_S_COMMIT, payloadLen, payload);
    var pos := PutHeader(buf, OP_S_COMMIT, payloadLen, payload);
    pos := PutField16(buf, pos, topic, x1, whole);
    pos := PutField16(buf, pos, group, x2, whole);
    pos := PutUint32(buf, pos, partition, x3, whole);
    pos := PutUint64(buf, pos, offset, [], whole);
    Filled(buf, pos, whole);
    data := buf[..];
    FramedIs(OP_S_COMMIT, payloadLen, payload);
    CommitIs(topic, group, partition, offset);
  }

  lemma CommitIs(topic: Bytes, group: Bytes, partition: int, offset: nat)
    requires offset < TWO_64
    ensures WellKinded(CommitOffset(topic, group, partition, Signed64(offset)))
    ensures Encode(CommitOffset(topic, group, partition, Signed64(offset))) ==
            Frame(OP_S_COMMIT, Field16(topic, Field16(group, U32(partition) + (U64(offset) + []))))
  {
    hide U16, U32, U64, Field16, Field32, Signed64;
    SamePattern(offset);
  }

  lemma SamePattern(n: nat)
    requires n < TWO_64
    ensures U64(Signed64(n)) == U64(n)
  {
    hide U32;
    SameLow32(Signed64(n), n);
    SameLow32(Signed64(n) / 0x1_0000_0000, n / 0x1_0000_0000);
  }

  method EncodeCreateTopic(topic: Bytes, partitions: int, retentionMs: Int64) returns (data: Bytes)
    ensures data == Encode(CreateTopic(topic, partitions, retentionMs))
  {
    hide *;
    var totalSize := 1 + 4 + 2 + |topic| + 4 + 8;
    ghost var x2 := U64(retentionMs) + [];
    ghost var x1 := U32(partitions) + x2;
    ghost var payload := Field16(topic, x1);
    var buf := new byte[totalSize];
    var payloadLen := totalSize - 5;
    ghost var whole := FrameWith(OP_S_CREATE_TOPIC, payloadLen, payload);
    var pos := PutHeader(buf, OP_S_CREATE_TOPIC, payloadLen, payload);
    pos := PutField16(buf, pos, topic, x1, whole);
    pos := PutUint32(buf, pos, partitions, x2, whole);
    pos := PutUint64(buf, pos, retentionMs, [], whole);
    Filled(buf, pos, whole);
    data := buf[..];
    FramedIs(OP_S_CREATE_TOPIC, payloadLen, payload);
    CreateTopicIs(topic, partitions, retentionMs);
  }

  lemma CreateTopicIs(topic: Bytes, partitions: int, retentionMs: Int64)
    ensures WellKinded(CreateTopic(topic, partitions, retentionMs))
    ensures Encode(CreateTopic(topic, partitions, retentionMs)) ==
            Frame(OP_S_CREATE_TOPIC, Field16(topic, U32(partitions) + (U64(retentionMs) + [])))
  {
    hide U16, U32, U64, Field16, Field32;
  }

  /** SSUBSCRIBE and SUNSUBSCRIBE. */
  method EncodeMembership(op: byte, topic: Bytes, group: Bytes, consumer: Bytes) returns (data: Bytes)
    requires op in {OP_S_SUBSCRIBE, OP_S_UNSUBSCRIBE}
    ensures data == Encode(Membership(op, topic, group, consumer))
  {
    hide *;
    var totalSize := 1 + 4 + 2 + |topic| + 2 + |group| + 2 + |consumer|;
    ghost var x2 := Field16(consumer, []);
    ghost var x1 := Field16(group, x2);
    ghost var payload := Field16(topic, x1);
    var buf := new byte[totalSize];
    var payloadLen := totalSize - 5;
    ghost var whole := FrameWith(op, payloadLen, payload);
    var pos := PutHeader(buf, op, payloadLen, payload);
    pos := PutField16(buf, pos, topic, x1, whole);
    pos := PutField16(buf, pos, group, x2, whole);
    pos := PutField16(buf, pos, consumer, [], whole);
    Filled(buf, pos, whole);
    data := buf[..];
    FramedIs(op, payloadLen, payload);
    MembershipIs(op, topic, group, consumer);
  }

  lemma MembershipIs(op: byte, topic: Bytes, group: Bytes, consumer: Bytes)
    requires op in {OP_S_SUBSCRIBE, OP_S_UNSUBSCRIBE}
    ensures WellKinded(Membership(op, topic, group, consumer))
    ensures Encode(Membership(op, topic, group, consumer)) ==
            Frame(op, Field16(topic, Field16(group, Field16(consumer, []))))
  {
    hide U16, U32, U64, Field16, Field32;
  }

  method EncodeDocIndex(collection: Bytes, field: Bytes) returns (data: Bytes)
    ensures data == Encode(DocIndex(collection, field))
  {
    hide *;
    var totalSize := 1 + 4 + 2 + |collection| + 2 + |field|;
    ghost var x1 := Field16(field, []);
    ghost var payload := Field16(collection, x1);
    var buf := new byte[totalSize];
    var payloadLen := totalSize - 5;
    ghost var whole := FrameWith(OP_DOC_INDEX, payloadLen, payload);
    var pos := PutHeader(buf, OP_DOC_INDEX, payloadLen, payload);
    pos := PutField16(buf, pos, collection, x1, whole);
    pos := PutField16(buf, pos, field, [], whole);
    Filled(buf, pos, whole);
    data := buf[..];
    FramedIs(OP_DOC_INDEX, payloadLen, payload);
    DocIndexIs(collection, field);
  }

  lemma DocIndexIs(collection: Bytes, field: Bytes)
    ensures WellKinded(DocIndex(collection, field))
    ensures Encode(DocIndex(collection, field)) == Frame(OP_DOC_INDEX, Field16(collection, Field16(field, [])))
  {
    hide U16, U32, U64, Field16, Field32;
  }

  /** The one encoder that writes no payload length. */
  method EncodePublishBatch(topic: Bytes, messages: seq<BatchMessage>) returns (data: Bytes)
    ensures data == Encode(PublishBatch(topic, messages))
  {
    hide *;
    MessagesFrom(messages);
    ghost var all := MessagesBytes(messages);
    ghost var r2 := U32(|messages|) + all;
    ghost var r0 := Field16(topic, r2);
    ghost var whole := [OP_S_PUBLISH_BATCH] + r0;
    var size := 1 + 2 + |topic| + 4;
    for i := 0 to |messages|
      invariant size + |MessagesBytes(messages[i..])| == 7 + |topic| + |all|
    {
      NextMessage(messages, i);
      size := size + 4 + 2 + |messages[i].key| + 4 + |messages[i].value|;
    }
    MessagesEnd(messages);
    var buf := new byte[size];
    Begin(buf, whole);
    var pos: nat := PutByte(buf, 0, OP_S_PUBLISH_BATCH, r0, whole);
    pos := PutField16(buf, pos, topic, r2, whole);
    pos := PutUint32(buf, pos, |messages|, all, whole);
    for i := 0 to |messages|
      invariant pos + |MessagesBytes(messages[i..])| == buf.Length
      invariant Writing(buf, pos, MessagesBytes(messages[i..]), whole)
    {
      ghost var rest := MessagesBytes(messages[i + 1..]);
      NextMessage(messages, i);
      var key, value := messages[i].key, messages[i].value;
      pos := PutUint32(buf, pos, messages[i].partition, Field16(key, Field32(value, rest)), whole);
      pos := PutField16(buf, pos, key, Field32(value, rest), whole);
      pos := PutField32(buf, pos, value, rest, whole);
    }
    Filled(buf, pos, whole);
    data := buf[..];
    PublishBatchFlat(topic, messages);
  }

  lemma MessagesFrom(ms: seq<BatchMessage>)
    ensures MessagesBytes(ms[0..]) == MessagesBytes(ms)
  {
    assert ms[0..] == ms;
  }

  lemma MessagesEnd(ms: seq<BatchMessage>)
    ensures MessagesBytes(ms[|ms|..]) == []
  {
  }

  lemma NextMessage(ms: seq<BatchMessage>, i: nat)
    requires i < |ms|
    ensures MessagesBytes(ms[i..]) ==
            U32(ms[i].partition) + Field16(ms[i].key, Field32(ms[i].value, MessagesBytes(ms[i + 1..])))
    ensures |MessagesBytes(ms[i..])| == 4 + 2 + |ms[i].key| + 4 + |ms[i].value| + |MessagesBytes(ms[i + 1..])|
  {
    hide U16, U32;
    assert ms[i..][1..] == ms[i + 1..];
  }

  lemma PublishBatchFlat(topic: Bytes, messages: seq<BatchMessage>)
    ensures Encode(PublishBatch(topic, messages)) ==
            [OP_S_PUBLISH_BATCH] + Field16(topic, U32(|messages|) + MessagesBytes(messages))
  {
  }

  // ---------- request decoders ----------

  /** The field readers that every decoder writes out: check, read the length, check again, cut. */
  method ReadStr16(payload: Bytes, pos: nat) returns (ok: bool, s: Bytes, next: nat)
    requires pos <= |payload|
    ensures ok ==> next <= |payload| && TakeStr16(payload[pos..]) == Took(s, payload[next..])
    ensures !ok ==> !TakeStr16(payload[pos..]).Took?
  {
    hide GetU16, TakeStr16;
    Str16At(payload, pos);
    if |payload| < pos + 2 {
      return false, [], pos;
    }
    var n := GetU16(payload, pos);
    next := pos + 2;
    if |payload| < next + n {
      return false, [], pos;
    }
    return true, payload[next..next + n], next + n;
  }

  method ReadStr32(payload: Bytes, pos: nat) returns (ok: bool, s: Bytes, next: nat)
    requires pos <= |payload|
    ensures ok ==> next <= |payload| && TakeStr32(payload[pos..]) == Took(s, payload[next..])
    ensures !ok ==> !TakeStr32(payload[pos..]).Took?
  {
    hide GetU32, TakeStr32;
    Str32At(payload, pos);
    if |payload| < pos + 4 {
      return false, [], pos;
    }
    var n := GetU32(payload, pos);
    next := pos + 4;
    if |payload| < next + n {
      return false, [], pos;
    }
    return true, payload[next..next + n], next + n;
  }

  method ReadU32(payload: Bytes, pos: nat) returns (ok: bool, n: nat, next: nat)
    requires pos <= |payload|
    ensures ok ==> next <= |payload| && TakeU32(payload[pos..]) == Took(n, payload[next..])
    ensures !ok ==> !TakeU32(payload[pos..]).Took?
  {
    hide GetU16, GetU32, GetU64, TakeByte, TakeU16, TakeU32, TakeI64;
    NumberAt(payload, pos);
    if |payload| < pos + 4 {
      return false, 0, pos;
    }
    return true, GetU32(payload, pos), pos + 4;
  }

  method ReadI64(payload: Bytes, pos: nat) returns (ok: bool, n: Int64, next: nat)
    requires pos <= |payload|
    ensures ok ==> next <= |payload| && TakeI64(payload[pos..]) == Took(n, payload[next..])
    ensures !ok ==> !TakeI64(payload[pos..]).Took?
  {
    hide GetU16, GetU32, GetU64, TakeByte, TakeU16, TakeU32, TakeI64;
    NumberAt(payload, pos);
    if |payload| < pos + 8 {
      return false, 0, pos;
    }
    return true, Signed64(GetU64(payload, pos)), pos + 8;
  }

  method DecodeKeyValue(op: byte, payload: Bytes) returns (r: Decoded<Request>)
    ensures r == ParseKeyValue(op, payload)
  {
    hide TakeStr16, TakeStr32;
    assert payload[0..] == payload;
    var ok, name, pos := ReadStr16(payload, 0);
    if !ok {
      return Malformed("invalid payload");
    }
    var body;
    ok, body, pos := ReadStr32(payload, pos);
    if !ok {
      return Malformed("invalid payload");
    }
    r := Decoded.Ok(KeyValue(op, name, body));
  }

  /** Here the end of the name is computed in 16 bits. */
  method DecodeSimple(op: byte, payload: Bytes) returns (r: Decoded<Request>)
    ensures r == ParseSingle(op, payload)
  {
    if |payload| < 2 {
      return Malformed("invalid payload");
    }
    var keyLen := GetU16(payload, 0);
    var end := (2 + keyLen) % 0x1_0000;
    if |payload| < end {
      return Malformed("invalid payload");
    }
    if end < 2 {
      return Panic;
    }
    r := Decoded.Ok(Single(op, payload[2..end]));
  }

  function AfterPairs(keys: seq<Bytes>, values: seq<Bytes>, rest: Decoded<(seq<Bytes>, seq<Bytes>)>)
    : Decoded<(seq<Bytes>, seq<Bytes>)>
  {
    match rest
    case Ok(more) => Decoded.Ok((keys + more.0, values + more.1))
    case Malformed(reason) => Malformed(reason)
    case Panic => Decoded.Panic
  }

  method DecodeMSet(payload: Bytes) returns (r: Decoded<Request>)
    ensures r == ParseMSet(payload)
  {
    hide GetU16, TakeStr16, TakeStr32, ParsePairs, AfterPairs;
    if |payload| < 2 {
      return Malformed("invalid payload");
    }
    var count := GetU16(payload, 0);
    var pos: nat := 2;
    var keys, values := [], [];
    PairsStart(payload[pos..], count);
    for i := 0 to count
      invariant 0 <= pos <= |payload|
      invariant ParsePairs(payload[2..], count) == AfterPairs(keys, values, ParsePairs(payload[pos..], count - i))
    {
      PairsStep(keys, values, payload[pos..], count - i);
      var ok, key, value;
      ok, key, pos := ReadStr16(payload, pos);
      if !ok {
        return Malformed("invalid payload");
      }
      ok, value, pos := ReadStr32(payload, pos);
      if !ok {
        return Malformed("invalid payload");
      }
      keys, values := keys + [key], values + [value];
    }
    PairsDone(keys, values, payload[pos..]);
    r := Decoded.Ok(MSet(keys, values));
  }

  lemma PairsStart(d: Bytes, n: nat)
    ensures ParsePairs(d, n) == AfterPairs([], [], ParsePairs(d, n))
  {
    hide ParsePairs;
    var r := ParsePairs(d, n);
    if r.Ok? {
      assert [] + r.value.0 == r.value.0 && [] + r.value.1 == r.value.1;
    }
  }

  lemma PairsDone(keys: seq<Bytes>, values: seq<Bytes>, d: Bytes)
    ensures AfterPairs(keys, values, ParsePairs(d, 0)) == Decoded.Ok((keys, values))
  {
    assert keys + [] == keys && values + [] == values;
  }

  lemma PairsStep(keys: seq<Bytes>, values: seq<Bytes>, d: Bytes, n: nat)
    requires n > 0
    ensures AfterPairs(keys, values, ParsePairs(d, n)) ==
            var k := TakeStr16(d);
            if !k.Took? then Malformed("invalid payload")
            else
              var v := TakeStr32(k.rest);
              if !v.Took? then Malformed("invalid payload")
              else AfterPairs(keys + [k.value], values + [v.value], ParsePairs(v.rest, n - 1))
  {
    hide TakeStr16, TakeStr32;
    var k := TakeStr16(d);
    if k.Took? {
      var v := TakeStr32(k.rest);
      if v.Took? {
        var rest := ParsePairs(v.rest, n - 1);
        if rest.Ok? {
          assert keys + ([k.value] + rest.value.0) == keys + [k.value] + rest.value.0;
          assert values + ([v.value] + rest.value.1) == values + [v.value] + rest.value.1;
        }
      }
    }
  }

  method DecodeMKeys(op: byte, payload: Bytes) returns (r: Decoded<Request>)
    ensures r == ParseMKeys(op, payload)
  {
    hide GetU16, TakeStr16, ParseKeys, After;
    if |payload| < 2 {
      return Malformed("invalid payload");
    }
    var count := GetU16(payload, 0);
    var pos: nat := 2;
    var keys := [];
    ListStart(ParseKeys(payload[pos..], count));
    for i := 0 to count
      invariant 0 <= pos <= |payload|
      invariant ParseKeys(payload[2..], count) == After(keys, ParseKeys(payload[pos..], count - i))
    {
      KeysStep(keys, payload[pos..], count - i);
      var ok, key;
      ok, key, pos := ReadStr16(payload, pos);
      if !ok {
        return Malformed("invalid payload");
      }
      keys := keys + [key];
    }
    KeysDone(keys, payload[pos..]);
    r := Decoded.Ok(MKeys(op, keys));
  }

  lemma KeysDone(keys: seq<Bytes>, d: Bytes)
    ensures After(keys, ParseKeys(d, 0)) == Decoded.Ok(keys)
  {
    assert keys + [] == keys;
  }

  lemma KeysStep(keys: seq<Bytes>, d: Bytes, n: nat)
    requires n > 0
    ensures After(keys, ParseKeys(d, n)) ==
            var k := TakeStr16(d);
            if !k.Took? then Malformed("invalid payload") else After(keys + [k.value], ParseKeys(k.rest, n - 1))
  {
    hide TakeStr16;
    var k := TakeStr16(d);
    if k.Took? {
      var rest := ParseKeys(k.rest, n - 1);
      if rest.Ok? {
        assert keys + ([k.value] + rest.value) == keys + [k.value] + rest.value;
      }
    }
  }

  method DecodePublish(payload: Bytes) returns (r: Decoded<Request>)
    ensures r == ParsePublish(payload)
  {
    hide TakeStr16, TakeStr32, TakeU32;
    assert payload[0..] == payload;
    var ok, topic, pos := ReadStr16(payload, 0);
    if !ok {
      return Malformed("invalid payload");
    }
    var partition;
    ok, partition, pos := ReadU32(payload, pos);
    if !ok {
      return Malformed("invalid payload");
    }
    var key;
    ok, key, pos := ReadStr16(payload, pos);
    if !ok {
      return Malformed("invalid payload");
    }
    var value;
    ok, value, pos := ReadStr32(payload, pos);
    if !ok {
      return Malformed("invalid payload");
    }
    r := Decoded.Ok(Publish(topic, partition, key, value));
  }

  method DecodeConsume(payload: Bytes) returns (r: Decoded<Request>)
    ensures r == ParseConsume(payload)
  {
    hide TakeStr16, TakeU32;
    assert payload[0..] == payload;
    var ok, topic, pos := ReadStr16(payload, 0);
    if !ok {
      return Malformed("invalid payload");
    }
    var group;
    ok, group, pos := ReadStr16(payload, pos);
    if !ok {
      return Malformed("invalid payload");
    }
    var consumer;
    ok, consumer, pos := ReadStr16(payload, pos);
    if !ok {
      return Malformed("invalid payload");
    }
    var count: nat;
    ok, count, pos := ReadU32(payload, pos);
    if !ok {
      return Malformed("invalid payload");
    }
    r := Decoded.Ok(Consume(topic, group, consumer, count));
  }

  method DecodeCommit(payload: Bytes) returns (r: Decoded<Request>)
    ensures r == ParseCommit(payload)
  {
    hide TakeStr16, TakeU32, TakeI64;
    assert payload[0..] == payload;
    var ok, topic, pos := ReadStr16(payload, 0);
    if !ok {
      return Malformed("invalid payload");
    }
    var group;
    ok, group, pos := ReadStr16(payload, pos);
    if !ok {
      return Malformed("invalid payload");
    }
    var partition;
    ok, partition, pos := ReadU32(payload, pos);
    if !ok {
      return Malformed("invalid payload");
    }
    var offset;
    ok, offset, pos := ReadI64(payload, pos);
    if !ok {
      return Malformed("invalid payload");
    }
    r := Decoded.Ok(CommitOffset(topic, group, partition, offset));
  }

  method DecodeCreateTopic(payload: Bytes) returns (r: Decoded<Request>)
    ensures r == ParseCreateTopic(payload)
  {
    hide TakeStr16, TakeU32, TakeI64;
    assert payload[0..] == payload;
    var ok, topic, pos := ReadStr16(payload, 0);
    if !ok {
      return Malformed("invalid payload");
    }
    var partitions;
    ok, partitions, pos := ReadU32(payload, pos);
    if !ok {
      return Malformed("invalid payload");
    }
    var retention;
    ok, retention, pos := ReadI64(payload, pos);
    if !ok {
      return Malformed("invalid payload");
    }
    r := Decoded.Ok(CreateTopic(topic, partitions, retention));
  }

  method DecodeMembership(op: byte, payload: Bytes) returns (r: Decoded<Request>)
    ensures r == ParseMembership(op, payload)
  {
    hide TakeStr16;
    assert payload[0..] == payload;
    var ok, topic, pos := ReadStr16(payload, 0);
    if !ok {
      return Malformed("invalid payload");
    }
    var group;
    ok, group, pos := ReadStr16(payload, pos);
    if !ok {
      return Malformed("invalid payload");
    }
    var consumer;
    ok, consumer, pos := ReadStr16(payload, pos);
    if !ok {
      return Malformed("invalid payload");
    }
    r := Decoded.Ok(Membership(op, topic, group, consumer));
  }

  method DecodeDocIndex(payload: Bytes) returns (r: Decoded<Request>)
    ensures r == ParseDocIndex(payload)
  {
    hide TakeStr16;
    assert payload[0..] == payload;
    var ok, collection, pos := ReadStr16(payload, 0);
    if !ok {
      return Malformed("invalid payload");
    }
    var field;
    ok, field, pos := ReadStr16(payload, pos);
    if !ok {
      return Malformed("invalid payload");
    }
    r := Decoded.Ok(DocIndex(collection, field));
  }

  method DecodePublishBatch(payload: Bytes) returns (r: Decoded<Request>)
    ensures r == ParsePublishBatch(payload)
  {
    hide TakeStr16, TakeStr32, TakeU32, ParseMessages, After;
    assert payload[0..] == payload;
    var ok, topic, pos := ReadStr16(payload, 0);
    if !ok {
      return Malformed("invalid payload");
    }
    var count: nat;
    ok, count, pos := ReadU32(payload, pos);
    if !ok {
      return Malformed("invalid payload");
    }
    if count > MAX_BATCH_SIZE {
      return Malformed("batch size exceeds maximum");
    }
    var messages := [];
    ghost var start := payload[pos..];
    ListStart(ParseMessages(start, count));
    for i := 0 to count
      invariant 0 <= pos <= |payload|
      invariant ParseMessages(start, count) == After(messages, ParseMessages(payload[pos..], count - i))
    {
      MessagesStep(messages, payload[pos..], count - i);
      var partition, key, value;
      ok, partition, pos := ReadU32(payload, pos);
      if !ok {
        return Malformed("invalid payload");
      }
      ok, key, pos := ReadStr16(payload, pos);
      if !ok {
        return Malformed("invalid payload");
      }
      ok, value, pos := ReadStr32(payload, pos);
      if !ok {
        return Malformed("invalid payload");
      }
      messages := messages + [BatchMessage(partition, key, value)];
    }
    MessagesDone(messages, payload[pos..]);
    r := Decoded.Ok(PublishBatch(topic, messages));
  }

  lemma MessagesDone(ms: seq<BatchMessage>, d: Bytes)
    ensures After(ms, ParseMessages(d, 0)) == Decoded.Ok(ms)
  {
    assert ms + [] == ms;
  }

  lemma MessagesStep(ms: seq<BatchMessage>, d: Bytes, n: nat)
    requires n > 0
    ensures After(ms, ParseMessages(d, n)) ==
            var p := TakeU32(d);
            if !p.Took? then Malformed("invalid payload")
            else
              var k := TakeStr16(p.rest);
              if !k.Took? then Malformed("invalid payload")
              else
                var v := TakeStr32(k.rest);
                if !v.Took? then Malformed("invalid payload")
                else After(ms + [BatchMessage(p.value, k.value, v.value)], ParseMessages(v.rest, n - 1))
  {
    hide TakeStr16, TakeStr32, TakeU32;
    var p := TakeU32(d);
    if p.Took? {
      var k := TakeStr16(p.rest);
      if k.Took? {
        var v := TakeStr32(k.rest);
        if v.Took? {
          var m := BatchMessage(p.value, k.value, v.value);
          var rest := ParseMessages(v.rest, n - 1);
          if rest.Ok? {
            assert ms + ([m] + rest.value) == ms + [m] + rest.value;
          }
        }
      }
    }
  }

  /** The payload is cut out by an end computed in 32 bits. */
  method CutPayload(data: Bytes) returns (payload: Decoded<Bytes>)
    requires |data| >= 5
    ensures payload == PayloadIn(data)
  {
    var payloadLen := GetU32(data, 1);
    var end := (5 + payloadLen) % 0x1_0000_0000;
    if |data| < end {
      return Malformed("incomplete");
    }
    if end < 5 {
      return Panic;
    }
    payload := Decoded.Ok(data[5..end]);
  }

  method DecodeRequest(data: Bytes) returns (r: Decoded<Request>)
    ensures r == ParseRequest(data)
  {
    hide PayloadIn, ParseKeyValue, ParseSingle, ParseMSet, ParseMKeys, ParsePublish, ParseConsume, ParseCommit,
         ParseCreateTopic, ParseMembership, ParseDocIndex, ParsePublishBatch;
    if |data| < 5 {
      return Malformed("request too short");
    }
    var op := data[0];
    var payload :- CutPayload(data);
    if IsKeyValueOp(op) {
      r := DecodeKeyValue(op, payload);
    } else if IsSingleOp(op) {
      r := DecodeSimple(op, payload);
    } else if op == OP_MSET {
      r := DecodeMSet(payload);
    } else if op == OP_MGET || op == OP_MDEL {
      r := DecodeMKeys(op, payload);
    } else if op == OP_S_PUBLISH {
      r := DecodePublish(payload);
    } else if op == OP_S_CONSUME {
      r := DecodeConsume(payload);
    } else if op == OP_S_COMMIT {
      r := DecodeCommit(payload);
    } else if op == OP_S_CREATE_TOPIC {
      r := DecodeCreateTopic(payload);
    } else if op == OP_S_PUBLISH_BATCH {
      r := DecodePublishBatch(payload);
    } else if op == OP_S_SUBSCRIBE || op == OP_S_UNSUBSCRIBE {
      r := DecodeMembership(op, payload);
    } else if op == OP_DOC_INDEX {
      r := DecodeDocIndex(payload);
    } else {
      r := Malformed("unknown opcode");
    }
  }

  // ---------- responses ----------

  method EncodeOK() returns (data: Bytes)
    ensures data == EncodeResponse(OkResponse([]))
  {
    hide U32, Writing;
    ghost var whole := [STATUS_OK] + (U32(0) + []);
    var buf := new byte[5];
    Begin(buf, whole);
    var pos := PutByte(buf, 0, STATUS_OK, U32(0) + [], whole);
    pos := PutUint32(buf, pos, 0, [], whole);
    Filled(buf, pos, whole);
    data := buf[..];
  }

  /** EncodeValueResponse and EncodeErrorResponse: a status and a payload. */
  method EncodePlain(status: byte, payload: Bytes) returns (data: Bytes)
    ensures data == Frame(status, payload)
  {
    hide U32, Writing;
    ghost var whole := [status] + (U32(|payload|) + (payload + []));
    var buf := new byte[5 + |payload|];
    Begin(buf, whole);
    var pos := PutByte(buf, 0, status, U32(|payload|) + (payload + []), whole);
    pos := PutUint32(buf, pos, |payload|, payload + [], whole);
    pos := PutBytes(buf, pos, payload, [], whole);
    Filled(buf, pos, whole);
    data := buf[..];
    assert payload + [] == payload;
  }

  method EncodeMultiValue(values: seq<Bytes>) returns (data: Bytes)
    ensures data == EncodeResponse(MultiResponse(values))
  {
    hide *;
    ValuesFrom(values);
    ghost var all := ValuesBytes(values);
    var totalSize := 5 + 2;
    for i := 0 to |values|
      invariant totalSize + |ValuesBytes(values[i..])| == 7 + |all|
    {
      NextValue(values, i);
      totalSize := totalSize + 4 + |values[i]|;
    }
    ValuesEnd(values);
    var buf := new byte[totalSize];
    var payloadLen := totalSize - 5;
    ghost var whole := FrameWith(STATUS_MULTI_VALUE, payloadLen, U16(|values|) + all);
    var pos: nat := PutHeader(buf, STATUS_MULTI_VALUE, payloadLen, U16(|values|) + all);
    pos := PutUint16(buf, pos, |values|, all, whole);
    for i := 0 to |values|
      invariant pos + |ValuesBytes(values[i..])| == buf.Length
      invariant Writing(buf, pos, ValuesBytes(values[i..]), whole)
    {
      ghost var rest := ValuesBytes(values[i + 1..]);
      NextValue(values, i);
      pos := PutField32(buf, pos, values[i], rest, whole);
    }
    Filled(buf, pos, whole);
    data := buf[..];
    MultiFlat(values);
  }

  lemma ValuesFrom(values: seq<Bytes>)
    ensures ValuesBytes(values[0..]) == ValuesBytes(values)
  {
    assert values[0..] == values;
  }

  lemma ValuesEnd(values: seq<Bytes>)
    ensures ValuesBytes(values[|values|..]) == []
  {
  }

  lemma NextValue(values: seq<Bytes>, i: nat)
    requires i < |values|
    ensures ValuesBytes(values[i..]) == Field32(values[i], ValuesBytes(values[i + 1..]))
    ensures |ValuesBytes(values[i..])| == 4 + |values[i]| + |ValuesBytes(values[i + 1..])|
  {
    hide U32;
    assert values[i..][1..] == values[i + 1..];
  }

  lemma MultiFlat(values: seq<Bytes>)
    ensures EncodeResponse(MultiResponse(values)) ==
            FrameWith(STATUS_MULTI_VALUE, 2 + |ValuesBytes(values)|, U16(|values|) + ValuesBytes(values))
  {
  }

  method DecodeMultiValue(payload: Bytes) returns (r: Decoded<Response>)
    ensures r == ParseMulti(payload)
  {
    hide GetU16, TakeStr32, ParseValues, After;
    if |payload| < 2 {
      return Malformed("invalid payload");
    }
    var count := GetU16(payload, 0);
    var pos: nat := 2;
    var values := [];
    ListStart(ParseValues(payload[pos..], count));
    for i := 0 to count
      invariant 0 <= pos <= |payload|
      invariant ParseValues(payload[2..], count) == After(values, ParseValues(payload[pos..], count - i))
    {
      ValuesStep(values, payload[pos..], count - i);
      var ok, value;
      ok, value, pos := ReadStr32(payload, pos);
      if !ok {
        return Malformed("invalid payload");
      }
      values := values + [value];
    }
    ValuesDone(values, payload[pos..]);
    r := Decoded.Ok(MultiResponse(values));
  }

  lemma ValuesDone(values: seq<Bytes>, d: Bytes)
    ensures After(values, ParseValues(d, 0)) == Decoded.Ok(values)
  {
    assert values + [] == values;
  }

  lemma ValuesStep(values: seq<Bytes>, d: Bytes, n: nat)
    requires n > 0
    ensures After(values, ParseValues(d, n)) ==
            var v := TakeStr32(d);
            if !v.Took? then Malformed("invalid payload") else After(values + [v.value], ParseValues(v.rest, n - 1))
  {
    hide TakeStr32;
    var v := TakeStr32(d);
    if v.Took? {
      var rest := ParseValues(v.rest, n - 1);
      if rest.Ok? {
        assert values + ([v.value] + rest.value) == values + [v.value] + rest.value;
      }
    }
  }

  method DecodeResponse(data: Bytes) returns (r: Decoded<Response>)
    ensures r == ParseResponse(data)
  {
    hide PayloadIn, ParseMulti;
    if |data| < 5 {
      return Malformed("response too short");
    }
    var status := data[0];
    var payload :- CutPayload(data);
    if status == STATUS_OK {
      r := Decoded.Ok(OkResponse(payload));
    } else if status == STATUS_ERROR {
      r := Decoded.Ok(ErrorResponse(payload));
    } else if status == STATUS_MULTI_VALUE {
      r := DecodeMultiValue(payload);
    } else if status == STATUS_NOT_FOUND {
      r := Decoded.Ok(NotFoundResponse);
    } else {
      r := Malformed("unknown status");
    }
  }
}

/** A publish over the wire: the partition arrives as an unsigned number, yet is chosen as for a local caller. */
module RemotePublish {
  import opened ByteStrings
  import opened Wire
  import StreamGroups

  /** A negative partition, which asks for an automatic choice, arrives as a huge one, which asks for the
      same: the partition a remote publish goes to is the one a local publish would go to. */
  lemma SamePartitionChosen(topic: Bytes, p: int, key: Bytes, value: Bytes, partitions: nat, hash: nat, clock: nat)
    requires 0 < partitions && partitions - TWO_32 <= p < TWO_32
    requires Short16(topic) && Short16(key)
    requires |PayloadOf(Publish(topic, p, key, value))| < TWO_32 - 5
    ensures var r := ParseRequest(Encode(Publish(topic, p, key, value)));
            && r == Decoded.Ok(Publish(topic, p % TWO_32, key, value))
            && StreamGroups.ChoosePartition(r.value.partition, partitions, key, hash, clock)
               == StreamGroups.ChoosePartition(p, partitions, key, hash, clock)
  {
    hide U16, U32, ParseRequest;
    var sent, got := Publish(topic, p, key, value), Publish(topic, p % TWO_32, key, value);
    SameLow32(p, p % TWO_32);
    assert Encode(got) == Encode(sent);
    RequestRoundTrip(got);
  }
}
