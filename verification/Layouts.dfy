/** The byte formats as tables: which numbers and which bytes stand where.  Numbers are read off the bytes,
    most significant first, independently of how the encoders write them. */
module Layouts {
  import opened ByteStrings
  import opened Decimal
  import opened Keys
  import opened QueueCodec
  import opened StreamCodec
  import opened Wire

  /** A number in 1, 2, 4 or 8 bytes, or plain bytes. */
  datatype Part = N1(n: int) | N2(n: int) | N4(n: int) | N8(n: int) | Raw(bytes: Bytes)

  function SizeOf(p: Part): nat {
    match p
    case N1(_) => 1
    case N2(_) => 2
    case N4(_) => 4
    case N8(_) => 8
    case Raw(bytes) => |bytes|
  }

  function Number(b: Bytes): nat {
    if b == [] then 0 else Number(b[..|b| - 1]) * 256 + b[|b| - 1]
  }

  predicate StandsIn(b: Bytes, p: Part) {
    match p
    case N1(n) => |b| == 1 && Number(b) == n % 0x100
    case N2(n) => |b| == 2 && Number(b) == n % 0x1_0000
    case N4(n) => |b| == 4 && Number(b) == n % 0x1_0000_0000
    case N8(n) => |b| == 8 && Number(b) == n % 0x1_0000_0000_0000_0000
    case Raw(bytes) => b == bytes
  }

  /** The parts stand in the bytes one after the other, and nothing else does. */
  predicate LaidOut(b: Bytes, parts: seq<Part>) {
    if parts == [] then b == []
    else
      var n := SizeOf(parts[0]);
      n <= |b| && StandsIn(b[..n], parts[0]) && LaidOut(b[n..], parts[1..])
  }

  lemma Number2(b: Bytes)
    requires |b| == 2
    ensures var hi: int, lo: int := b[0], b[1];
            Number(b) == hi * 256 + lo
  {
    var a := b[..1];
    assert Number(a) == Number(a[..0]) * 256 + a[0];
  }

  lemma {:induction false} NumberConcat(a: Bytes, b: Bytes)
    ensures Number(a + b) == Number(a) * Power(|b|) + Number(b)
    decreases |b|
  {
    if b == [] {
      assert a + b == a;
    } else {
      var n := |b| - 1;
      assert (a + b)[..|a + b| - 1] == a + b[..n];
      NumberConcat(a, b[..n]);
    }
  }

  function Power(n: nat): nat {
    if n == 0 then 1 else Power(n - 1) * 256
  }

  lemma Powers()
    ensures Power(2) == 0x1_0000 && Power(4) == 0x1_0000_0000
  {
    assert Power(1) == 256;
    assert Power(3) == 0x100_0000;
  }

  lemma NumberU16(n: int)
    ensures Number(U16(n)) == n % 0x1_0000
  {
    Number2(U16(n));
  }

  lemma NumberU32(n: int)
    ensures Number(U32(n)) == n % 0x1_0000_0000
  {
    hide U16;
    Powers();
    NumberConcat(U16(n / 0x1_0000), U16(n));
    NumberU16(n / 0x1_0000);
    NumberU16(n);
  }

  lemma NumberU64(n: int)
    ensures Number(U64(n)) == n % 0x1_0000_0000_0000_0000
  {
    hide U32;
    Powers();
    NumberConcat(U32(n / 0x1_0000_0000), U32(n));
    NumberU32(n / 0x1_0000_0000);
    NumberU32(n);
  }

  function BytesOf(p: Part): Bytes {
    match p
    case N1(n) => [n % 256]
    case N2(n) => U16(n)
    case N4(n) => U32(n)
    case N8(n) => U64(n)
    case Raw(bytes) => bytes
  }

  function AllBytes(parts: seq<Part>): Bytes {
    if parts == [] then [] else BytesOf(parts[0]) + AllBytes(parts[1..])
  }

  lemma OnePart(p: Part)
    ensures |BytesOf(p)| == SizeOf(p) && StandsIn(BytesOf(p), p)
  {
    hide U16, U32, U64;
    match p
    case N1(n) =>
      assert BytesOf(p)[..0] == [];
      assert Number(BytesOf(p)[..0]) == 0;
    case N2(n) => NumberU16(n);
    case N4(n) => NumberU32(n);
    case N8(n) => NumberU64(n);
    case Raw(_) =>
  }

  lemma {:induction false} AllLaidOut(parts: seq<Part>)
    ensures LaidOut(AllBytes(parts), parts)
  {
    hide BytesOf, StandsIn;
    if parts != [] {
      OnePart(parts[0]);
      AllLaidOut(parts[1..]);
      assert AllBytes(parts)[..SizeOf(parts[0])] == BytesOf(parts[0]);
      assert AllBytes(parts)[SizeOf(parts[0])..] == AllBytes(parts[1..]);
    }
  }

  lemma {:induction false} AllBytesConcat(ps: seq<Part>, qs: seq<Part>)
    ensures AllBytes(ps + qs) == AllBytes(ps) + AllBytes(qs)
    decreases |ps|
  {
    hide BytesOf;
    if ps == [] {
      assert ps + qs == qs;
    } else {
      assert (ps + qs)[1..] == ps[1..] + qs;
      AllBytesConcat(ps[1..], qs);
    }
  }

  // ---------- requests ----------

  function ShortText(s: Bytes): seq<Part> {
    [N2(|s|), Raw(s)]
  }

  function LongText(s: Bytes): seq<Part> {
    [N4(|s|), Raw(s)]
  }

  function PairParts(keys: seq<Bytes>, values: seq<Bytes>): seq<Part>
    requires |keys| == |values|
  {
    if keys == [] then [] else ShortText(keys[0]) + LongText(values[0]) + PairParts(keys[1..], values[1..])
  }

  function KeyParts(keys: seq<Bytes>): seq<Part> {
    if keys == [] then [] else ShortText(keys[0]) + KeyParts(keys[1..])
  }

  function MessageParts(ms: seq<BatchMessage>): seq<Part> {
    if ms == [] then []
    else [N4(ms[0].partition)] + ShortText(ms[0].key) + LongText(ms[0].value) + MessageParts(ms[1..])
  }

  /** The payload of each request. */
  function PayloadParts(r: Request): seq<Part>
    requires WellKinded(r)
  {
    match r
    case KeyValue(_, name, body) => ShortText(name) + LongText(body)
    case Single(_, name) => ShortText(name)
    case MSet(keys, values) => [N2(|keys|)] + PairParts(keys, values)
    case MKeys(_, keys) => [N2(|keys|)] + KeyParts(keys)
    case Publish(topic, partition, key, value) =>
      ShortText(topic) + [N4(partition)] + ShortText(key) + LongText(value)
    case Consume(topic, group, consumer, count) =>
      ShortText(topic) + ShortText(group) + ShortText(consumer) + [N4(count)]
    case CommitOffset(topic, group, partition, offset) =>
      ShortText(topic) + ShortText(group) + [N4(partition), N8(offset)]
    case CreateTopic(topic, partitions, retentionMs) => ShortText(topic) + [N4(partitions), N8(retentionMs)]
    case Membership(_, topic, group, consumer) => ShortText(topic) + ShortText(group) + ShortText(consumer)
    case PublishBatch(topic, messages) => ShortText(topic) + [N4(|messages|)] + MessageParts(messages)
    case DocIndex(collection, field) => ShortText(collection) + ShortText(field)
  }

  /** The operation codes of the requests that have one of their own. */
  predicate CodeIs(r: Request, code: int) {
    match r
    case KeyValue(op, _, _) => code == op && op in {0x01, 0x20, 0x40, 0x41, 0x42, 0x43}
    case Single(op, _) => code == op && op in {0x02, 0x03, 0x04, 0x05, 0x06, 0x21, 0x22, 0x23, 0x24}
    case MSet(_, _) => code == 0x10
    case MKeys(op, _) => code == op && op in {0x11, 0x12}
    case Publish(_, _, _, _) => code == 0x30
    case Consume(_, _, _, _) => code == 0x31
    case CommitOffset(_, _, _, _) => code == 0x32
    case CreateTopic(_, _, _) => code == 0x33
    case Membership(op, _, _, _) => code == op && op in {0x34, 0x35}
    case PublishBatch(_, _) => code == 0x37
    case DocIndex(_, _) => code == 0x44
  }

  lemma ShortBytes(s: Bytes, rest: seq<Part>)
    ensures AllBytes(ShortText(s) + rest) == Field16(s, AllBytes(rest))
  {
    hide U16;
    var parts := ShortText(s) + rest;
    assert parts[1..] == [Raw(s)] + rest && parts[1..][1..] == rest;
  }

  lemma LongBytes(s: Bytes, rest: seq<Part>)
    ensures AllBytes(LongText(s) + rest) == Field32(s, AllBytes(rest))
  {
    hide U32;
    var parts := LongText(s) + rest;
    assert parts[1..] == [Raw(s)] + rest && parts[1..][1..] == rest;
  }

  lemma FirstBytes(p: Part, rest: seq<Part>)
    ensures AllBytes([p] + rest) == BytesOf(p) + AllBytes(rest)
  {
    assert ([p] + rest)[1..] == rest;
  }

  lemma NoBytes()
    ensures AllBytes([]) == []
  {
  }

  lemma {:induction false} PairBytes(keys: seq<Bytes>, values: seq<Bytes>)
    requires |keys| == |values|
    ensures AllBytes(PairParts(keys, values)) == PairsBytes(keys, values)
  {
    hide ShortText, LongText, Field16, Field32;
    if keys != [] {
      var rest := PairParts(keys[1..], values[1..]);
      PairBytes(keys[1..], values[1..]);
      LongBytes(values[0], rest);
      ShortBytes(keys[0], LongText(values[0]) + rest);
      assert PairParts(keys, values) == ShortText(keys[0]) + (LongText(values[0]) + rest);
    }
  }

  lemma {:induction false} KeyBytes(keys: seq<Bytes>)
    ensures AllBytes(KeyParts(keys)) == KeysBytes(keys)
  {
    hide ShortText, Field16;
    if keys != [] {
      KeyBytes(keys[1..]);
      ShortBytes(keys[0], KeyParts(keys[1..]));
    }
  }

  lemma {:induction false} BatchBytes(ms: seq<BatchMessage>)
    ensures AllBytes(MessageParts(ms)) == MessagesBytes(ms)
  {
    hide ShortText, LongText, Field16, Field32, U32;
    if ms != [] {
      var rest := MessageParts(ms[1..]);
      BatchBytes(ms[1..]);
      LongBytes(ms[0].value, rest);
      ShortBytes(ms[0].key, LongText(ms[0].value) + rest);
      FirstBytes(N4(ms[0].partition), ShortText(ms[0].key) + (LongText(ms[0].value) + rest));
      assert MessageParts(ms) == [N4(ms[0].partition)] + (ShortText(ms[0].key) + (LongText(ms[0].value) + rest));
    }
  }

  lemma PayloadBytes(r: Request)
    requires WellKinded(r)
    ensures AllBytes(PayloadParts(r)) == PayloadOf(r)
  {
    hide ShortText, LongText, Field16, Field32, U16, U32, U64, PairParts, KeyParts, MessageParts, AllBytes;
    NoBytes();
    match r
    case KeyValue(_, name, body) => TextAndBody(name, body);
    case Single(_, name) =>
      assert ShortText(name) == ShortText(name) + [];
      ShortBytes(name, []);
    case MSet(keys, values) =>
      PairBytes(keys, values);
      FirstBytes(N2(|keys|), PairParts(keys, values));
    case MKeys(_, keys) =>
      KeyBytes(keys);
      FirstBytes(N2(|keys|), KeyParts(keys));
    case Publish(topic, partition, key, value) => PublishBytes(topic, partition, key, value);
    case Consume(topic, group, consumer, count) => ConsumeBytes(topic, group, consumer, count);
    case CommitOffset(topic, group, partition, offset) => CommitBytes(topic, group, partition, offset);
    case CreateTopic(topic, partitions, retentionMs) =>
      TwoNumbers(N4(partitions), N8(retentionMs));
      ShortBytes(topic, [N4(partitions), N8(retentionMs)]);
    case Membership(_, topic, group, consumer) => MembershipBytes(topic, group, consumer);
    case PublishBatch(topic, messages) =>
      BatchBytes(messages);
      FirstBytes(N4(|messages|), MessageParts(messages));
      ShortBytes(topic, [N4(|messages|)] + MessageParts(messages));
      assert PayloadParts(r) == ShortText(topic) + ([N4(|messages|)] + MessageParts(messages));
    case DocIndex(collection, field) =>
      assert ShortText(field) == ShortText(field) + [];
      ShortBytes(field, []);
      ShortBytes(collection, ShortText(field));
  }

  lemma TextAndBody(name: Bytes, body: Bytes)
    ensures AllBytes(ShortText(name) + LongText(body)) == Field16(name, Field32(body, []))
  {
    hide ShortText, LongText, Field16, Field32, AllBytes;
    NoBytes();
    assert LongText(body) == LongText(body) + [];
    LongBytes(body, []);
    ShortBytes(name, LongText(body));
  }

  lemma TwoNumbers(p: Part, q: Part)
    ensures AllBytes([p, q]) == BytesOf(p) + (BytesOf(q) + [])
  {
    hide AllBytes, BytesOf;
    NoBytes();
    FirstBytes(q, []);
    FirstBytes(p, [q]);
    assert [q] + [] == [q] && [p] + [q] == [p, q];
  }

  lemma PublishBytes(topic: Bytes, partition: int, key: Bytes, value: Bytes)
    ensures AllBytes(ShortText(topic) + [N4(partition)] + ShortText(key) + LongText(value))
         == Field16(topic, U32(partition) + Field16(key, Field32(value, [])))
  {
    hide ShortText, LongText, Field16, Field32, U32, AllBytes;
    var rest := ShortText(key) + LongText(value);
    TextAndBody(key, value);
    FirstBytes(N4(partition), rest);
    ShortBytes(topic, [N4(partition)] + rest);
    assert ShortText(topic) + [N4(partition)] + ShortText(key) + LongText(value)
        == ShortText(topic) + ([N4(partition)] + rest);
  }

  lemma ConsumeBytes(topic: Bytes, group: Bytes, consumer: Bytes, count: int)
    ensures AllBytes(ShortText(topic) + ShortText(group) + ShortText(consumer) + [N4(count)])
         == Field16(topic, Field16(group, Field16(consumer, U32(count) + [])))
  {
    hide ShortText, Field16, U32, AllBytes;
    NoBytes();
    FirstBytes(N4(count), []);
    assert [N4(count)] + [] == [N4(count)];
    ShortBytes(consumer, [N4(count)]);
    ShortBytes(group, ShortText(consumer) + [N4(count)]);
    ShortBytes(topic, ShortText(group) + (ShortText(consumer) + [N4(count)]));
    assert ShortText(topic) + ShortText(group) + ShortText(consumer) + [N4(count)]
        == ShortText(topic) + (ShortText(group) + (ShortText(consumer) + [N4(count)]));
  }

  lemma CommitBytes(topic: Bytes, group: Bytes, partition: int, offset: int)
    ensures AllBytes(ShortText(topic) + ShortText(group) + [N4(partition), N8(offset)])
         == Field16(topic, Field16(group, U32(partition) + (U64(offset) + [])))
  {
    hide ShortText, Field16, U32, U64, AllBytes;
    TwoNumbers(N4(partition), N8(offset));
    ShortBytes(group, [N4(partition), N8(offset)]);
    ShortBytes(topic, ShortText(group) + [N4(partition), N8(offset)]);
    assert ShortText(topic) + ShortText(group) + [N4(partition), N8(offset)]
        == ShortText(topic) + (ShortText(group) + [N4(partition), N8(offset)]);
  }

  lemma MembershipBytes(topic: Bytes, group: Bytes, consumer: Bytes)
    ensures AllBytes(ShortText(topic) + ShortText(group) + ShortText(consumer))
         == Field16(topic, Field16(group, Field16(consumer, [])))
  {
    hide ShortText, Field16, AllBytes;
    NoBytes();
    assert ShortText(consumer) + [] == ShortText(consumer);
    ShortBytes(consumer, []);
    ShortBytes(group, ShortText(consumer));
    ShortBytes(topic, ShortText(group) + ShortText(consumer));
    assert ShortText(topic) + ShortText(group) + ShortText(consumer)
        == ShortText(topic) + (ShortText(group) + ShortText(consumer));
  }

  /** Every request is its code, the length of its payload, and its payload, part by part; only a batch publish
      has no length. */
  lemma RequestLayout(r: Request)
    requires WellKinded(r)
    ensures CodeIs(r, OpOf(r))
    ensures var head := if r.PublishBatch? then [N1(OpOf(r))] else [N1(OpOf(r)), N4(|PayloadOf(r)|)];
            LaidOut(Encode(r), head + PayloadParts(r))
    ensures LaidOut(PayloadOf(r), PayloadParts(r))
  {
    hide PayloadParts, PayloadOf, AllBytes, U32, LaidOut;
    PayloadBytes(r);
    var op, n := OpOf(r), |PayloadOf(r)|;
    var head := if r.PublishBatch? then [N1(op)] else [N1(op), N4(n)];
    NoBytes();
    if r.PublishBatch? {
      FirstBytes(N1(op), []);
      assert [N1(op)] + [] == [N1(op)];
    } else {
      TwoNumbers(N1(op), N4(n));
    }
    AllBytesConcat(head, PayloadParts(r));
    assert AllBytes(head + PayloadParts(r)) == Encode(r);
    AllLaidOut(head + PayloadParts(r));
    AllLaidOut(PayloadParts(r));
  }

  // ---------- responses ----------

  function ValueParts(values: seq<Bytes>): seq<Part> {
    if values == [] then [] else LongText(values[0]) + ValueParts(values[1..])
  }

  lemma {:induction false} ValueBytes(values: seq<Bytes>)
    ensures AllBytes(ValueParts(values)) == ValuesBytes(values)
  {
    hide LongText, Field32;
    if values != [] {
      ValueBytes(values[1..]);
      LongBytes(values[0], ValueParts(values[1..]));
    }
  }

  /** Status 0, 1, 2 or 4, the length of the payload, and the payload; several values are counted in two bytes
      and have four bytes of length each. */
  function ResponseParts(r: Response): seq<Part> {
    match r
    case OkResponse(value) => [N1(0), N4(|value|), Raw(value)]
    case ErrorResponse(message) => [N1(1), N4(|message|), Raw(message)]
    case NotFoundResponse => [N1(2), N4(0)]
    case MultiResponse(values) => [N1(4), N4(|MultiPayload(values)|), N2(|values|)] + ValueParts(values)
  }

  lemma ResponseLayout(r: Response)
    ensures LaidOut(EncodeResponse(r), ResponseParts(r))
  {
    hide LaidOut, U16, U32, ValuesBytes, ValueParts;
    AllLaidOut(ResponseParts(r));
    match r
    case OkResponse(value) => ThreeParts(N1(0), N4(|value|), Raw(value));
    case ErrorResponse(message) => ThreeParts(N1(1), N4(|message|), Raw(message));
    case NotFoundResponse => TwoNumbers(N1(2), N4(0));
    case MultiResponse(values) =>
      ValueBytes(values);
      ThreeParts(N1(4), N4(|MultiPayload(values)|), N2(|values|));
      AllBytesConcat([N1(4), N4(|MultiPayload(values)|), N2(|values|)], ValueParts(values));
      var n := |MultiPayload(values)|;
      assert [4] + (U32(n) + U16(|values|)) + ValuesBytes(values)
          == [4] + (U32(n) + (U16(|values|) + ValuesBytes(values)));
  }

  lemma ThreeParts(p: Part, q: Part, t: Part)
    ensures AllBytes([p, q, t]) == BytesOf(p) + (BytesOf(q) + BytesOf(t))
  {
    hide AllBytes, BytesOf;
    TwoNumbers(q, t);
    FirstBytes(p, [q, t]);
    assert [p] + [q, t] == [p, q, t];
  }

  // ---------- stored records ----------

  function StoredMessageParts(m: QueueMessage): seq<Part> {
    ShortText(m.id) + LongText(m.value) + [N1(m.state), N4(m.deliveryCount)] + ShortText(m.consumerId)
    + [N8(m.enqueuedAt), N8(m.inFlightAt), N8(m.visibilityTimeout), N4(m.maxRetries)]
  }

  lemma QueueMessageLayout(m: QueueMessage)
    ensures LaidOut(MessageBytes(m), StoredMessageParts(m))
  {
    hide LaidOut, ShortText, LongText, Field16, Field32, U32, U64, AllBytes;
    var times := [N8(m.enqueuedAt), N8(m.inFlightAt), N8(m.visibilityTimeout), N4(m.maxRetries)];
    var status := [N1(m.state), N4(m.deliveryCount)] + (ShortText(m.consumerId) + times);
    TimeBytes(m);
    ShortBytes(m.consumerId, times);
    TwoNumbers(N1(m.state), N4(m.deliveryCount));
    AllBytesConcat([N1(m.state), N4(m.deliveryCount)], ShortText(m.consumerId) + times);
    assert AllBytes(status) == StatusBytes(m);
    LongBytes(m.value, status);
    ShortBytes(m.id, LongText(m.value) + status);
    assert StoredMessageParts(m) == ShortText(m.id) + (LongText(m.value) + status);
    AllLaidOut(StoredMessageParts(m));
  }

  lemma TimeBytes(m: QueueMessage)
    ensures AllBytes([N8(m.enqueuedAt), N8(m.inFlightAt), N8(m.visibilityTimeout), N4(m.maxRetries)]) == TimesBytes(m)
  {
    hide U32, U64, AllBytes;
    var a, b, c, d := N8(m.enqueuedAt), N8(m.inFlightAt), N8(m.visibilityTimeout), N4(m.maxRetries);
    TwoNumbers(c, d);
    FirstBytes(b, [c, d]);
    FirstBytes(a, [b, c, d]);
    assert [b] + [c, d] == [b, c, d] && [a] + [b, c, d] == [a, b, c, d];
  }

  lemma QueueConfigLayout(c: QueueConfig)
    ensures LaidOut(ConfigBytes(c), ShortText(c.name) + ShortText(c.deadLetterQueue)
                                    + [N4(c.maxRetries), N8(c.defaultVisibilityTimeout)])
  {
    hide LaidOut, ShortText, Field16, U32, U64, AllBytes;
    CommitBytes(c.name, c.deadLetterQueue, c.maxRetries, c.defaultVisibilityTimeout);
    AllLaidOut(ShortText(c.name) + ShortText(c.deadLetterQueue) + [N4(c.maxRetries), N8(c.defaultVisibilityTimeout)]);
  }

  lemma RecordLayout(r: Record)
    ensures LaidOut(RecordBytes(r), [N8(r.offset), N8(r.timestamp)] + ShortText(r.key) + LongText(r.value))
  {
    hide LaidOut, ShortText, LongText, Field16, Field32, U64, AllBytes;
    var head, text := [N8(r.offset), N8(r.timestamp)], ShortText(r.key) + LongText(r.value);
    TextAndBody(r.key, r.value);
    TwoNumbers(N8(r.offset), N8(r.timestamp));
    AllBytesConcat(head, text);
    assert U64(r.offset) + (U64(r.timestamp) + []) + AllBytes(text)
        == U64(r.offset) + (U64(r.timestamp) + AllBytes(text));
    assert head + ShortText(r.key) + LongText(r.value) == head + text;
    AllLaidOut(head + text);
  }

  // ---------- keys ----------

  /** The texts that keys are made of. */
  lemma KeysWritten(q: Bytes, id: Bytes, state: int, topic: Bytes, partition: int, group: Bytes, n: nat)
    requires n < TWO_63
    ensures MessageKey(q, id) == Ascii("queue:msg:") + q + Ascii(":") + id
    ensures IndexKey(q, state, id) == Ascii("queue:idx:") + q + Ascii(":") + DecInt(state) + Ascii(":") + id
    ensures ConfigKey(q) == Ascii("queue:config:") + q && MetadataKey(q) == Ascii("queue:meta:") + q
    ensures DataKey(q, n) == Ascii("queue:data:") + q + Ascii(":") + Pad20(n)
    ensures RecordKey(topic, partition, n)
         == Ascii("stream:msg:") + topic + Ascii(":") + DecInt(partition) + Ascii(":") + Pad20(n)
    ensures ConsumerKey(group, topic, partition)
         == Ascii("stream:consumer:") + group + Ascii(":") + topic + Ascii(":") + DecInt(partition)
  {
    hide DecInt, Pad20;
    assert Ascii(":") == [COLON];
    assert IndexKey(q, state, id) == Ascii("queue:idx:") + q + [COLON] + DecInt(state) + [COLON] + id;
  }
}
