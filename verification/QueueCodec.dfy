/** The stored form of queue messages and queue configurations. */
module QueueCodec {
  import opened ByteStrings
  import opened Buffers

  const STATE_PENDING := 0
  const STATE_IN_FLIGHT := 1

  datatype QueueMessage = QueueMessage(
    id: Bytes,
    value: Bytes,
    state: int,
    deliveryCount: int,
    consumerId: Bytes,
    enqueuedAt: Int64,
    inFlightAt: Int64,
    visibilityTimeout: Int64,
    maxRetries: int)

  datatype QueueConfig = QueueConfig(
    name: Bytes,
    deadLetterQueue: Bytes,
    maxRetries: int,
    defaultVisibilityTimeout: Int64)

  /** A field that must be complete: a length that promises too much is reported, and a missing
      fixed-width part is an index out of range. */
  function Need<T>(t: Taken<T>, reason: string): Decoded<(T, Bytes)> {
    match t
    case Took(v, rest) => Ok((v, rest))
    case Overflow => Malformed(reason)
    case Short => Panic
  }

  // ---------- messages ----------

  function MessageBytes(m: QueueMessage): Bytes {
    Field16(m.id, Field32(m.value, StatusBytes(m)))
  }

  function StatusBytes(m: QueueMessage): Bytes {
    [m.state % 256] + (U32(m.deliveryCount) + Field16(m.consumerId, TimesBytes(m)))
  }

  function TimesBytes(m: QueueMessage): Bytes {
    U64(m.enqueuedAt) + (U64(m.inFlightAt) + (U64(m.visibilityTimeout) + (U32(m.maxRetries) + [])))
  }

  /** The messages whose every field fits the width it is stored in. */
  predicate MessageFits(m: QueueMessage) {
    && |m.id| < TWO_16 && |m.value| < TWO_32
    && 0 <= m.state < 256 && 0 <= m.deliveryCount < TWO_32
    && |m.consumerId| < TWO_16 && 0 <= m.maxRetries < TWO_32
  }

  function ParseMessage(d: Bytes): Decoded<QueueMessage> {
    if |d| < 39 then Malformed("too short")
    else
      var (id, r1) :- Need(TakeStr16(d), "id length overflow");
      var (value, r2) :- Need(TakeStr32(r1), "value length overflow");
      ParseStatus(id, value, r2)
  }

  function ParseStatus(id: Bytes, value: Bytes, d: Bytes): Decoded<QueueMessage> {
    var (state, r1) :- Need(TakeByte(d), "");
    var (count, r2) :- Need(TakeU32(r1), "");
    var (consumer, r3) :- Need(TakeStr16(r2), "consumerID length overflow");
    ParseTimes(id, value, state, count, consumer, r3)
  }

  function ParseTimes(id: Bytes, value: Bytes, state: byte, count: nat, consumer: Bytes,
                      d: Bytes): Decoded<QueueMessage> {
    var (enqueued, r1) :- Need(TakeI64(d), "");
    var (inFlight, r2) :- Need(TakeI64(r1), "");
    var (timeout, r3) :- Need(TakeI64(r2), "");
    var (retries, r4) :- Need(TakeU32(r3), "");
    Ok(QueueMessage(id, value, state, count, consumer, enqueued, inFlight, timeout, retries))
  }

  lemma ParseTimesExact(id: Bytes, value: Bytes, state: byte, count: nat, consumer: Bytes, d: Bytes, m: QueueMessage)
    ensures ParseTimes(id, value, state, count, consumer, d) == Decoded.Ok(m)
       <==> m.id == id && m.value == value && m.state == state && m.deliveryCount == count && m.consumerId == consumer
            && 0 <= m.maxRetries < TWO_32 && TimesBytes(m) <= d
  {
    hide TakeI64, TakeU32;
    var x3 := U32(m.maxRetries) + [];
    var x2 := U64(m.visibilityTimeout) + x3;
    var x1 := U64(m.inFlightAt) + x2;
    TakeI64Exact(d, m.enqueuedAt, x1);
    var r1 := Rest(TakeI64(d));
    TakeI64Exact(r1, m.inFlightAt, x2);
    var r2 := Rest(TakeI64(r1));
    TakeI64Exact(r2, m.visibilityTimeout, x3);
    var r3 := Rest(TakeI64(r2));
    TakeU32Exact(r3, m.maxRetries, []);
  }

  lemma ParseStatusExact(id: Bytes, value: Bytes, d: Bytes, m: QueueMessage)
    ensures ParseStatus(id, value, d) == Decoded.Ok(m)
       <==> m.id == id && m.value == value && 0 <= m.state < 256 && 0 <= m.deliveryCount < TWO_32
            && |m.consumerId| < TWO_16 && 0 <= m.maxRetries < TWO_32 && StatusBytes(m) <= d
  {
    hide TakeByte, TakeU32, TakeStr16, Field16, TimesBytes, ParseTimes;
    var x3 := TimesBytes(m);
    var x2 := Field16(m.consumerId, x3);
    var x1 := U32(m.deliveryCount) + x2;
    TakeByteExact(d, m.state % 256, x1);
    var r1 := Rest(TakeByte(d));
    TakeU32Exact(r1, m.deliveryCount, x2);
    var r2 := Rest(TakeU32(r1));
    TakeStr16Exact(r2, m.consumerId, x3);
    if TakeByte(d).Took? && TakeU32(r1).Took? && TakeStr16(r2).Took? {
      ParseTimesExact(id, value, TakeByte(d).value, TakeU32(r1).value, TakeStr16(r2).value, TakeStr16(r2).rest, m);
    }
  }

  lemma MessageBytesLength(m: QueueMessage)
    ensures |MessageBytes(m)| == 41 + |m.id| + |m.value| + |m.consumerId|
  {
  }

  /** The decoder accepts exactly the byte strings that begin with the encoding of a message that
      fits, and returns that message. */
  lemma ParseMessageExact(d: Bytes, m: QueueMessage)
    ensures ParseMessage(d) == Decoded.Ok(m) <==> MessageFits(m) && MessageBytes(m) <= d
  {
    hide TakeStr16, TakeStr32, Field16, Field32, StatusBytes, ParseStatus;
    MessageBytesLength(m);
    var x2 := StatusBytes(m);
    var x1 := Field32(m.value, x2);
    TakeStr16Exact(d, m.id, x1);
    var r1 := Rest(TakeStr16(d));
    TakeStr32Exact(r1, m.value, x2);
    var r2 := Rest(TakeStr32(r1));
    if TakeStr16(d).Took? && TakeStr32(r1).Took? {
      ParseStatusExact(TakeStr16(d).value, TakeStr32(r1).value, r2, m);
    }
  }

  /** A stored message is read back unchanged exactly when every field fits its width. */
  lemma MessageRoundTrip(m: QueueMessage)
    ensures ParseMessage(MessageBytes(m)) == Decoded.Ok(m) <==> MessageFits(m)
  {
    ParseMessageExact(MessageBytes(m), m);
  }

  method EncodeQueueMessage(m: QueueMessage) returns (data: Bytes)
    ensures data == MessageBytes(m)
  {
    hide *;
    ghost var r11: Bytes := [];
    ghost var r10 := U32(m.maxRetries) + r11;
    ghost var r9 := U64(m.visibilityTimeout) + r10;
    ghost var r8 := U64(m.inFlightAt) + r9;
    ghost var r7 := U64(m.enqueuedAt) + r8;
    ghost var r6 := m.consumerId + r7;
    ghost var r5 := U16(|m.consumerId|) + r6;
    ghost var r4 := U32(m.deliveryCount) + r5;
    ghost var r3 := [m.state % 256] + r4;
    ghost var r2 := m.value + r3;
    ghost var r1 := U32(|m.value|) + r2;
    ghost var r0 := m.id + r1;
    var size := 2 + |m.id| + 4 + |m.value| + 1 + 4 + 2 + |m.consumerId| + 8 + 8 + 8 + 4;
    var buf := new byte[size];
    ghost var whole := U16(|m.id|) + r0;
    Begin(buf, whole);
    var pos := 0;
    pos := PutUint16(buf, pos, |m.id|, r0, whole);
    pos := PutBytes(buf, pos, m.id, r1, whole);
    pos := PutUint32(buf, pos, |m.value|, r2, whole);
    pos := PutBytes(buf, pos, m.value, r3, whole);
    pos := PutByte(buf, pos, m.state % 256, r4, whole);
    pos := PutUint32(buf, pos, m.deliveryCount, r5, whole);
    pos := PutUint16(buf, pos, |m.consumerId|, r6, whole);
    pos := PutBytes(buf, pos, m.consumerId, r7, whole);
    pos := PutUint64(buf, pos, m.enqueuedAt, r8, whole);
    pos := PutUint64(buf, pos, m.inFlightAt, r9, whole);
    pos := PutUint64(buf, pos, m.visibilityTimeout, r10, whole);
    pos := PutUint32(buf, pos, m.maxRetries, r11, whole);
    Filled(buf, pos, whole);
    data := buf[..];
    MessageBytesFlat(m);
  }

  lemma MessageBytesFlat(m: QueueMessage)
    ensures MessageBytes(m) == U16(|m.id|) + (m.id + (U32(|m.value|) + (m.value + ([m.state % 256]
            + (U32(m.deliveryCount) + (U16(|m.consumerId|) + (m.consumerId + (U64(m.enqueuedAt)
            + (U64(m.inFlightAt) + (U64(m.visibilityTimeout) + (U32(m.maxRetries) + [])))))))))))
  {
  }

  /** How the decoder of a message ends, by the positions it reaches: an announced length that goes too far is an
      error, as are fewer than 39 bytes; a fixed field that goes too far panics. */
  predicate EndsAs(d: Bytes, r: Decoded<QueueMessage>) {
    if |d| < 39 then r.Malformed?
    else
      var id := 2 + GetU16(d, 0);
      if |d| < id then r.Malformed?
      else if |d| < id + 4 then r == Panic
      else
        var value := id + 4 + GetU32(d, id);
        if |d| < value then r.Malformed?
        else if |d| < value + 7 then r == Panic
        else
          var consumer := value + 7 + GetU16(d, value + 5);
          if |d| < consumer then r.Malformed?
          else if |d| < consumer + 28 then r == Panic
          else r.Ok?
  }

  lemma ParseMessageEnds(d: Bytes)
    ensures EndsAs(d, ParseMessage(d))
  {
    hide GetU16, GetU32, TakeStr16, TakeStr32, ParseStatus;
    assert d[0..] == d;
    Str16At(d, 0);
    if |d| >= 39 && |d| >= 2 + GetU16(d, 0) {
      var id := 2 + GetU16(d, 0);
      Str32At(d, id);
      if |d| >= id + 4 && |d| >= id + 4 + GetU32(d, id) {
        ParseStatusEnds(TakeStr16(d).value, TakeStr32(d[id..]).value, d, id + 4 + GetU32(d, id));
      }
    }
  }

  lemma ParseStatusEnds(id: Bytes, value: Bytes, d: Bytes, pos: nat)
    requires pos <= |d|
    ensures var r := ParseStatus(id, value, d[pos..]);
            if |d| < pos + 7 then r == Panic
            else
              var consumer := pos + 7 + GetU16(d, pos + 5);
              if |d| < consumer then r.Malformed? else if |d| < consumer + 28 then r == Panic else r.Ok?
  {
    hide GetU16, GetU32, TakeStr16, TakeByte, TakeU32, ParseTimes;
    NumberAt(d, pos);
    if |d| >= pos + 1 {
      NumberAt(d, pos + 1);
      if |d| >= pos + 5 {
        Str16At(d, pos + 5);
        if |d| >= pos + 7 && |d| >= pos + 7 + GetU16(d, pos + 5) {
          var n := pos + 7 + GetU16(d, pos + 5);
          ParseTimesEnds(id, value, d[pos], GetU32(d, pos + 1), d[pos + 7..n], d[n..]);
        }
      }
    }
  }

  lemma ParseTimesEnds(id: Bytes, value: Bytes, state: byte, count: nat, consumer: Bytes, d: Bytes)
    ensures var r := ParseTimes(id, value, state, count, consumer, d);
            if |d| < 28 then r == Panic else r.Ok?
  {
    hide GetU64, GetU32;
  }

  method DecodeQueueMessage(data: Bytes) returns (r: Decoded<QueueMessage>)
    ensures r == ParseMessage(data) && EndsAs(data, r)
  {
    ParseMessageEnds(data);
    hide GetU16, GetU32, TakeStr16, TakeStr32, ParseStatus;
    if |data| < 39 {
      return Malformed("too short");
    }
    var pos := 0;
    Str16At(data, pos);
    assert data[0..] == data;
    var idLen := GetU16(data, pos);
    pos := pos + 2;
    if |data| < pos + idLen {
      return Malformed("id length overflow");
    }
    var id := data[pos..pos + idLen];
    pos := pos + idLen;
    Str32At(data, pos);
    if |data| < pos + 4 {
      return Panic;
    }
    var valueLen := GetU32(data, pos);
    pos := pos + 4;
    if |data| < pos + valueLen {
      return Malformed("value length overflow");
    }
    var value := data[pos..pos + valueLen];
    pos := pos + valueLen;
    r := DecodeStatus(data, pos, id, value);
  }

  /** The same decoder from the state byte on. */
  method DecodeStatus(data: Bytes, start: nat, id: Bytes, value: Bytes) returns (r: Decoded<QueueMessage>)
    requires start <= |data|
    ensures r == ParseStatus(id, value, data[start..])
  {
    hide GetU16, GetU32, GetU64, TakeByte, TakeU32, TakeStr16, TakeI64, ParseTimes;
    var pos := start;
    NumberAt(data, pos);
    if |data| < pos + 1 {
      return Panic;
    }
    var state := data[pos];
    pos := pos + 1;
    NumberAt(data, pos);
    if |data| < pos + 4 {
      return Panic;
    }
    var count := GetU32(data, pos);
    pos := pos + 4;
    Str16At(data, pos);
    if |data| < pos + 2 {
      return Panic;
    }
    var consumerLen := GetU16(data, pos);
    pos := pos + 2;
    if |data| < pos + consumerLen {
      return Malformed("consumerID length overflow");
    }
    var consumer := data[pos..pos + consumerLen];
    pos := pos + consumerLen;
    r := DecodeTimes(data, pos, id, value, state, count, consumer);
  }

  /** The same decoder from the timestamps on. */
  method DecodeTimes(data: Bytes, start: nat, id: Bytes, value: Bytes, state: byte, count: nat, consumer: Bytes)
    returns (r: Decoded<QueueMessage>)
    requires start <= |data|
    ensures r == ParseTimes(id, value, state, count, consumer, data[start..])
  {
    hide GetU16, GetU32, GetU64, TakeByte, TakeU16, TakeU32, TakeI64, Signed64;
    var pos := start;
    NumberAt(data, pos);
    if |data| < pos + 8 {
      return Panic;
    }
    var enqueued := Signed64(GetU64(data, pos));
    pos := pos + 8;
    NumberAt(data, pos);
    if |data| < pos + 8 {
      return Panic;
    }
    var inFlight := Signed64(GetU64(data, pos));
    pos := pos + 8;
    NumberAt(data, pos);
    if |data| < pos + 8 {
      return Panic;
    }
    var timeout := Signed64(GetU64(data, pos));
    pos := pos + 8;
    NumberAt(data, pos);
    if |data| < pos + 4 {
      return Panic;
    }
    var retries := GetU32(data, pos);
    r := Decoded.Ok(QueueMessage(id, value, state, count, consumer, enqueued, inFlight, timeout, retries));
  }

  // ---------- configurations ----------

  function ConfigBytes(c: QueueConfig): Bytes {
    Field16(c.name, Field16(c.deadLetterQueue, U32(c.maxRetries) + (U64(c.defaultVisibilityTimeout) + [])))
  }

  predicate ConfigFits(c: QueueConfig) {
    |c.name| < TWO_16 && |c.deadLetterQueue| < TWO_16 && 0 <= c.maxRetries < TWO_32
  }

  function ParseConfig(d: Bytes): Decoded<QueueConfig> {
    if |d| < 16 then Malformed("too short")
    else
      var (name, r1) :- Need(TakeStr16(d), "name length overflow");
      var (dlq, r2) :- Need(TakeStr16(r1), "dlq length overflow");
      var (retries, r3) :- Need(TakeU32(r2), "");
      var (timeout, r4) :- Need(TakeI64(r3), "");
      Ok(QueueConfig(name, dlq, retries, timeout))
  }

  /** The same for a configuration, of which fewer than 16 bytes are an error. */
  predicate ConfigEndsAs(d: Bytes, r: Decoded<QueueConfig>) {
    if |d| < 16 then r.Malformed?
    else
      var name := 2 + GetU16(d, 0);
      if |d| < name then r.Malformed?
      else if |d| < name + 2 then r == Panic
      else
        var dlq := name + 2 + GetU16(d, name);
        if |d| < dlq then r.Malformed? else if |d| < dlq + 12 then r == Panic else r.Ok?
  }

  lemma ParseConfigEnds(d: Bytes)
    ensures ConfigEndsAs(d, ParseConfig(d))
  {
    hide GetU16, GetU32, GetU64, TakeStr16;
    assert d[0..] == d;
    Str16At(d, 0);
    if |d| >= 16 && |d| >= 2 + GetU16(d, 0) {
      Str16At(d, 2 + GetU16(d, 0));
    }
  }

  lemma ConfigBytesLength(c: QueueConfig)
    ensures |ConfigBytes(c)| == 16 + |c.name| + |c.deadLetterQueue|
  {
  }

  lemma ParseConfigExact(d: Bytes, c: QueueConfig)
    ensures ParseConfig(d) == Decoded.Ok(c) <==> ConfigFits(c) && ConfigBytes(c) <= d
  {
    hide TakeStr16, TakeU32, TakeI64, Field16;
    ConfigBytesLength(c);
    var x3 := U64(c.defaultVisibilityTimeout) + [];
    var x2 := U32(c.maxRetries) + x3;
    var x1 := Field16(c.deadLetterQueue, x2);
    TakeStr16Exact(d, c.name, x1);
    var r1 := Rest(TakeStr16(d));
    TakeStr16Exact(r1, c.deadLetterQueue, x2);
    var r2 := Rest(TakeStr16(r1));
    TakeU32Exact(r2, c.maxRetries, x3);
    var r3 := Rest(TakeU32(r2));
    TakeI64Exact(r3, c.defaultVisibilityTimeout, []);
  }

  /** What is read back after a configuration was stored: the retry limit as an unsigned 32-bit
      number, so that a negative limit comes back as a huge one. */
  lemma ConfigReadBack(c: QueueConfig)
    requires |c.name| < TWO_16 && |c.deadLetterQueue| < TWO_16
    ensures ParseConfig(ConfigBytes(c)) == Decoded.Ok(c.(maxRetries := c.maxRetries % TWO_32))
  {
    var stored := c.(maxRetries := c.maxRetries % TWO_32);
    assert U32(stored.maxRetries) == U32(c.maxRetries) by {
      SameLow32(stored.maxRetries, c.maxRetries);
    }
    assert ConfigBytes(stored) == ConfigBytes(c);
    ParseConfigExact(ConfigBytes(c), stored);
  }

  method EncodeQueueConfig(c: QueueConfig) returns (data: Bytes)
    ensures data == ConfigBytes(c)
  {
    hide *;
    ghost var r5: Bytes := [];
    ghost var r4 := U64(c.defaultVisibilityTimeout) + r5;
    ghost var r3 := U32(c.maxRetries) + r4;
    ghost var r2 := c.deadLetterQueue + r3;
    ghost var r1 := U16(|c.deadLetterQueue|) + r2;
    ghost var r0 := c.name + r1;
    var size := 2 + |c.name| + 2 + |c.deadLetterQueue| + 4 + 8;
    var buf := new byte[size];
    ghost var whole := U16(|c.name|) + r0;
    Begin(buf, whole);
    var pos := 0;
    pos := PutUint16(buf, pos, |c.name|, r0, whole);
    pos := PutBytes(buf, pos, c.name, r1, whole);
    pos := PutUint16(buf, pos, |c.deadLetterQueue|, r2, whole);
    pos := PutBytes(buf, pos, c.deadLetterQueue, r3, whole);
    pos := PutUint32(buf, pos, c.maxRetries, r4, whole);
    pos := PutUint64(buf, pos, c.defaultVisibilityTimeout, r5, whole);
    Filled(buf, pos, whole);
    data := buf[..];
    ConfigBytesFlat(c);
  }

  lemma ConfigBytesFlat(c: QueueConfig)
    ensures ConfigBytes(c) == U16(|c.name|) + (c.name + (U16(|c.deadLetterQueue|) + (c.deadLetterQueue
            + (U32(c.maxRetries) + (U64(c.defaultVisibilityTimeout) + [])))))
  {
  }

  method DecodeQueueConfig(data: Bytes) returns (r: Decoded<QueueConfig>)
    ensures r == ParseConfig(data) && ConfigEndsAs(data, r)
  {
    ParseConfigEnds(data);
    hide GetU16, GetU32, GetU64, TakeStr16, TakeU32, TakeI64;
    if |data| < 16 {
      return Malformed("too short");
    }
    var pos := 0;
    Str16At(data, pos);
    assert data[0..] == data;
    var nameLen := GetU16(data, pos);
    pos := pos + 2;
    if |data| < pos + nameLen {
      return Malformed("name length overflow");
    }
    var name := data[pos..pos + nameLen];
    pos := pos + nameLen;
    Str16At(data, pos);
    if |data| < pos + 2 {
      return Panic;
    }
    var dlqLen := GetU16(data, pos);
    pos := pos + 2;
    if |data| < pos + dlqLen {
      return Malformed("dlq length overflow");
    }
    var dlq := data[pos..pos + dlqLen];
    pos := pos + dlqLen;
    NumberAt(data, pos);
    if |data| < pos + 4 {
      return Panic;
    }
    var retries := GetU32(data, pos);
    pos := pos + 4;
    NumberAt(data, pos);
    if |data| < pos + 8 {
      return Panic;
    }
    var timeout := Signed64(GetU64(data, pos));
    r := Decoded.Ok(QueueConfig(name, dlq, retries, timeout));
  }
}
