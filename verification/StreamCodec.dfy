/** Stream messages and their stored form.  The stored form leaves out topic and partition, which
    only the key records. */
module StreamCodec {
  import opened ByteStrings
  import opened Buffers

  datatype Message = Message(topic: Bytes, partition: int, offset: Int64, key: Bytes, value: Bytes, timestamp: Int64)

  /** What a decoder gets back from a stored message. */
  datatype Record = Record(offset: Int64, timestamp: Int64, key: Bytes, value: Bytes)

  function RecordOf(m: Message): Record {
    Record(m.offset, m.timestamp, m.key, m.value)
  }

  function RecordBytes(r: Record): Bytes {
    U64(r.offset) + (U64(r.timestamp) + Field16(r.key, Field32(r.value, [])))
  }

  predicate RecordFits(r: Record) {
    |r.key| < TWO_16 && |r.value| < TWO_32
  }

  /** Every way in which the bytes can be too short is reported as the same error. */
  function Complete<T>(t: Taken<T>): Decoded<(T, Bytes)> {
    if t.Took? then Decoded.Ok((t.value, t.rest)) else Malformed("invalid message data")
  }

  function ParseRecord(d: Bytes): Decoded<Record> {
    var (offset, r1) :- Complete(TakeI64(d));
    var (timestamp, r2) :- Complete(TakeI64(r1));
    var (key, r3) :- Complete(TakeStr16(r2));
    var (value, r4) :- Complete(TakeStr32(r3));
    Decoded.Ok(Record(offset, timestamp, key, value))
  }

  /** The decoder accepts exactly the byte strings that begin with the encoding of a record that fits. */
  lemma ParseRecordExact(d: Bytes, r: Record)
    ensures ParseRecord(d) == Decoded.Ok(r) <==> RecordFits(r) && RecordBytes(r) <= d
  {
    hide TakeI64, TakeStr16, TakeStr32, Field16, Field32;
    var x3 := Field32(r.value, []);
    var x2 := Field16(r.key, x3);
    var x1 := U64(r.timestamp) + x2;
    TakeI64Exact(d, r.offset, x1);
    var r1 := Rest(TakeI64(d));
    TakeI64Exact(r1, r.timestamp, x2);
    var r2 := Rest(TakeI64(r1));
    TakeStr16Exact(r2, r.key, x3);
    var r3 := Rest(TakeStr16(r2));
    TakeStr32Exact(r3, r.value, []);
  }

  lemma RecordRoundTrip(r: Record)
    ensures ParseRecord(RecordBytes(r)) == Decoded.Ok(r) <==> RecordFits(r)
  {
    ParseRecordExact(RecordBytes(r), r);
  }

  method EncodeMessage(m: Message) returns (data: Bytes)
    ensures data == RecordBytes(RecordOf(m))
  {
    hide *;
    ghost var r5: Bytes := [];
    ghost var r4 := m.value + r5;
    ghost var r3 := U32(|m.value|) + r4;
    ghost var r2 := m.key + r3;
    ghost var r1 := U16(|m.key|) + r2;
    ghost var r0 := U64(m.timestamp) + r1;
    var size := 8 + 8 + 2 + |m.key| + 4 + |m.value|;
    var buf := new byte[size];
    ghost var whole := U64(m.offset) + r0;
    Begin(buf, whole);
    var pos := 0;
    pos := PutUint64(buf, pos, m.offset, r0, whole);
    pos := PutUint64(buf, pos, m.timestamp, r1, whole);
    pos := PutUint16(buf, pos, |m.key|, r2, whole);
    pos := PutBytes(buf, pos, m.key, r3, whole);
    pos := PutUint32(buf, pos, |m.value|, r4, whole);
    pos := PutBytes(buf, pos, m.value, r5, whole);
    Filled(buf, pos, whole);
    data := buf[..];
    RecordBytesFlat(m);
  }

  lemma RecordBytesFlat(m: Message)
    ensures RecordBytes(RecordOf(m)) == U64(m.offset) + (U64(m.timestamp) + (U16(|m.key|) + (m.key
            + (U32(|m.value|) + (m.value + [])))))
  {
  }

  method DecodeMessage(data: Bytes) returns (r: Decoded<Record>)
    ensures r == ParseRecord(data)
  {
    hide GetU16, GetU32, GetU64, TakeI64, TakeStr16, TakeStr32;
    assert data[0..] == data;
    NumberAt(data, 0);
    if |data| >= 8 {
      NumberAt(data, 8);
    }
    if |data| >= 16 {
      Str16At(data, 16);
    }
    if |data| < 18 {
      return Malformed("invalid message data");
    }
    var pos := 0;
    var offset := Signed64(GetU64(data, pos));
    pos := pos + 8;
    var timestamp := Signed64(GetU64(data, pos));
    pos := pos + 8;
    var keyLen := GetU16(data, pos);
    pos := pos + 2;
    if |data| >= pos + keyLen {
      Str32At(data, pos + keyLen);
    }
    if |data| < pos + keyLen + 4 {
      return Malformed("invalid message data");
    }
    var key := data[pos..pos + keyLen];
    pos := pos + keyLen;
    var valueLen := GetU32(data, pos);
    pos := pos + 4;
    if |data| < pos + valueLen {
      return Malformed("invalid message data");
    }
    r := Decoded.Ok(Record(offset, timestamp, key, data[pos..pos + valueLen]));
  }
}
