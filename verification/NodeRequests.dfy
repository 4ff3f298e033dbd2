/** The requests of the Node client: encoders that throw a range error where a length does not fit its field,
    and what a node makes of the bytes, which it takes in one read for one request. */
module NodeRequests {
  import opened ByteStrings
  import opened Buffers
  import opened Wire
  import opened WireCodec

  // ---------- what the encoders take ----------

  datatype Encoded = Written(data: Bytes) | RangeError

  /** The shapes of request that the client sends in batches, and the single write. */
  predicate ClientRequest(r: Request) {
    WellKinded(r) && (r.KeyValue? || r.MSet? || r.MKeys?)
  }

  /** Every length fits the field it is written to. */
  predicate Encodable(r: Request)
    requires ClientRequest(r)
  {
    Fits(r) && |PayloadOf(r)| < TWO_32
  }

  method EncodeSetRequest(key: Bytes, value: Bytes) returns (r: Encoded)
    ensures r == if Encodable(KeyValue(OP_SET, key, value)) then Written(Encode(KeyValue(OP_SET, key, value)))
                 else RangeError
  {
    hide *;
    KeyValueEncodable(key, value);
    var totalSize := 1 + 4 + 2 + |key| + 4 + |value|;
    var payloadLen := 2 + |key| + 4 + |value|;
    if payloadLen >= 0x1_0000_0000 || |key| >= 0x1_0000 || |value| >= 0x1_0000_0000 {
      return RangeError;
    }
    ghost var x1 := Field32(value, []);
    ghost var payload := Field16(key, x1);
    var buf := new byte[totalSize];
    ghost var whole := FrameWith(OP_SET, payloadLen, payload);
    var pos := PutHeader(buf, OP_SET, payloadLen, payload);
    pos := PutField16(buf, pos, key, x1, whole);
    pos := PutField32(buf, pos, value, [], whole);
    Filled(buf, pos, whole);
    FramedIs(OP_SET, payloadLen, payload);
    KeyValueIs(OP_SET, key, value);
    r := Written(buf[..]);
  }

  lemma KeyValueEncodable(key: Bytes, value: Bytes)
    ensures IsKeyValueOp(OP_SET) && ClientRequest(KeyValue(OP_SET, key, value))
    ensures Encodable(KeyValue(OP_SET, key, value)) <==>
            |key| < 0x1_0000 && |value| < 0x1_0000_0000 && 2 + |key| + 4 + |value| < 0x1_0000_0000
  {
    hide U16, U32;
  }

  /** The lists come from one group of entries and have one length. */
  method EncodeMSetRequest(keys: seq<Bytes>, values: seq<Bytes>) returns (r: Encoded)
    requires |keys| == |values|
    ensures r == if Encodable(MSet(keys, values)) then Written(Encode(MSet(keys, values))) else RangeError
  {
    hide *;
    PairsFrom(keys, values);
    ghost var pairs := PairsBytes(keys, values);
    var totalSize: nat := 1 + 4 + 2;
    for i := 0 to |keys|
      invariant totalSize + |PairsBytes(keys[i..], values[i..])| == 7 + |pairs|
    {
      NextPair(keys, values, i);
      totalSize := totalSize + 2 + |keys[i]| + 4 + |values[i]|;
    }
    PairsEnd(keys, values);
    MSetEncodable(keys, values);
    var payloadLen := totalSize - 5;
    if payloadLen >= 0x1_0000_0000 || |keys| >= 0x1_0000 {
      return RangeError;
    }
    var buf := new byte[totalSize];
    ghost var whole := FrameWith(OP_MSET, payloadLen, U16(|keys|) + pairs);
    var pos: nat := PutHeader(buf, OP_MSET, payloadLen, U16(|keys|) + pairs);
    pos := PutUint16(buf, pos, |keys|, pairs, whole);
    for i := 0 to |keys|
      invariant pos + |PairsBytes(keys[i..], values[i..])| == buf.Length
      invariant Writing(buf, pos, PairsBytes(keys[i..], values[i..]), whole)
      invariant forall k :: 0 <= k < i ==> |keys[k]| < 0x1_0000 && |values[k]| < 0x1_0000_0000
    {
      if |keys[i]| >= 0x1_0000 || |values[i]| >= 0x1_0000_0000 {
        return RangeError;
      }
      ghost var rest := PairsBytes(keys[i + 1..], values[i + 1..]);
      NextPair(keys, values, i);
      pos := PutField16(buf, pos, keys[i], Field32(values[i], rest), whole);
      pos := PutField32(buf, pos, values[i], rest, whole);
    }
    Filled(buf, pos, whole);
    MSetFlat(keys, values);
    r := Written(buf[..]);
  }

  lemma MSetEncodable(keys: seq<Bytes>, values: seq<Bytes>)
    requires |keys| == |values|
    ensures ClientRequest(MSet(keys, values))
    ensures Encodable(MSet(keys, values)) <==>
            && |keys| < 0x1_0000 && 2 + |PairsBytes(keys, values)| < 0x1_0000_0000
            && forall k :: 0 <= k < |keys| ==> |keys[k]| < 0x1_0000 && |values[k]| < 0x1_0000_0000
  {
    hide U16, PairsBytes;
    if AllShort16(keys) && AllShort32(values) {
      forall k | 0 <= k < |keys|
        ensures |keys[k]| < 0x1_0000 && |values[k]| < 0x1_0000_0000
      {
        assert Short16(keys[k]) && Short32(values[k]);
      }
    }
  }

  /** MGET and MDEL. */
  method EncodeBatchRequest(op: byte, keys: seq<Bytes>) returns (r: Encoded)
    requires op in {OP_MGET, OP_MDEL}
    ensures r == if Encodable(MKeys(op, keys)) then Written(Encode(MKeys(op, keys))) else RangeError
  {
    hide *;
    KeysFrom(keys);
    ghost var all := KeysBytes(keys);
    var totalSize: nat := 1 + 4 + 2;
    for i := 0 to |keys|
      invariant totalSize + |KeysBytes(keys[i..])| == 7 + |all|
    {
      NextKey(keys, i);
      totalSize := totalSize + 2 + |keys[i]|;
    }
    KeysEnd(keys);
    MKeysEncodable(op, keys);
    var payloadLen := totalSize - 5;
    if payloadLen >= 0x1_0000_0000 || |keys| >= 0x1_0000 {
      return RangeError;
    }
    var buf := new byte[totalSize];
    ghost var whole := FrameWith(op, payloadLen, U16(|keys|) + all);
    var pos: nat := PutHeader(buf, op, payloadLen, U16(|keys|) + all);
    pos := PutUint16(buf, pos, |keys|, all, whole);
    for i := 0 to |keys|
      invariant pos + |KeysBytes(keys[i..])| == buf.Length
      invariant Writing(buf, pos, KeysBytes(keys[i..]), whole)
      invariant forall k :: 0 <= k < i ==> |keys[k]| < 0x1_0000
    {
      if |keys[i]| >= 0x1_0000 {
        return RangeError;
      }
      ghost var rest := KeysBytes(keys[i + 1..]);
      NextKey(keys, i);
      pos := PutField16(buf, pos, keys[i], rest, whole);
    }
    Filled(buf, pos, whole);
    MKeysFlat(op, keys);
    r := Written(buf[..]);
  }

  lemma MKeysEncodable(op: byte, keys: seq<Bytes>)
    requires op in {OP_MGET, OP_MDEL}
    ensures ClientRequest(MKeys(op, keys))
    ensures Encodable(MKeys(op, keys)) <==>
            && |keys| < 0x1_0000 && 2 + |KeysBytes(keys)| < 0x1_0000_0000
            && forall k :: 0 <= k < |keys| ==> |keys[k]| < 0x1_0000
  {
    hide U16, KeysBytes;
    if AllShort16(keys) {
      forall k | 0 <= k < |keys|
        ensures |keys[k]| < 0x1_0000
      {
        assert Short16(keys[k]);
      }
    }
  }

  // ---------- what a node makes of them ----------

  const READ_BUFFER: int := 32768

  /** How many bytes a node takes in one read: its buffer, or less if the network hands over less. */
  type ReadSize = n: nat | n <= READ_BUFFER

  /** What is in the first read of a request's bytes. */
  function FirstRead(size: ReadSize, data: Bytes): Bytes {
    if |data| <= size then data else data[..size]
  }

  /** The lengths fit, and the whole request is in one read. */
  predicate Carried(size: ReadSize, r: Request)
    requires ClientRequest(r)
  {
    Encodable(r) && |Encode(r)| <= size
  }

  /** A request that the client can write reaches the node as it was sent exactly when all of it is in one
      read; of a longer one the node decodes nothing. */
  lemma CarriedIff(size: ReadSize, r: Request)
    requires ClientRequest(r) && Encodable(r)
    ensures var got := ParseRequest(FirstRead(size, Encode(r)));
            if Carried(size, r) then got == Decoded.Ok(r) else !got.Ok?
  {
    hide Fits, PayloadOf, ParsePayload, U32, GetU32;
    var data, n := Encode(r), |PayloadOf(r)|;
    if |data| <= size {
      RequestRoundTrip(r);
    } else if size >= 5 {
      var d := data[..size];
      assert data[1..5] == U32(n) && d[1..5] == data[1..5];
      ByteStrings.ReadU32(d, 1, n);
    }
  }
}
