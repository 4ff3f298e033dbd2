/** Byte strings, big-endian integers and length-prefixed fields: the vocabulary
    that every stored record and every wire frame of Flin is written in.

    A Go `string` or `[]byte` is a `Bytes`.  The writers truncate exactly as Go's
    `uint16(n)`, `uint32(n)` and `uint64(n)` conversions do. */
module ByteStrings {

  type byte = x: int | 0 <= x < 256

  type Bytes = seq<byte>

  const TWO_16: int := 0x1_0000
  const TWO_32: int := 0x1_0000_0000
  const TWO_63: int := 0x8000_0000_0000_0000
  const TWO_64: int := 0x1_0000_0000_0000_0000

  /** A Go int64. */
  type Int64 = x: int | -0x8000_0000_0000_0000 <= x < 0x8000_0000_0000_0000

  /** The int64 that a 64-bit pattern denotes. */
  function Signed64(n: int): Int64
    requires 0 <= n < TWO_64
  {
    if n < TWO_63 then n else n - TWO_64
  }

  /** int64 addition wraps around. */
  function WrapInt64(n: int): Int64 {
    Signed64(n % TWO_64)
  }

  /** It keeps what is in range and shifts the rest by a multiple of 2^64. */
  lemma WrapInt64Is(n: int)
    ensures (WrapInt64(n) - n) % TWO_64 == 0
    ensures -TWO_63 <= n < TWO_63 ==> WrapInt64(n) == n
  {
  }

  /** The ASCII bytes of a source literal. */
  function Ascii(s: string): (b: Bytes)
    ensures |b| == |s|
  {
    seq(|s|, i requires 0 <= i < |s| => s[i] as int % 256)
  }

  /** The outcome of a decoder: a value, an error it reports, or a slice or index that
      is out of range and panics. */
  datatype Decoded<+T> =
    | Ok(value: T)
    | Malformed(reason: string)
    | Panic
  {
    predicate IsFailure() {
      !Ok?
    }

    function PropagateFailure<U>(): Decoded<U>
      requires IsFailure()
    {
      match this
      case Malformed(reason) => Malformed(reason)
      case Panic => Panic
    }

    function Extract(): T
      requires !IsFailure()
    {
      value
    }
  }

  /** What a decoding loop has collected, followed by what is still to come. */
  function After<T>(done: seq<T>, rest: Decoded<seq<T>>): Decoded<seq<T>> {
    match rest
    case Ok(more) => Ok(done + more)
    case Malformed(reason) => Malformed(reason)
    case Panic => Panic
  }

  lemma ListStart<T>(r: Decoded<seq<T>>)
    ensures r == After([], r)
  {
    if r.Ok? {
      assert [] + r.value == r.value;
    }
  }

  // ---------- writing integers ----------

  function U16(n: int): (b: Bytes)
    ensures |b| == 2
  {
    [n / 256 % 256, n % 256]
  }

  function U32(n: int): (b: Bytes)
    ensures |b| == 4
  {
    U16(n / 0x1_0000) + U16(n)
  }

  function U64(n: int): (b: Bytes)
    ensures |b| == 8
  {
    U32(n / 0x1_0000_0000) + U32(n)
  }

  /** Only the low 32 bits are written. */
  lemma SameLow32(m: int, n: int)
    requires m % TWO_32 == n % TWO_32
    ensures U32(m) == U32(n)
  {
    Bytes32(m);
    Bytes32(n);
  }

  lemma Bytes32(n: int)
    ensures U32(n) == U32(n % TWO_32)
  {
    var q, r := n / 0x1_0000_0000, n % 0x1_0000_0000;
    assert n == 0x1_0000_0000 * q + r;
    assert n / 0x1_0000 == 0x1_0000 * q + r / 0x1_0000;
    SameLow16(n, r);
    SameLow16(n / 0x1_0000, r / 0x1_0000);
  }

  lemma SameLow16(m: int, n: int)
    requires m % TWO_16 == n % TWO_16
    ensures U16(m) == U16(n)
  {
    var q := (m - n) / 0x1_0000;
    assert m == 0x1_0000 * q + n;
    assert m / 256 == 256 * q + n / 256;
  }

  // ---------- reading integers ----------

  function GetU16(b: Bytes, pos: nat): (n: nat)
    requires pos + 2 <= |b|
    ensures n < TWO_16
  {
    var hi: int := b[pos];
    hi * 256 + b[pos + 1]
  }

  function GetU32(b: Bytes, pos: nat): (n: nat)
    requires pos + 4 <= |b|
    ensures n < TWO_32
  {
    GetU16(b, pos) * 0x1_0000 + GetU16(b, pos + 2)
  }

  function GetU64(b: Bytes, pos: nat): (n: nat)
    requires pos + 8 <= |b|
    ensures n < TWO_64
  {
    GetU32(b, pos) * 0x1_0000_0000 + GetU32(b, pos + 4)
  }

  /** Equal numbers have equal high and low digits in bases 2^8, 2^16 and 2^32, and conversely. */
  lemma Digits8(n: int, h: nat, l: nat)
    requires h < 256 && l < 256
    ensures h * 256 + l == n % 0x1_0000 <==> h == n / 256 % 256 && l == n % 256
  {
    assert n % 0x1_0000 == n / 256 % 256 * 256 + n % 256;
  }

  lemma Digits16(n: int, h: nat, l: nat)
    requires h < 0x1_0000 && l < 0x1_0000
    ensures h * 0x1_0000 + l == n % 0x1_0000_0000 <==> h == n / 0x1_0000 % 0x1_0000 && l == n % 0x1_0000
  {
    assert n % 0x1_0000_0000 == n / 0x1_0000 % 0x1_0000 * 0x1_0000 + n % 0x1_0000;
  }

  lemma Digits32(n: int, h: nat, l: nat)
    requires h < 0x1_0000_0000 && l < 0x1_0000_0000
    ensures h * 0x1_0000_0000 + l == n % 0x1_0000_0000_0000_0000
       <==> h == n / 0x1_0000_0000 % 0x1_0000_0000 && l == n % 0x1_0000_0000
  {
    assert n % 0x1_0000_0000_0000_0000 == n / 0x1_0000_0000 % 0x1_0000_0000 * 0x1_0000_0000 + n % 0x1_0000_0000;
  }

  /** Reading at `pos` gives back the written number modulo 2^16, and the two bytes
      there are the writing of `n` only when they read as `n` does. */
  lemma ReadU16(b: Bytes, pos: nat, n: int)
    requires pos + 2 <= |b|
    ensures b[pos..pos + 2] == U16(n) <==> GetU16(b, pos) == n % TWO_16
  {
    var hi: int, lo: int := b[pos], b[pos + 1];
    assert b[pos..pos + 2] == [b[pos], b[pos + 1]];
    Digits8(n, hi, lo);
  }

  /** A two-part field reads as its two halves do. */
  lemma Halves(b: Bytes, pos: nat, k: nat, hi: Bytes, lo: Bytes)
    requires pos + k + k <= |b| && |hi| == |lo| == k
    ensures b[pos..pos + k + k] == hi + lo <==> b[pos..pos + k] == hi && b[pos + k..pos + k + k] == lo
  {
    var whole := b[pos..pos + k + k];
    assert whole[..k] == b[pos..pos + k] && whole[k..] == b[pos + k..pos + k + k];
    assert whole == whole[..k] + whole[k..];
    assert (hi + lo)[..k] == hi && (hi + lo)[k..] == lo;
  }

  lemma ReadU32(b: Bytes, pos: nat, n: int)
    requires pos + 4 <= |b|
    ensures b[pos..pos + 4] == U32(n) <==> GetU32(b, pos) == n % TWO_32
  {
    var h, l := GetU16(b, pos), GetU16(b, pos + 2);
    ReadU16(b, pos, n / 0x1_0000);
    ReadU16(b, pos + 2, n);
    Digits16(n, h, l);
    Halves(b, pos, 2, U16(n / 0x1_0000), U16(n));
  }

  lemma ReadU64(b: Bytes, pos: nat, n: int)
    requires pos + 8 <= |b|
    ensures b[pos..pos + 8] == U64(n) <==> GetU64(b, pos) == n % TWO_64
  {
    var h, l := GetU32(b, pos), GetU32(b, pos + 4);
    ReadU32(b, pos, n / 0x1_0000_0000);
    ReadU32(b, pos + 4, n);
    Digits32(n, h, l);
    Halves(b, pos, 4, U32(n / 0x1_0000_0000), U32(n));
  }

  // ---------- fields at the front of a byte string ----------

  /** What a decoder finds at the front of its input: a field and what follows it,
      a length prefix that promises more bytes than there are, or too few bytes to
      hold even the fixed part. */
  datatype Taken<T> =
    | Took(value: T, rest: Bytes)
    | Overflow
    | Short

  /** A string field with a 16-bit length, and what follows it. */
  function Field16(s: Bytes, x: Bytes): Bytes {
    U16(|s|) + (s + x)
  }

  /** A byte field with a 32-bit length, and what follows it. */
  function Field32(s: Bytes, x: Bytes): Bytes {
    U32(|s|) + (s + x)
  }

  /** The part of the input that a field leaves. */
  function Rest<T>(t: Taken<T>): Bytes {
    if t.Took? then t.rest else []
  }

  function TakeByte(b: Bytes): Taken<byte> {
    if |b| < 1 then Short else Took(b[0], b[1..])
  }

  function TakeU16(b: Bytes): Taken<nat> {
    if |b| < 2 then Short else Took(GetU16(b, 0), b[2..])
  }

  function TakeU32(b: Bytes): Taken<nat> {
    if |b| < 4 then Short else Took(GetU32(b, 0), b[4..])
  }

  function TakeI64(b: Bytes): Taken<Int64> {
    if |b| < 8 then Short else Took(Signed64(GetU64(b, 0)), b[8..])
  }

  function TakeStr16(b: Bytes): Taken<Bytes> {
    if |b| < 2 then Short
    else
      var n := GetU16(b, 0);
      if |b| < 2 + n then Overflow else Took(b[2..2 + n], b[2 + n..])
  }

  function TakeStr32(b: Bytes): Taken<Bytes> {
    if |b| < 4 then Short
    else
      var n := GetU32(b, 0);
      if |b| < 4 + n then Overflow else Took(b[4..4 + n], b[4 + n..])
  }

  /** What a decoder that has advanced to `pos` sees: the field parsers in terms of positions. */
  lemma Str16At(b: Bytes, pos: nat)
    requires pos <= |b|
    ensures TakeStr16(b[pos..]) ==
            if |b| < pos + 2 then Short
            else
              var n := GetU16(b, pos);
              if |b| < pos + 2 + n then Overflow else Took(b[pos + 2..pos + 2 + n], b[pos + 2 + n..])
  {
    var d := b[pos..];
    if |d| >= 2 {
      var n := GetU16(d, 0);
      assert n == GetU16(b, pos);
      if |d| >= 2 + n {
        assert d[2..2 + n] == b[pos + 2..pos + 2 + n];
        assert d[2 + n..] == b[pos + 2 + n..];
      }
    }
  }

  lemma Str32At(b: Bytes, pos: nat)
    requires pos <= |b|
    ensures TakeStr32(b[pos..]) ==
            if |b| < pos + 4 then Short
            else
              var n := GetU32(b, pos);
              if |b| < pos + 4 + n then Overflow else Took(b[pos + 4..pos + 4 + n], b[pos + 4 + n..])
  {
    var d := b[pos..];
    if |d| >= 4 {
      var n := GetU32(d, 0);
      assert n == GetU32(b, pos);
      if |d| >= 4 + n {
        assert d[4..4 + n] == b[pos + 4..pos + 4 + n];
        assert d[4 + n..] == b[pos + 4 + n..];
      }
    }
  }

  lemma NumberAt(b: Bytes, pos: nat)
    requires pos <= |b|
    ensures TakeByte(b[pos..]) == if |b| < pos + 1 then Short else Took(b[pos], b[pos + 1..])
    ensures TakeU16(b[pos..]) == if |b| < pos + 2 then Short else Took(GetU16(b, pos), b[pos + 2..])
    ensures TakeU32(b[pos..]) == if |b| < pos + 4 then Short else Took(GetU32(b, pos), b[pos + 4..])
    ensures TakeI64(b[pos..]) == if |b| < pos + 8 then Short else Took(Signed64(GetU64(b, pos)), b[pos + 8..])
  {
  }

  /** `a + x` starts `b` exactly when `a` starts `b` and `x` starts what is left. */
  lemma PrefixSplit(a: Bytes, x: Bytes, b: Bytes)
    ensures a + x <= b <==> a <= b && x <= b[|a|..]
  {
    if a + x <= b {
      assert b[..|a|] == (a + x)[..|a|] == a;
      assert b[|a|..|a| + |x|] == (a + x)[|a|..] == x;
      assert b[|a|..][..|x|] == x;
    }
    if a <= b && x <= b[|a|..] {
      assert b[|a|..][..|x|] == b[|a|..|a| + |x|];
      assert b[..|a| + |x|] == b[..|a|] + b[|a|..|a| + |x|];
    }
  }

  /** A field `head` starts `b`, followed by `x`, exactly when it is the first |head| bytes of `b`. */
  lemma HeadExact(head: Bytes, x: Bytes, b: Bytes)
    ensures head + x <= b <==> |b| >= |head| && b[0..|head|] == head && x <= b[|head|..]
  {
    PrefixSplit(head, x, b);
    if |b| >= |head| {
      assert b[0..|head|] == b[..|head|];
    }
  }

  /** The shape of a length-prefixed field, whatever the width `k` of its prefix: `n` is the length
      that the first `k` bytes of `b` announce. */
  lemma FieldExact(k: nat, head: Bytes, n: nat, s: Bytes, x: Bytes, b: Bytes)
    requires |head| == k <= |b|
    requires b[0..k] == head <==> n == |s|
    ensures (k + n <= |b| && b[k..k + n] == s && x <= b[k + n..]) <==> (n == |s| && head + s + x <= b)
  {
    HeadExact(head + s, x, b);
    HeadExact(head, s, b);
    if n == |s| && k + n <= |b| {
      assert b[k..][..n] == b[k..k + n];
      assert b[0..|head + s|] == b[0..k] + b[k..k + n];
      assert b[|head + s|..] == b[k + n..];
    }
  }

  /** The 16-bit field parser accepts exactly the fields whose length fits. */
  lemma TakeStr16Exact(b: Bytes, s: Bytes, x: Bytes)
    ensures TakeStr16(b).Took? && TakeStr16(b).value == s && x <= TakeStr16(b).rest
       <==> |s| < TWO_16 && Field16(s, x) <= b
  {
    hide U16, GetU16;
    if |b| >= 2 {
      var n := GetU16(b, 0);
      ReadU16(b, 0, |s|);
      if |s| < TWO_16 {
        FieldExact(2, U16(|s|), n, s, x, b);
        assert U16(|s|) + s + x == Field16(s, x);
      }
    }
  }

  lemma TakeStr32Exact(b: Bytes, s: Bytes, x: Bytes)
    ensures TakeStr32(b).Took? && TakeStr32(b).value == s && x <= TakeStr32(b).rest
       <==> |s| < TWO_32 && Field32(s, x) <= b
  {
    hide U32, GetU32;
    if |b| >= 4 {
      var n, head := GetU32(b, 0), U32(|s|);
      ReadU32(b, 0, |s|);
      if |s| < TWO_32 {
        FieldExact(4, head, n, s, x, b);
        assert head + s + x == Field32(s, x);
      }
    }
  }

  lemma TakeByteExact(b: Bytes, n: byte, x: Bytes)
    ensures TakeByte(b).Took? && TakeByte(b).value == n && x <= TakeByte(b).rest <==> [n] + x <= b
  {
    HeadExact([n], x, b);
    if |b| >= 1 {
      assert b[0..1] == [b[0]];
    }
  }

  lemma TakeU16Exact(b: Bytes, n: int, x: Bytes)
    ensures TakeU16(b).Took? && TakeU16(b).value == n && x <= TakeU16(b).rest
       <==> 0 <= n < TWO_16 && U16(n) + x <= b
  {
    HeadExact(U16(n), x, b);
    if |b| >= 2 {
      ReadU16(b, 0, n);
    }
  }

  lemma TakeU32Exact(b: Bytes, n: int, x: Bytes)
    ensures TakeU32(b).Took? && TakeU32(b).value == n && x <= TakeU32(b).rest
       <==> 0 <= n < TWO_32 && U32(n) + x <= b
  {
    hide U32, GetU32;
    HeadExact(U32(n), x, b);
    if |b| >= 4 {
      ReadU32(b, 0, n);
    }
  }

  lemma SignedPattern(u: int, n: Int64)
    requires 0 <= u < TWO_64
    ensures u == n % TWO_64 <==> Signed64(u) == n
  {
  }

  /** A signed 64-bit field is read back as the int64 it was written from. */
  lemma TakeI64Exact(b: Bytes, n: Int64, x: Bytes)
    ensures TakeI64(b).Took? && TakeI64(b).value == n && x <= TakeI64(b).rest <==> U64(n) + x <= b
  {
    hide U64, GetU64;
    var head := U64(n);
    HeadExact(head, x, b);
    if |b| >= 8 {
      var u := GetU64(b, 0);
      assert b[0..8] == head <==> Signed64(u) == n by {
        ReadU64(b, 0, n);
        SignedPattern(u, n);
      }
    }
  }
}

/** The in-place writers the encoders share: `binary.BigEndian.PutUintN(buf[pos:], v)`
    and `copy(buf[pos:], s)`.  An encoder's progress is one fact, that what has been written
    and the bytes still to be written make up the whole record. */
module Buffers {
  import opened ByteStrings

  ghost predicate Writing(buf: array<byte>, pos: nat, rest: Bytes, whole: Bytes)
    reads buf
  {
    pos <= buf.Length && buf[..pos] + rest == whole
  }

  lemma Begin(buf: array<byte>, whole: Bytes)
    ensures Writing(buf, 0, whole, whole)
  {
    assert buf[..0] == [];
  }

  lemma Filled(buf: array<byte>, pos: nat, whole: Bytes)
    requires Writing(buf, pos, [], whole) && pos == buf.Length
    ensures buf[..] == whole
  {
    assert buf[..] == buf[..pos] + [];
  }

  method PutBytes(buf: array<byte>, pos: nat, s: Bytes, ghost rest: Bytes, ghost whole: Bytes) returns (next: nat)
    requires pos + |s| <= buf.Length && Writing(buf, pos, s + rest, whole)
    modifies buf
    ensures next == pos + |s| && Writing(buf, next, rest, whole)
  {
    forall i | 0 <= i < |s| {
      buf[pos + i] := s[i];
    }
    next := pos + |s|;
    assert buf[..pos] == old(buf[..pos]);
    assert buf[..next] == buf[..pos] + s;
    assert buf[..pos] + s + rest == buf[..pos] + (s + rest);
  }

  method PutByte(buf: array<byte>, pos: nat, v: byte, ghost rest: Bytes, ghost whole: Bytes) returns (next: nat)
    requires pos + 1 <= buf.Length && Writing(buf, pos, [v] + rest, whole)
    modifies buf
    ensures next == pos + 1 && Writing(buf, next, rest, whole)
  {
    next := PutBytes(buf, pos, [v], rest, whole);
  }

  method PutUint16(buf: array<byte>, pos: nat, v: int, ghost rest: Bytes, ghost whole: Bytes) returns (next: nat)
    requires pos + 2 <= buf.Length && Writing(buf, pos, U16(v) + rest, whole)
    modifies buf
    ensures next == pos + 2 && Writing(buf, next, rest, whole)
  {
    hide U16, Writing;
    next := PutBytes(buf, pos, U16(v), rest, whole);
  }

  method PutUint32(buf: array<byte>, pos: nat, v: int, ghost rest: Bytes, ghost whole: Bytes) returns (next: nat)
    requires pos + 4 <= buf.Length && Writing(buf, pos, U32(v) + rest, whole)
    modifies buf
    ensures next == pos + 4 && Writing(buf, next, rest, whole)
  {
    hide U32, Writing;
    next := PutBytes(buf, pos, U32(v), rest, whole);
  }

  method PutUint64(buf: array<byte>, pos: nat, v: int, ghost rest: Bytes, ghost whole: Bytes) returns (next: nat)
    requires pos + 8 <= buf.Length && Writing(buf, pos, U64(v) + rest, whole)
    modifies buf
    ensures next == pos + 8 && Writing(buf, next, rest, whole)
  {
    hide U64, Writing;
    next := PutBytes(buf, pos, U64(v), rest, whole);
  }

  /** A string with its 16-bit length in front. */
  method PutField16(buf: array<byte>, pos: nat, s: Bytes, ghost rest: Bytes, ghost whole: Bytes) returns (next: nat)
    requires pos + 2 + |s| <= buf.Length && Writing(buf, pos, Field16(s, rest), whole)
    modifies buf
    ensures next == pos + 2 + |s| && Writing(buf, next, rest, whole)
  {
    hide U16, Writing;
    next := PutUint16(buf, pos, |s|, s + rest, whole);
    next := PutBytes(buf, next, s, rest, whole);
  }

  /** A byte slice with its 32-bit length in front. */
  method PutField32(buf: array<byte>, pos: nat, s: Bytes, ghost rest: Bytes, ghost whole: Bytes) returns (next: nat)
    requires pos + 4 + |s| <= buf.Length && Writing(buf, pos, Field32(s, rest), whole)
    modifies buf
    ensures next == pos + 4 + |s| && Writing(buf, next, rest, whole)
  {
    hide U32, Writing;
    next := PutUint32(buf, pos, |s|, s + rest, whole);
    next := PutBytes(buf, next, s, rest, whole);
  }
}
