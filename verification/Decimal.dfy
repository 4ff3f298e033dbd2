/** Decimal rendering of integers as `%d` and `%020d` produce it, and why zero-padded
    numbers sort as the numbers do. */
module Decimal {
  import opened ByteStrings
  import opened OrderedStore

  const COLON: byte := 58
  const MINUS: byte := 45

  predicate ColonFree(s: Bytes) {
    COLON !in s
  }

  function Digit(d: int): byte
    requires 0 <= d < 10
  {
    48 + d
  }

  /** `%d` of a non-negative number. */
  function Dec(n: nat): (b: Bytes)
    ensures b != [] && ColonFree(b) && MINUS !in b
  {
    if n < 10 then [Digit(n)] else Dec(n / 10) + [Digit(n % 10)]
  }

  /** `%d` */
  function DecInt(n: int): (b: Bytes)
    ensures ColonFree(b)
    ensures b != [] && (b[0] == MINUS <==> n < 0)
  {
    if n < 0 then [MINUS] + Dec(-n) else Dec(n)
  }

  /** The number that decimal digits denote. */
  ghost function Value(b: Bytes): int {
    if b == [] then 0 else Value(b[..|b| - 1]) * 10 + (b[|b| - 1] as int - 48)
  }

  lemma {:induction false} DecValue(n: nat)
    ensures Value(Dec(n)) == n
  {
    var b := Dec(n);
    if n < 10 {
      assert b[..0] == [];
    } else {
      DecValue(n / 10);
      assert b[..|b| - 1] == Dec(n / 10);
    }
  }

  lemma DecInjective(m: nat, n: nat)
    requires Dec(m) == Dec(n)
    ensures m == n
  {
    DecValue(m);
    DecValue(n);
  }

  lemma DecIntInjective(m: int, n: int)
    requires DecInt(m) == DecInt(n)
    ensures m == n
  {
    if m < 0 && n < 0 {
      assert DecInt(m)[1..] == Dec(-m) && DecInt(n)[1..] == Dec(-n);
      DecInjective(-m, -n);
    } else if m >= 0 && n >= 0 {
      DecInjective(m, n);
    }
  }

  // ---------- fixed width ----------

  function Pow10(w: nat): (p: nat)
    ensures p > 0
  {
    if w == 0 then 1 else 10 * Pow10(w - 1)
  }

  /** The last `w` decimal digits of `n`. */
  function Padded(n: nat, w: nat): (b: Bytes)
    ensures |b| == w && ColonFree(b)
    ensures forall i :: 0 <= i < w ==> b[i] >= 48
  {
    if w == 0 then [] else Padded(n / 10, w - 1) + [Digit(n % 10)]
  }

  /** Zero-padded numbers that fit the width sort byte-wise as the numbers do. */
  lemma {:induction false} PaddedOrder(m: nat, n: nat, w: nat)
    requires m < n < Pow10(w)
    ensures Less(Padded(m, w), Padded(n, w))
  {
    if w > 0 {
      var pm, pn := Padded(m / 10, w - 1), Padded(n / 10, w - 1);
      if m / 10 == n / 10 {
        LessAfterPrefix(pm, [Digit(m % 10)], [Digit(n % 10)]);
      } else {
        PaddedOrder(m / 10, n / 10, w - 1);
        LessBeforeSuffix(pm, pn, [Digit(m % 10)], [Digit(n % 10)]);
      }
    }
  }

  lemma PaddedOrderIff(m: nat, n: nat, w: nat)
    requires m < Pow10(w) && n < Pow10(w)
    ensures m < n <==> Less(Padded(m, w), Padded(n, w))
    ensures m == n <==> Padded(m, w) == Padded(n, w)
  {
    LessIrreflexive(Padded(m, w));
    if m < n {
      PaddedOrder(m, n, w);
    } else if n < m {
      PaddedOrder(n, m, w);
      LessAsymmetric(Padded(n, w), Padded(m, w));
    }
  }

  lemma Pow10Of20()
    ensures TWO_64 < Pow10(20)
    ensures TWO_63 < Pow10(19)
  {
    assert Pow10(4) == 10000;
    assert Pow10(8) == 1_0000_0000;
    assert Pow10(12) == 1_0000_0000_0000;
    assert Pow10(16) == 1_0000_0000_0000_0000;
    assert Pow10(19) == 1000_0000_0000_0000_0000;
  }

  /** `%020d`: the sign, if any, counts towards the width. */
  function Pad20(n: int): (b: Bytes)
    requires -TWO_63 <= n < TWO_64
    ensures |b| == 20 && ColonFree(b)
  {
    if n < 0 then [MINUS] + Padded(-n, 19) else Padded(n, 20)
  }

  /** For non-negative numbers the padded order is the numeric order, and a negative
      number sorts before all of them. */
  lemma Pad20Order(m: int, n: int)
    requires -TWO_63 <= m < TWO_64 && 0 <= n < TWO_64
    ensures m < n <==> Less(Pad20(m), Pad20(n))
    ensures m == n <==> Pad20(m) == Pad20(n)
  {
    Pow10Of20();
    if m >= 0 {
      PaddedOrderIff(m, n, 20);
    } else {
      assert Pad20(m)[0] == MINUS < Pad20(n)[0];
    }
  }
}
