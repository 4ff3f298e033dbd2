/** BadgerDB as an ordered map: byte-wise key order, and prefix iterators that
    yield the keys of one transaction's view in that order. */
module OrderedStore {
  import opened ByteStrings

  /** Byte-wise comparison of keys. */
  predicate Less(a: Bytes, b: Bytes)
    decreases |a|
  {
    b != [] && (a == [] || a[0] < b[0] || (a[0] == b[0] && Less(a[1..], b[1..])))
  }

  lemma {:induction false} LessIrreflexive(a: Bytes)
    ensures !Less(a, a)
  {
    if a != [] {
      LessIrreflexive(a[1..]);
    }
  }

  lemma {:induction false} LessTotal(a: Bytes, b: Bytes)
    ensures a == b || Less(a, b) || Less(b, a)
  {
    if a != [] && b != [] && a[0] == b[0] {
      LessTotal(a[1..], b[1..]);
      assert a == [a[0]] + a[1..] && b == [b[0]] + b[1..];
    }
  }

  lemma {:induction false} LessTransitive(a: Bytes, b: Bytes, c: Bytes)
    requires Less(a, b) && Less(b, c)
    ensures Less(a, c)
  {
    if a != [] && a[0] == b[0] == c[0] {
      LessTransitive(a[1..], b[1..], c[1..]);
    }
  }

  lemma LessAsymmetric(a: Bytes, b: Bytes)
    requires Less(a, b)
    ensures !Less(b, a)
  {
    if Less(b, a) {
      LessTransitive(a, b, a);
      LessIrreflexive(a);
    }
  }

  /** A shared prefix does not influence the order. */
  lemma {:induction false} LessAfterPrefix(p: Bytes, a: Bytes, b: Bytes)
    ensures Less(p + a, p + b) <==> Less(a, b)
  {
    if p == [] {
      assert p + a == a && p + b == b;
    } else {
      LessAfterPrefix(p[1..], a, b);
      assert (p + a)[1..] == p[1..] + a && (p + b)[1..] == p[1..] + b;
    }
  }

  /** Between strings of equal length the order is decided before any suffix is looked at. */
  lemma {:induction false} LessBeforeSuffix(a: Bytes, b: Bytes, x: Bytes, y: Bytes)
    requires |a| == |b| && Less(a, b)
    ensures Less(a + x, b + y)
  {
    if a[0] == b[0] {
      LessBeforeSuffix(a[1..], b[1..], x, y);
    }
    assert (a + x)[1..] == a[1..] + x && (b + y)[1..] == b[1..] + y;
  }

  // ---------- iteration ----------

  predicate IsLeast(k: Bytes, keys: set<Bytes>) {
    k in keys && forall j :: j in keys ==> !Less(j, k)
  }

  lemma {:induction false} LeastExists(keys: set<Bytes>)
    requires keys != {}
    ensures exists k :: IsLeast(k, keys)
    decreases |keys|
  {
    var x :| x in keys;
    var others := keys - {x};
    LessIrreflexive(x);
    if others == {} {
      assert keys == {x};
      assert IsLeast(x, keys);
    } else {
      LeastExists(others);
      var m :| IsLeast(m, others);
      LessTotal(x, m);
      if Less(x, m) {
        LessAsymmetric(x, m);
        forall j | j in keys
          ensures !Less(j, x)
        {
          if j != x && Less(j, x) {
            LessTransitive(j, x, m);
          }
        }
        assert IsLeast(x, keys);
      } else {
        assert IsLeast(m, keys);
      }
    }
  }

  lemma LeastUnique(a: Bytes, b: Bytes, keys: set<Bytes>)
    requires IsLeast(a, keys) && IsLeast(b, keys)
    ensures a == b
  {
    LessTotal(a, b);
  }

  /** The first key an iterator over `keys` yields. */
  function Least(keys: set<Bytes>): (k: Bytes)
    requires keys != {}
    ensures IsLeast(k, keys)
  {
    LeastExists(keys);
    assert forall a, b :: IsLeast(a, keys) && IsLeast(b, keys) ==> a == b by {
      forall a, b | IsLeast(a, keys) && IsLeast(b, keys)
        ensures a == b
      {
        LeastUnique(a, b, keys);
      }
    }
    var k :| k in keys && IsLeast(k, keys);
    k
  }

  predicate Ascending(ks: seq<Bytes>) {
    forall i, j :: 0 <= i < j < |ks| ==> Less(ks[i], ks[j])
  }

  predicate Distinct(ks: seq<Bytes>) {
    forall i, j :: 0 <= i < j < |ks| ==> ks[i] != ks[j]
  }

  lemma AscendingDistinct(ks: seq<Bytes>)
    requires Ascending(ks)
    ensures Distinct(ks)
  {
    forall i, j | 0 <= i < j < |ks|
      ensures ks[i] != ks[j]
    {
      LessIrreflexive(ks[i]);
    }
  }

  /** The keys of an iterator, in the order it yields them. */
  function Enumerate(keys: set<Bytes>): (ks: seq<Bytes>)
    ensures forall k :: k in ks <==> k in keys
    ensures |ks| == |keys|
    ensures Ascending(ks)
    decreases |keys|
  {
    if keys == {} then []
    else
      var k := Least(keys);
      var rest := Enumerate(keys - {k});
      assert forall j :: j in rest ==> Less(k, j) by {
        forall j | j in rest
          ensures Less(k, j)
        {
          LessTotal(k, j);
        }
      }
      [k] + rest
  }

  /** What `it.Seek(seek)` and then `it.Next()` visit while the keys keep `prefix`. */
  function Scan<V>(db: map<Bytes, V>, prefix: Bytes, seek: Bytes): (ks: seq<Bytes>)
    ensures forall k :: k in ks <==> k in db && prefix <= k && !Less(k, seek)
    ensures Ascending(ks)
  {
    Enumerate(set k | k in db && prefix <= k && !Less(k, seek))
  }

  /** No key with prefix `p` sorts before `p`: seeking to the prefix skips nothing. */
  lemma {:induction false} PrefixNotLess(p: Bytes, k: Bytes)
    requires p <= k
    ensures !Less(k, p)
  {
    if p != [] {
      assert k[0] == p[0] && p[1..] <= k[1..];
      PrefixNotLess(p[1..], k[1..]);
    }
  }
}
