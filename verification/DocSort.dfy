/** Sorting of query results: the in-place bubble sort, and the stable sort it computes. */
module DocSort {
  import opened ByteStrings
  import opened Documents

  datatype SortOption = SortOption(field: Bytes, descending: bool)

  /** The number a value counts as in comparisons: 0 for everything that is not a number. */
  function Number(v: Value): real {
    match v
    case Num(x) => x
    case Int(i) => i as real
    case Long(n) => n as real
    case _ => 0.0
  }

  /** Documents are sorted by increasing rank. */
  function Rank(doc: Document, opt: SortOption): real {
    var x := if opt.field in doc then Number(doc[opt.field]) else 0.0;
    if opt.descending then -x else x
  }

  /** The number in a field, 0 if there is none. */
  function NumberIn(doc: Document, f: Bytes): real {
    if f !in doc then 0.0
    else
      match doc[f]
      case Num(x) => x
      case Int(i) => i as real
      case Long(n) => n as real
      case _ => 0.0
  }

  predicate Sorted(s: seq<Document>, opt: SortOption) {
    forall i, j :: 0 <= i < j < |s| ==> Rank(s[i], opt) <= Rank(s[j], opt)
  }

  /** The documents of one rank, in order. */
  function ClassOf(s: seq<Document>, opt: SortOption, r: real): seq<Document> {
    if s == [] then []
    else
      var n := |s| - 1;
      ClassOf(s[..n], opt, r) + (if Rank(s[n], opt) == r then [s[n]] else [])
  }

  /** A stable rearrangement: the documents of each rank are the same, in the same order. */
  ghost predicate SameClasses(s: seq<Document>, t: seq<Document>, opt: SortOption) {
    forall r :: ClassOf(s, opt, r) == ClassOf(t, opt, r)
  }

  lemma {:induction false} ClassConcat(s: seq<Document>, t: seq<Document>, opt: SortOption, r: real)
    ensures ClassOf(s + t, opt, r) == ClassOf(s, opt, r) + ClassOf(t, opt, r)
    decreases |t|
  {
    hide Rank;
    if t == [] {
      assert s + t == s;
    } else {
      var n := |t| - 1;
      assert (s + t)[..|s + t| - 1] == s + t[..n];
      ClassConcat(s, t[..n], opt, r);
    }
  }

  /** Exchanging neighbours of different rank is a stable rearrangement. */
  lemma SwapSameClasses(s: seq<Document>, j: nat, opt: SortOption)
    requires j + 1 < |s| && Rank(s[j], opt) != Rank(s[j + 1], opt)
    ensures SameClasses(s[j := s[j + 1]][j + 1 := s[j]], s, opt)
  {
    hide Rank;
    var x, y := s[j], s[j + 1];
    var t := s[j := y][j + 1 := x];
    assert s == s[..j] + ([x, y] + s[j + 2..]) && t == s[..j] + ([y, x] + s[j + 2..]);
    forall r
      ensures ClassOf(t, opt, r) == ClassOf(s, opt, r)
    {
      ClassConcat(s[..j], [x, y] + s[j + 2..], opt, r);
      ClassConcat(s[..j], [y, x] + s[j + 2..], opt, r);
      ClassConcat([x, y], s[j + 2..], opt, r);
      ClassConcat([y, x], s[j + 2..], opt, r);
      ClassOfTwo(x, y, opt, r);
    }
  }

  lemma ClassOfTwo(x: Document, y: Document, opt: SortOption, r: real)
    requires Rank(x, opt) != Rank(y, opt)
    ensures ClassOf([x, y], opt, r) == ClassOf([y, x], opt, r)
  {
    hide Rank;
    assert [x, y][..1] == [x] && [y, x][..1] == [y];
    assert [x][..0] == [] && [y][..0] == [];
  }

  /** A rearrangement loses no document and repeats none. */
  lemma SameClassesPermutes(s: seq<Document>, t: seq<Document>, opt: SortOption)
    requires SameClasses(s, t, opt)
    ensures multiset(s) == multiset(t)
  {
    hide ClassOf;
    forall d: Document
      ensures multiset(s)[d] == multiset(t)[d]
    {
      CountInClass(s, opt, d);
      CountInClass(t, opt, d);
    }
  }

  lemma {:induction false} CountInClass(s: seq<Document>, opt: SortOption, d: Document)
    ensures multiset(ClassOf(s, opt, Rank(d, opt)))[d] == multiset(s)[d]
    decreases |s|
  {
    hide Rank;
    if s != [] {
      var n := |s| - 1;
      assert s == s[..n] + [s[n]];
      CountInClass(s[..n], opt, d);
    }
  }

  lemma ClassOfLast(s: seq<Document>, opt: SortOption, r: real)
    requires s != []
    ensures ClassOf(s, opt, r)
         == ClassOf(s[..|s| - 1], opt, r) + (if Rank(s[|s| - 1], opt) == r then [s[|s| - 1]] else [])
  {
  }

  lemma CancelLast<T>(a: seq<T>, x: T, b: seq<T>, y: T)
    requires a + [x] == b + [y]
    ensures a == b && x == y
  {
    assert |a| + 1 == |b| + 1;
    assert (a + [x])[|a|] == x && (b + [y])[|b|] == y;
    assert a == (a + [x])[..|a|] && b == (b + [y])[..|b|];
  }

  /** In sorted rearrangements of each other nothing ranks above the last document of either. */
  lemma LastRank(s: seq<Document>, t: seq<Document>, opt: SortOption)
    requires Sorted(s, opt) && Sorted(t, opt) && SameClasses(s, t, opt) && s != [] && t != []
    ensures Rank(s[|s| - 1], opt) == Rank(t[|t| - 1], opt)
  {
    hide Rank, ClassOf, SameClasses;
    SameClassesPermutes(s, t, opt);
    var x, y := s[|s| - 1], t[|t| - 1];
    assert x in multiset(s) && y in multiset(t);
    assert x in t && y in s;
  }

  lemma SameInit(s: seq<Document>, t: seq<Document>, opt: SortOption)
    requires SameClasses(s, t, opt) && s != [] && t != [] && Rank(s[|s| - 1], opt) == Rank(t[|t| - 1], opt)
    ensures s[|s| - 1] == t[|t| - 1] && SameClasses(s[..|s| - 1], t[..|t| - 1], opt)
  {
    hide Rank;
    var n, m := |s| - 1, |t| - 1;
    var r := Rank(s[n], opt);
    assert ClassOf(s, opt, r) == ClassOf(t, opt, r);
    CancelLast(ClassOf(s[..n], opt, r), s[n], ClassOf(t[..m], opt, r), t[m]);
    forall q
      ensures ClassOf(s[..n], opt, q) == ClassOf(t[..m], opt, q)
    {
      assert ClassOf(s, opt, q) == ClassOf(t, opt, q);
      ClassOfLast(s, opt, q);
      ClassOfLast(t, opt, q);
      if q == r {
        CancelLast(ClassOf(s[..n], opt, q), s[n], ClassOf(t[..m], opt, q), t[m]);
      } else {
        assert ClassOf(s[..n], opt, q) == ClassOf(s[..n], opt, q) + [];
        assert ClassOf(t[..m], opt, q) == ClassOf(t[..m], opt, q) + [];
      }
    }
  }

  /** There is only one sorted stable rearrangement. */
  lemma {:induction false} StableUnique(s: seq<Document>, t: seq<Document>, opt: SortOption)
    requires Sorted(s, opt) && Sorted(t, opt) && SameClasses(s, t, opt)
    ensures s == t
    decreases |s|
  {
    hide Rank, ClassOf, SameClasses;
    if s == [] || t == [] {
      SameClassesPermutes(s, t, opt);
      assert |multiset(s)| == |multiset(t)|;
    } else {
      var n, m := |s| - 1, |t| - 1;
      LastRank(s, t, opt);
      SameInit(s, t, opt);
      StableUnique(s[..n], t[..m], opt);
      assert s == s[..n] + [s[n]] && t == t[..m] + [t[m]];
    }
  }

  // ---------- the stable sort ----------

  /** Puts `d` behind everything that does not rank above it. */
  function InsertStable(s: seq<Document>, d: Document, opt: SortOption): seq<Document> {
    if s == [] || Rank(s[|s| - 1], opt) <= Rank(d, opt) then s + [d]
    else InsertStable(s[..|s| - 1], d, opt) + [s[|s| - 1]]
  }

  function StableSort(s: seq<Document>, opt: SortOption): seq<Document> {
    if s == [] then [] else InsertStable(StableSort(s[..|s| - 1], opt), s[|s| - 1], opt)
  }

  lemma {:induction false} InsertStableIs(s: seq<Document>, d: Document, opt: SortOption)
    requires Sorted(s, opt)
    ensures Sorted(InsertStable(s, d, opt), opt)
    ensures forall x :: x in InsertStable(s, d, opt) ==> x in s || x == d
    ensures SameClasses(InsertStable(s, d, opt), s + [d], opt)
    decreases |s|
  {
    hide Rank, ClassOf, SameClasses;
    if s == [] || Rank(s[|s| - 1], opt) <= Rank(d, opt) {
      Untouched(s + [d], opt);
    } else {
      var n := |s| - 1;
      assert s == s[..n] + [s[n]];
      InsertStableIs(s[..n], d, opt);
      assert forall x :: x in InsertStable(s[..n], d, opt) ==> Rank(x, opt) <= Rank(s[n], opt);
      MovedDown(InsertStable(s[..n], d, opt), s[..n], s[n], d, opt);
    }
  }

  lemma MovedDown(t: seq<Document>, init: seq<Document>, y: Document, d: Document, opt: SortOption)
    requires SameClasses(t, init + [d], opt) && Rank(y, opt) != Rank(d, opt)
    ensures SameClasses(t + [y], init + [y] + [d], opt)
  {
    hide Rank;
    forall r
      ensures ClassOf(t + [y], opt, r) == ClassOf(init + [y] + [d], opt, r)
    {
      assert ClassOf(t, opt, r) == ClassOf(init + [d], opt, r);
      ClassConcat(t, [y], opt, r);
      ClassConcat(init + [d], [y], opt, r);
      assert init + [d] + [y] == init + [d, y] && init + [y] + [d] == init + [y, d];
      ClassConcat(init, [d, y], opt, r);
      ClassConcat(init, [y, d], opt, r);
      ClassOfTwo(y, d, opt, r);
    }
  }

  /** The stable sort is a sorted stable rearrangement, and hence the only one. */
  lemma {:induction false} StableSortIs(s: seq<Document>, opt: SortOption)
    ensures Sorted(StableSort(s, opt), opt) && SameClasses(StableSort(s, opt), s, opt)
    decreases |s|
  {
    hide Rank, InsertStable;
    if s != [] {
      var n := |s| - 1;
      var init, d := s[..n], s[n];
      var t := StableSort(init, opt);
      StableSortIs(init, opt);
      InsertStableIs(t, d, opt);
      forall r
        ensures ClassOf(StableSort(s, opt), opt, r) == ClassOf(s, opt, r)
      {
        assert ClassOf(InsertStable(t, d, opt), opt, r) == ClassOf(t + [d], opt, r);
        ClassConcat(t, [d], opt, r);
        ClassConcat(init, [d], opt, r);
        assert ClassOf(t, opt, r) == ClassOf(init, opt, r);
        assert s == init + [d];
      }
    }
  }

  // ---------- the bubble sort ----------

  /** From `m` on everything is in its final place. */
  predicate SettledFrom(s: seq<Document>, m: int, opt: SortOption) {
    forall p, q :: 0 <= p < q < |s| && q >= m ==> Rank(s[p], opt) <= Rank(s[q], opt)
  }

  predicate HighestAt(s: seq<Document>, j: nat, opt: SortOption)
    requires j < |s|
  {
    forall p :: 0 <= p < j ==> Rank(s[p], opt) <= Rank(s[j], opt)
  }

  lemma SameClassesChain(s: seq<Document>, t: seq<Document>, u: seq<Document>, opt: SortOption)
    requires SameClasses(s, t, opt) && SameClasses(t, u, opt)
    ensures SameClasses(s, u, opt)
  {
    hide ClassOf;
    forall r
      ensures ClassOf(s, opt, r) == ClassOf(u, opt, r)
    {
      assert ClassOf(s, opt, r) == ClassOf(t, opt, r);
    }
  }

  /** One comparison of neighbours, and the exchange it calls for. */
  lemma BubbleStep(s: seq<Document>, j: nat, m: nat, opt: SortOption)
    requires j + 1 < m <= |s| && SettledFrom(s, m, opt) && HighestAt(s, j, opt)
    ensures var t := if Rank(s[j], opt) > Rank(s[j + 1], opt) then s[j := s[j + 1]][j + 1 := s[j]] else s;
            SettledFrom(t, m, opt) && HighestAt(t, j + 1, opt) && SameClasses(t, s, opt)
  {
    hide Rank, ClassOf;
    if Rank(s[j], opt) > Rank(s[j + 1], opt) {
      SwapSameClasses(s, j, opt);
    }
  }

  method ShouldSwap(a: Document, b: Document, opt: SortOption) returns (swap: bool)
    ensures swap <==> Rank(a, opt) > Rank(b, opt)
  {
    var x := if opt.field in a then Number(a[opt.field]) else 0.0;
    var y := if opt.field in b then Number(b[opt.field]) else 0.0;
    if opt.descending {
      swap := x < y;
    } else {
      swap := x > y;
    }
  }

  method SortResults(results: array<Document>, opt: SortOption)
    modifies results
    ensures results[..] == StableSort(old(results[..]), opt)
    ensures forall i, j :: 0 <= i < j < results.Length ==>
              var x, y := NumberIn(results[i], opt.field), NumberIn(results[j], opt.field);
              if opt.descending then x >= y else x <= y
    ensures multiset(results[..]) == multiset(old(results[..]))
  {
    hide Rank, SameClasses, StableSort, SettledFrom, HighestAt;
    ghost var was := results[..];
    var n := results.Length;
    Untouched(was, opt);
    for i := 0 to n
      invariant SameClasses(results[..], was, opt)
      invariant SettledFrom(results[..], n - i, opt)
    {
      FirstIsHighest(results[..], opt);
      for j := 0 to n - i - 1
        invariant SameClasses(results[..], was, opt)
        invariant SettledFrom(results[..], n - i, opt)
        invariant HighestAt(results[..], j, opt)
      {
        ghost var s := results[..];
        BubbleStep(s, j, n - i, opt);
        var swap := ShouldSwap(results[j], results[j + 1], opt);
        if swap {
          results[j], results[j + 1] := results[j + 1], results[j];
          assert results[..] == s[j := s[j + 1]][j + 1 := s[j]];
        }
        SameClassesChain(results[..], s, was, opt);
      }
      OneMoreSettled(results[..], n - i - 1, opt);
    }
    SettledIsSorted(results[..], opt);
    StableSortIs(was, opt);
    SameClassesBack(StableSort(was, opt), was, opt);
    SameClassesChain(results[..], was, StableSort(was, opt), opt);
    StableUnique(results[..], StableSort(was, opt), opt);
    SortedIs(results[..], opt);
    SameClassesPermutes(results[..], was, opt);
  }

  lemma SortedIs(s: seq<Document>, opt: SortOption)
    requires Sorted(s, opt)
    ensures forall i, j :: 0 <= i < j < |s| ==>
              var x, y := NumberIn(s[i], opt.field), NumberIn(s[j], opt.field);
              if opt.descending then x >= y else x <= y
  {
    forall i, j | 0 <= i < j < |s|
      ensures var x, y := NumberIn(s[i], opt.field), NumberIn(s[j], opt.field);
              if opt.descending then x >= y else x <= y
    {
      assert Rank(s[i], opt) <= Rank(s[j], opt);
    }
  }

  lemma Untouched(s: seq<Document>, opt: SortOption)
    ensures SameClasses(s, s, opt) && SettledFrom(s, |s|, opt)
  {
  }

  lemma FirstIsHighest(s: seq<Document>, opt: SortOption)
    ensures s != [] ==> HighestAt(s, 0, opt)
  {
  }

  lemma OneMoreSettled(s: seq<Document>, m: nat, opt: SortOption)
    requires m < |s| && SettledFrom(s, m + 1, opt) && HighestAt(s, m, opt)
    ensures SettledFrom(s, m, opt)
  {
    hide Rank;
  }

  lemma SettledIsSorted(s: seq<Document>, opt: SortOption)
    requires SettledFrom(s, 0, opt)
    ensures Sorted(s, opt)
  {
    hide Rank;
  }

  lemma SameClassesBack(s: seq<Document>, t: seq<Document>, opt: SortOption)
    requires SameClasses(s, t, opt)
    ensures SameClasses(t, s, opt)
  {
    hide ClassOf;
    forall r
      ensures ClassOf(t, opt, r) == ClassOf(s, opt, r)
    {
      assert ClassOf(s, opt, r) == ClassOf(t, opt, r);
    }
  }
}
