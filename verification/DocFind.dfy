/** Queries: what a filter means, the scan path and the index path, and when they find the same.

    Two values are compared for equality by their printed forms.  The printed form of a floating-point
    number is a parameter, `num`. */
module DocFind {
  import opened ByteStrings
  import opened Decimal
  import opened OrderedStore
  import opened Documents
  import opened DocSort

  datatype Operator = Eq | Ne | Gt | Gte | Lt | Lte | In | Unknown

  datatype FilterValue = One(v: Value) | Many(vs: seq<Value>)

  datatype Query = Query(field: Bytes, op: Operator, value: FilterValue)

  datatype SortBy = Unsorted | By(opt: SortOption)

  datatype FindOptions = FindOptions(filters: seq<Query>, sort: SortBy, skip: Int64, limit: Int64)

  // ---------- filters ----------

  function Shown(num: real -> Bytes, v: Value): Bytes {
    match v
    case Str(s) => s
    case Num(x) => num(x)
    case Bool(b) => Ascii(if b then "true" else "false")
    case Null => Ascii("<nil>")
    case Int(i) => DecInt(i)
    case Long(n) => DecInt(n)
  }

  function Spaced(num: real -> Bytes, vs: seq<Value>): Bytes {
    if vs == [] then []
    else if |vs| == 1 then Shown(num, vs[0])
    else Shown(num, vs[0]) + Ascii(" ") + Spaced(num, vs[1..])
  }

  function ShownFilter(num: real -> Bytes, fv: FilterValue): Bytes {
    match fv
    case One(v) => Shown(num, v)
    case Many(vs) => Ascii("[") + Spaced(num, vs) + Ascii("]")
  }

  function FilterNumber(fv: FilterValue): real {
    if fv.One? then Number(fv.v) else 0.0
  }

  predicate MatchesOne(num: real -> Bytes, doc: Document, q: Query) {
    if q.field !in doc then q.op == Ne
    else
      var v := doc[q.field];
      match q.op
      case Eq => Shown(num, v) == ShownFilter(num, q.value)
      case Ne => Shown(num, v) != ShownFilter(num, q.value)
      case Gt => Number(v) > FilterNumber(q.value)
      case Gte => Number(v) >= FilterNumber(q.value)
      case Lt => Number(v) < FilterNumber(q.value)
      case Lte => Number(v) <= FilterNumber(q.value)
      case In => q.value.Many? && exists i :: 0 <= i < |q.value.vs| && Shown(num, v) == Shown(num, q.value.vs[i])
      case Unknown => false
  }

  predicate Matches(num: real -> Bytes, doc: Document, filters: seq<Query>) {
    forall i :: 0 <= i < |filters| ==> MatchesOne(num, doc, filters[i])
  }

  // ---------- the two paths ----------

  /** The documents under `ks` that pass the filters, in the order of `ks`. */
  function Matching(num: real -> Bytes, docs: Docs, ks: seq<Bytes>, filters: seq<Query>): seq<Document> {
    if ks == [] then []
    else
      var n := |ks| - 1;
      Matching(num, docs, ks[..n], filters)
      + (if ks[n] in docs && Matches(num, docs[ks[n]], filters) then [docs[ks[n]]] else [])
  }

  function KeysOf(c: Bytes, ids: seq<Bytes>): (ks: seq<Bytes>)
    ensures |ks| == |ids|
  {
    seq(|ids|, i requires 0 <= i < |ids| => DocKey(c, ids[i]))
  }

  /** A list of values cannot be looked up in an index: it is no map key. */
  datatype Lookup = NoIndex | Postings(ids: seq<Bytes>) | Unhashable

  predicate UsesIndex(fields: Fields, q: Query) {
    q.op == Eq && q.field in fields
  }

  /** The first equality filter on an indexed field decides. */
  function UseIndexes(fields: Fields, filters: seq<Query>): Lookup {
    if filters == [] then NoIndex
    else if UsesIndex(fields, filters[0]) then
      match filters[0].value
      case One(v) => Postings(Posting(fields[filters[0].field], v))
      case Many(_) => Unhashable
    else UseIndexes(fields, filters[1..])
  }

  datatype FindResult = Found(docs: seq<Document>) | NoCollection | FindPanicked

  /** The pagination that ends both paths. */
  function Page(docs: seq<Document>, skip: int, limit: int): seq<Document> {
    var rest := if skip <= 0 then docs else if skip >= |docs| then [] else docs[skip..];
    if limit > 0 && |rest| > limit then rest[..limit] else rest
  }

  function Finish(docs: seq<Document>, opts: FindOptions): seq<Document> {
    Page(if opts.sort.By? then StableSort(docs, opts.sort.opt) else docs, opts.skip, opts.limit)
  }

  /** Where the index path stops reading its list; the sum is an int64. */
  function EndOf(opts: FindOptions, n: nat): int {
    var end := if opts.limit < 0 then n else WrapInt64(opts.skip + opts.limit);
    if end > n then n else end
  }

  /** The index path paginates the list before the documents are read, and the result again at the end. */
  function FindIndexed(num: real -> Bytes, docs: Docs, c: Bytes, ids: seq<Bytes>, opts: FindOptions): FindResult {
    var end := EndOf(opts, |ids|);
    if opts.skip >= |ids| then Found([])
    else if opts.skip >= end then Found(Finish([], opts))
    else if opts.skip < 0 then FindPanicked
    else Found(Finish(Matching(num, docs, KeysOf(c, ids[opts.skip..end]), opts.filters), opts))
  }

  function FindScanned(num: real -> Bytes, docs: Docs, c: Bytes, opts: FindOptions): FindResult {
    Found(Finish(Matching(num, docs, Scan(docs, CollectionPrefix(c), CollectionPrefix(c)), opts.filters), opts))
  }

  function FindSpec(num: real -> Bytes, s: State, c: Bytes, opts: FindOptions): FindResult {
    if c == [] then NoCollection
    else
      match UseIndexes(FieldsOf(s.indexes, c), opts.filters)
      case NoIndex => FindScanned(num, s.docs, c, opts)
      case Postings(ids) => FindIndexed(num, s.docs, c, ids, opts)
      case Unhashable => FindPanicked
  }

  // ---------- what is found belongs there ----------

  /** A stored document of the collection that passes the filters. */
  predicate Hit(num: real -> Bytes, docs: Docs, c: Bytes, filters: seq<Query>, id: Bytes) {
    DocKey(c, id) in docs && Matches(num, docs[DocKey(c, id)], filters)
  }

  ghost predicate IsHit(num: real -> Bytes, docs: Docs, c: Bytes, filters: seq<Query>, d: Document) {
    exists id :: Hit(num, docs, c, filters, id) && docs[DocKey(c, id)] == d
  }

  lemma {:induction false} MatchingMembers(num: real -> Bytes, docs: Docs, ks: seq<Bytes>, filters: seq<Query>)
    ensures forall d :: d in Matching(num, docs, ks, filters)
              <==> exists k :: k in ks && k in docs && Matches(num, docs[k], filters) && docs[k] == d
    decreases |ks|
  {
    hide Matches;
    if ks != [] {
      var n := |ks| - 1;
      assert ks == ks[..n] + [ks[n]];
      MatchingMembers(num, docs, ks[..n], filters);
    }
  }

  lemma PageMembers(docs: seq<Document>, skip: int, limit: int)
    ensures forall d :: d in Page(docs, skip, limit) ==> d in docs
    ensures limit > 0 ==> |Page(docs, skip, limit)| <= limit
  {
  }

  lemma FinishMembers(docs: seq<Document>, opts: FindOptions)
    ensures forall d :: d in Finish(docs, opts) ==> d in docs
    ensures opts.limit > 0 ==> |Finish(docs, opts)| <= opts.limit
  {
    hide StableSort, Page;
    if opts.sort.By? {
      var sorted := StableSort(docs, opts.sort.opt);
      StableSortIs(docs, opts.sort.opt);
      SameClassesPermutes(sorted, docs, opts.sort.opt);
      assert forall d :: d in sorted ==> d in multiset(sorted);
      PageMembers(sorted, opts.skip, opts.limit);
    } else {
      PageMembers(docs, opts.skip, opts.limit);
    }
  }

  /** On either path, for every skip and limit, a document that is found is a stored document of the
      collection that passes all filters, and a positive limit is kept. */
  lemma FindIsSound(num: real -> Bytes, s: State, c: Bytes, opts: FindOptions)
    ensures var r := FindSpec(num, s, c, opts);
            r.Found? ==> (forall d :: d in r.docs ==> IsHit(num, s.docs, c, opts.filters, d))
                         && (opts.limit > 0 ==> |r.docs| <= opts.limit)
  {
    hide Matches, Matching, Finish, Scan, DocKey, CollectionPrefix, UseIndexes;
    match UseIndexes(FieldsOf(s.indexes, c), opts.filters)
    case NoIndex => ScannedAreHits(num, s.docs, c, opts);
    case Unhashable =>
    case Postings(ids) => IndexedAreHits(num, s.docs, c, ids, opts);
  }

  lemma ScannedAreHits(num: real -> Bytes, docs: Docs, c: Bytes, opts: FindOptions)
    ensures var r := FindScanned(num, docs, c, opts);
            (forall d :: d in r.docs ==> IsHit(num, docs, c, opts.filters, d))
            && (opts.limit > 0 ==> |r.docs| <= opts.limit)
  {
    hide Matches, Matching, Finish, DocKey, CollectionPrefix, Scan;
    var ks := Scan(docs, CollectionPrefix(c), CollectionPrefix(c));
    var base := Matching(num, docs, ks, opts.filters);
    FinishMembers(base, opts);
    MatchingMembers(num, docs, ks, opts.filters);
    forall d | d in base
      ensures IsHit(num, docs, c, opts.filters, d)
    {
      var k :| k in ks && k in docs && Matches(num, docs[k], opts.filters) && docs[k] == d;
      PrefixCovers(c, k);
      var id :| k == DocKey(c, id);
      assert Hit(num, docs, c, opts.filters, id);
    }
  }

  lemma IndexedAreHits(num: real -> Bytes, docs: Docs, c: Bytes, ids: seq<Bytes>, opts: FindOptions)
    ensures var r := FindIndexed(num, docs, c, ids, opts);
            r.Found? ==> (forall d :: d in r.docs ==> IsHit(num, docs, c, opts.filters, d))
                         && (opts.limit > 0 ==> |r.docs| <= opts.limit)
  {
    hide Matches, Matching, Finish, DocKey;
    FinishMembers([], opts);
    var end := EndOf(opts, |ids|);
    if 0 <= opts.skip < end {
      var ks := KeysOf(c, ids[opts.skip..end]);
      var base := Matching(num, docs, ks, opts.filters);
      FinishMembers(base, opts);
      MatchingMembers(num, docs, ks, opts.filters);
      forall d | d in base
        ensures IsHit(num, docs, c, opts.filters, d)
      {
        var k :| k in ks && k in docs && Matches(num, docs[k], opts.filters) && docs[k] == d;
        var i :| 0 <= i < |ks| && ks[i] == k;
        assert Hit(num, docs, c, opts.filters, ids[opts.skip..end][i]);
      }
    }
  }

  // ---------- when the paths agree ----------

  predicate Good(num: real -> Bytes, docs: Docs, filters: seq<Query>, k: Bytes) {
    k in docs && Matches(num, docs[k], filters)
  }

  lemma {:induction false} MatchingConcat(num: real -> Bytes, docs: Docs, ks: seq<Bytes>, ls: seq<Bytes>,
                                          filters: seq<Query>)
    ensures Matching(num, docs, ks + ls, filters) == Matching(num, docs, ks, filters) + Matching(num, docs, ls, filters)
    decreases |ls|
  {
    hide Matches;
    if ls == [] {
      assert ks + ls == ks;
    } else {
      assert (ks + ls)[..|ks + ls| - 1] == ks + ls[..|ls| - 1];
      MatchingConcat(num, docs, ks, ls[..|ls| - 1], filters);
    }
  }

  ghost predicate SameGood(num: real -> Bytes, docs: Docs, ks: seq<Bytes>, ls: seq<Bytes>, filters: seq<Query>) {
    forall k :: Good(num, docs, filters, k) ==> (k in ks <==> k in ls)
  }

  /** The order of distinct keys does not matter, nor do keys of no matching document. */
  lemma {:induction false} MatchingPermutes(num: real -> Bytes, docs: Docs, ks: seq<Bytes>, ls: seq<Bytes>,
                                            filters: seq<Query>)
    requires Distinct(ks) && Distinct(ls) && SameGood(num, docs, ks, ls, filters)
    ensures multiset(Matching(num, docs, ks, filters)) == multiset(Matching(num, docs, ls, filters))
    decreases |ks|
  {
    hide Matches;
    if ks == [] {
      NoneGood(num, docs, ls, filters);
    } else {
      var n := |ks| - 1;
      var init, k := ks[..n], ks[n];
      assert ks == init + [k];
      assert k !in init && k in ks;
      if Good(num, docs, filters, k) {
        var j :| 0 <= j < |ls| && ls[j] == k;
        TakeOut(ls, j);
        MatchingPermutes(num, docs, init, ls[..j] + ls[j + 1..], filters);
        MatchingWithout(num, docs, ls, j, filters);
      } else {
        MatchingPermutes(num, docs, init, ls, filters);
      }
    }
  }

  lemma {:induction false} NoneGood(num: real -> Bytes, docs: Docs, ls: seq<Bytes>, filters: seq<Query>)
    requires forall k :: Good(num, docs, filters, k) ==> k !in ls
    ensures Matching(num, docs, ls, filters) == []
    decreases |ls|
  {
    hide Matches;
    if ls != [] {
      assert ls[|ls| - 1] in ls;
      NoneGood(num, docs, ls[..|ls| - 1], filters);
    }
  }

  lemma TakeOut(ls: seq<Bytes>, j: nat)
    requires j < |ls| && Distinct(ls)
    ensures Distinct(ls[..j] + ls[j + 1..])
    ensures forall k :: k in ls[..j] + ls[j + 1..] <==> k in ls && k != ls[j]
  {
    var rest := ls[..j] + ls[j + 1..];
    assert forall i :: 0 <= i < |rest| ==> rest[i] == ls[if i < j then i else i + 1];
    forall k | k in ls && k != ls[j]
      ensures k in rest
    {
      var i :| 0 <= i < |ls| && ls[i] == k;
      assert rest[if i < j then i else i - 1] == k;
    }
  }

  lemma MatchingSingle(num: real -> Bytes, docs: Docs, k: Bytes, filters: seq<Query>)
    requires Good(num, docs, filters, k)
    ensures Matching(num, docs, [k], filters) == [docs[k]]
  {
    hide Matches;
    var none: seq<Bytes> := [k][..0];
    assert Matching(num, docs, none, filters) == [];
  }

  lemma MatchingWithout(num: real -> Bytes, docs: Docs, ls: seq<Bytes>, j: nat, filters: seq<Query>)
    requires j < |ls| && Good(num, docs, filters, ls[j])
    ensures multiset(Matching(num, docs, ls, filters))
         == multiset(Matching(num, docs, ls[..j] + ls[j + 1..], filters)) + multiset{docs[ls[j]]}
  {
    hide Matches;
    assert ls == ls[..j] + [ls[j]] + ls[j + 1..];
    MatchingConcat(num, docs, ls[..j] + [ls[j]], ls[j + 1..], filters);
    MatchingConcat(num, docs, ls[..j], [ls[j]], filters);
    MatchingConcat(num, docs, ls[..j], ls[j + 1..], filters);
    MatchingSingle(num, docs, ls[j], filters);
  }

  /** The first filter that decides for an index. */
  predicate DecidedBy(fields: Fields, filters: seq<Query>, i: nat) {
    && i < |filters| && UsesIndex(fields, filters[i])
    && forall k :: 0 <= k < i ==> !UsesIndex(fields, filters[k])
  }

  lemma {:induction false} UseIndexesIs(fields: Fields, filters: seq<Query>, i: nat)
    requires DecidedBy(fields, filters, i)
    ensures UseIndexes(fields, filters) ==
            match filters[i].value
            case One(v) => Postings(Posting(fields[filters[i].field], v))
            case Many(_) => Unhashable
    decreases i
  {
    hide UsesIndex;
    if i > 0 {
      UseIndexesIs(fields, filters[1..], i - 1);
    }
    assert UsesIndex(fields, filters[i]);
  }

  /** Some document passes the filters with a value that is merely printed like the one asked for. */
  ghost predicate Lookalike(num: real -> Bytes, docs: Docs, c: Bytes, filters: seq<Query>, f: Bytes, v: Value) {
    exists id :: Hit(num, docs, c, filters, id) && !FieldIs(docs, c, id, f, v)
  }

  lemma UnpagedFinish(docs: seq<Document>, opts: FindOptions)
    requires opts.skip == 0 && opts.limit < 0
    ensures multiset(Finish(docs, opts)) == multiset(docs)
  {
    if opts.sort.By? {
      StableSortIs(docs, opts.sort.opt);
      SameClassesPermutes(StableSort(docs, opts.sort.opt), docs, opts.sort.opt);
    }
  }

  /** Without pagination, a query that an index answers finds the same documents, as often, as the scan
      exactly when no document passes the filters by a lookalike value. */
  lemma IndexedFindIsScan(num: real -> Bytes, s: State, c: Bytes, opts: FindOptions, i: nat)
    requires Agreement(s) && ColonFree(c) && c != []
    requires opts.skip == 0 && opts.limit < 0
    requires DecidedBy(FieldsOf(s.indexes, c), opts.filters, i) && opts.filters[i].value.One?
    ensures var r := FindSpec(num, s, c, opts);
            var t := FindScanned(num, s.docs, c, opts);
            r.Found? && (multiset(r.docs) == multiset(t.docs)
                         <==> !Lookalike(num, s.docs, c, opts.filters, opts.filters[i].field, opts.filters[i].value.v))
  {
    hide Matches, Matching, Finish, Scan, DocKey, CollectionPrefix, UseIndexes, Agreement, Lookalike, KeysOf;
    var q := opts.filters[i];
    var f, v := q.field, q.value.v;
    var ids := Posting(FieldsOf(s.indexes, c)[f], v);
    UseIndexesIs(FieldsOf(s.indexes, c), opts.filters, i);
    PostingIs(s, c, f, v);
    assert ids[0..|ids|] == ids;
    if ids == [] {
      assert KeysOf(c, ids) == [];
      NothingMatches(num, s.docs, opts.filters);
    }
    UnpagedFinish(Matching(num, s.docs, KeysOf(c, ids), opts.filters), opts);
    UnpagedFinish([], opts);
    UnpagedFinish(Matching(num, s.docs, Scan(s.docs, CollectionPrefix(c), CollectionPrefix(c)), opts.filters), opts);
    FullPosting(num, s.docs, c, ids, opts);
    SameOrLookalike(num, s.docs, c, ids, f, v, opts.filters);
  }

  lemma NothingMatches(num: real -> Bytes, docs: Docs, filters: seq<Query>)
    ensures Matching(num, docs, [], filters) == []
  {
  }

  lemma PostingIs(s: State, c: Bytes, f: Bytes, v: Value)
    requires Agreement(s) && f in FieldsOf(s.indexes, c)
    ensures PostingOk(Posting(FieldsOf(s.indexes, c)[f], v), s.docs, c, f, v)
  {
    hide PostingOk, DocsOk;
  }

  lemma FullPosting(num: real -> Bytes, docs: Docs, c: Bytes, ids: seq<Bytes>, opts: FindOptions)
    requires opts.skip == 0 && opts.limit < 0
    ensures FindIndexed(num, docs, c, ids, opts) ==
            if ids == [] then Found([]) else Found(Finish(Matching(num, docs, KeysOf(c, ids), opts.filters), opts))
  {
    hide Finish, Matching, KeysOf;
    assert ids[0..|ids|] == ids;
  }

  lemma SameOrLookalike(num: real -> Bytes, docs: Docs, c: Bytes, ids: seq<Bytes>, f: Bytes, v: Value,
                        filters: seq<Query>)
    requires PostingOk(ids, docs, c, f, v)
    ensures var ks := Scan(docs, CollectionPrefix(c), CollectionPrefix(c));
            multiset(Matching(num, docs, KeysOf(c, ids), filters)) == multiset(Matching(num, docs, ks, filters))
            <==> !Lookalike(num, docs, c, filters, f, v)
  {
    hide Matches, Matching, DocKey, CollectionPrefix, Scan;
    var ks, ls := Scan(docs, CollectionPrefix(c), CollectionPrefix(c)), KeysOf(c, ids);
    AscendingDistinct(ks);
    KeysOfDistinct(c, ids);
    if Lookalike(num, docs, c, filters, f, v) {
      var id :| Hit(num, docs, c, filters, id) && !FieldIs(docs, c, id, f, v);
      LookalikeScanned(num, docs, c, id, ks, filters);
      LookalikeNotListed(num, docs, c, ids, f, v, id, filters);
      assert docs[DocKey(c, id)] in multiset(Matching(num, docs, ks, filters));
    } else {
      forall k | Good(num, docs, filters, k)
        ensures k in ls <==> k in ks
      {
        ListedIffScanned(num, docs, c, ids, f, v, k, filters);
      }
      MatchingPermutes(num, docs, ls, ks, filters);
    }
  }

  lemma KeysOfDistinct(c: Bytes, ids: seq<Bytes>)
    requires Distinct(ids)
    ensures Distinct(KeysOf(c, ids))
  {
    hide DocKey;
    forall i, j | 0 <= i < j < |ids|
      ensures DocKey(c, ids[i]) != DocKey(c, ids[j])
    {
      OneKeyApart(c, ids[i], ids[j]);
    }
  }

  lemma ScannedIff(docs: Docs, c: Bytes, k: Bytes)
    ensures k in Scan(docs, CollectionPrefix(c), CollectionPrefix(c)) <==> k in docs && CollectionPrefix(c) <= k
  {
    hide CollectionPrefix;
    if CollectionPrefix(c) <= k {
      PrefixNotLess(CollectionPrefix(c), k);
    }
  }

  lemma LookalikeScanned(num: real -> Bytes, docs: Docs, c: Bytes, id: Bytes, ks: seq<Bytes>, filters: seq<Query>)
    requires Hit(num, docs, c, filters, id) && ks == Scan(docs, CollectionPrefix(c), CollectionPrefix(c))
    ensures docs[DocKey(c, id)] in Matching(num, docs, ks, filters)
  {
    hide Matches, Matching, DocKey, CollectionPrefix, Scan;
    ScannedIff(docs, c, DocKey(c, id));
    PrefixCovers(c, DocKey(c, id));
    MatchingMembers(num, docs, ks, filters);
  }

  /** The index never yields a document without the value. */
  lemma LookalikeNotListed(num: real -> Bytes, docs: Docs, c: Bytes, ids: seq<Bytes>, f: Bytes, v: Value, id: Bytes,
                           filters: seq<Query>)
    requires PostingOk(ids, docs, c, f, v) && DocKey(c, id) in docs && !FieldIs(docs, c, id, f, v)
    ensures docs[DocKey(c, id)] !in Matching(num, docs, KeysOf(c, ids), filters)
  {
    hide Matches, Matching, DocKey;
    var ls := KeysOf(c, ids);
    MatchingMembers(num, docs, ls, filters);
    forall k | k in ls && k in docs
      ensures docs[k] != docs[DocKey(c, id)]
    {
      var i :| 0 <= i < |ls| && ls[i] == k;
      assert ids[i] in ids;
      assert FieldIs(docs, c, ids[i], f, v);
    }
  }

  lemma ListedIffScanned(num: real -> Bytes, docs: Docs, c: Bytes, ids: seq<Bytes>, f: Bytes, v: Value, k: Bytes,
                         filters: seq<Query>)
    requires PostingOk(ids, docs, c, f, v) && Good(num, docs, filters, k) && !Lookalike(num, docs, c, filters, f, v)
    ensures k in KeysOf(c, ids) <==> k in Scan(docs, CollectionPrefix(c), CollectionPrefix(c))
  {
    hide Matches, DocKey, CollectionPrefix, Scan;
    ScannedIff(docs, c, k);
    PrefixCovers(c, k);
    if k in KeysOf(c, ids) {
      KeysOfMembers(c, ids, k);
    }
    if id :| k == DocKey(c, id) {
      assert Hit(num, docs, c, filters, id);
      assert FieldIs(docs, c, id, f, v) && id in ids;
      var i :| 0 <= i < |ids| && ids[i] == id;
      assert KeysOf(c, ids)[i] == k;
    }
  }

  lemma KeysOfMembers(c: Bytes, ids: seq<Bytes>, k: Bytes)
    requires k in KeysOf(c, ids)
    ensures exists id :: k == DocKey(c, id)
  {
    hide DocKey;
    var i :| 0 <= i < |ids| && KeysOf(c, ids)[i] == k;
    assert k == DocKey(c, ids[i]);
  }

  // ---------- one kind of value per field ----------

  predicate SameKind(v: Value, w: Value) {
    match v
    case Str(_) => w.Str?
    case Num(_) => w.Num?
    case Bool(_) => w.Bool?
    case Null => w.Null?
    case Int(_) => w.Int?
    case Long(_) => w.Long?
  }

  /** Two numbers that are printed alike are the same number; nothing is asked of other values. */
  predicate PrintsApart(num: real -> Bytes, v: Value, w: Value) {
    v.Num? && w.Num? && num(v.x) == num(w.x) ==> v.x == w.x
  }

  /** Stored values of one kind are printed alike only when they are the same. */
  lemma ShownApart(num: real -> Bytes, v: Value, w: Value)
    requires SameKind(v, w) && PrintsApart(num, v, w) && Survives(v) && Survives(w)
    ensures Shown(num, v) == Shown(num, w) <==> v == w
  {
    if v.Bool? && v != w {
      assert |Ascii("true")| != |Ascii("false")|;
    }
  }

  /** With one kind of value in the field, the value asked for included, and no number there printed like
      another one that is asked for, the two paths find the same. */
  lemma OneKindFindsTheSame(num: real -> Bytes, s: State, c: Bytes, opts: FindOptions, i: nat)
    requires Agreement(s) && ColonFree(c) && c != []
    requires opts.skip == 0 && opts.limit < 0
    requires DecidedBy(FieldsOf(s.indexes, c), opts.filters, i) && opts.filters[i].value.One?
    requires forall id :: HasField(s.docs, c, id, opts.filters[i].field) ==>
               var w := s.docs[DocKey(c, id)][opts.filters[i].field];
               SameKind(w, opts.filters[i].value.v) && PrintsApart(num, w, opts.filters[i].value.v)
    ensures var r := FindSpec(num, s, c, opts);
            r.Found? && multiset(r.docs) == multiset(FindScanned(num, s.docs, c, opts).docs)
  {
    hide Matching, Finish, Scan, DocKey, CollectionPrefix, UseIndexes, IndexesOk, FindSpec, FindScanned, Shown;
    var q := opts.filters[i];
    var f, v := q.field, q.value.v;
    IndexedFindIsScan(num, s, c, opts, i);
    forall id | Hit(num, s.docs, c, opts.filters, id)
      ensures FieldIs(s.docs, c, id, f, v)
    {
      var doc := s.docs[DocKey(c, id)];
      assert MatchesOne(num, doc, q);
      assert HasField(s.docs, c, id, f);
      assert StoredOk(doc, id);
      assert Json(doc)[f] == doc[f];
      ShownApart(num, doc[f], v);
    }
  }

  // ---------- where pagination goes wrong ----------

  /** The index path skips twice: a positive skip that is not smaller than the limit always finds nothing. */
  lemma SkipsTwice(num: real -> Bytes, s: State, c: Bytes, opts: FindOptions)
    requires c != [] && UseIndexes(FieldsOf(s.indexes, c), opts.filters).Postings?
    requires 0 <= opts.limit <= opts.skip && 0 < opts.skip && opts.skip + opts.limit < TWO_63
    ensures FindSpec(num, s, c, opts) == Found([])
  {
    hide Matches, StableSort;
    var ids := UseIndexes(FieldsOf(s.indexes, c), opts.filters).ids;
    var end := EndOf(opts, |ids|);
    if opts.skip < end {
      var ks := KeysOf(c, ids[opts.skip..end]);
      MatchingLength(num, s.docs, ks, opts.filters);
      FewEnough(Matching(num, s.docs, ks, opts.filters), opts);
    } else {
      FewEnough([], opts);
    }
  }

  lemma {:induction false} MatchingLength(num: real -> Bytes, docs: Docs, ks: seq<Bytes>, filters: seq<Query>)
    ensures |Matching(num, docs, ks, filters)| <= |ks|
    decreases |ks|
  {
    hide Matches;
    if ks != [] {
      MatchingLength(num, docs, ks[..|ks| - 1], filters);
    }
  }

  lemma FewEnough(docs: seq<Document>, opts: FindOptions)
    requires |docs| <= opts.skip && 0 < opts.skip
    ensures Finish(docs, opts) == []
  {
    if opts.sort.By? {
      StableSortIs(docs, opts.sort.opt);
      var sorted := StableSort(docs, opts.sort.opt);
      SameClassesPermutes(sorted, docs, opts.sort.opt);
      assert |multiset(sorted)| == |multiset(docs)|;
    }
  }

  /** A limit of 0 means none on the scan path, and nothing on the index path. */
  lemma LimitZero(num: real -> Bytes, s: State, c: Bytes, opts: FindOptions)
    requires c != [] && opts.limit == 0 && opts.skip == 0
    ensures UseIndexes(FieldsOf(s.indexes, c), opts.filters).Postings? ==> FindSpec(num, s, c, opts) == Found([])
    ensures FindScanned(num, s.docs, c, opts) == FindScanned(num, s.docs, c, opts.(limit := -1))
  {
    hide Matches, Matching, Scan;
  }

  // ---------- exactly when pagination is right ----------

  /** Every listed document is there and passes all filters. */
  predicate AllPass(num: real -> Bytes, docs: Docs, c: Bytes, ids: seq<Bytes>, filters: seq<Query>) {
    forall i :: 0 <= i < |ids| ==> Hit(num, docs, c, filters, ids[i])
  }

  /** That is so whenever the index answers the only filter. */
  lemma SingleFilterPasses(num: real -> Bytes, s: State, c: Bytes, q: Query)
    requires Agreement(s) && q.op == Eq && q.value.One? && q.field in FieldsOf(s.indexes, c)
    ensures UseIndexes(FieldsOf(s.indexes, c), [q]) == Postings(Posting(FieldsOf(s.indexes, c)[q.field], q.value.v))
    ensures AllPass(num, s.docs, c, Posting(FieldsOf(s.indexes, c)[q.field], q.value.v), [q])
  {
    hide DocKey, Shown, Agreement;
    var ids := Posting(FieldsOf(s.indexes, c)[q.field], q.value.v);
    PostingIs(s, c, q.field, q.value.v);
    forall i | 0 <= i < |ids|
      ensures Hit(num, s.docs, c, [q], ids[i])
    {
      assert ids[i] in ids;
      assert FieldIs(s.docs, c, ids[i], q.field, q.value.v);
      assert MatchesOne(num, s.docs[DocKey(c, ids[i])], q);
    }
  }

  /** The documents of a list, in its order. */
  function Listed(docs: Docs, c: Bytes, ids: seq<Bytes>): (r: seq<Document>)
    requires forall i :: 0 <= i < |ids| ==> DocKey(c, ids[i]) in docs
    ensures |r| == |ids|
  {
    seq(|ids|, i requires 0 <= i < |ids| => docs[DocKey(c, ids[i])])
  }

  lemma {:induction false} MatchingAll(num: real -> Bytes, docs: Docs, c: Bytes, ids: seq<Bytes>, filters: seq<Query>)
    requires AllPass(num, docs, c, ids, filters)
    ensures Matching(num, docs, KeysOf(c, ids), filters) == Listed(docs, c, ids)
    decreases |ids|
  {
    hide Matches, DocKey;
    if ids != [] {
      var n := |ids| - 1;
      assert forall i :: 0 <= i < n ==> Hit(num, docs, c, filters, ids[i]);
      MatchingAll(num, docs, c, ids[..n], filters);
      assert KeysOf(c, ids)[..n] == KeysOf(c, ids[..n]);
      assert Hit(num, docs, c, filters, ids[n]);
      assert Listed(docs, c, ids) == Listed(docs, c, ids[..n]) + [docs[DocKey(c, ids[n])]];
    }
  }

  /** Nothing in the first `n` documents ranks above anything after them. */
  predicate LowestFirst(docs: seq<Document>, n: nat, opt: SortOption) {
    forall i, j :: 0 <= i < n <= j < |docs| ==> Rank(docs[i], opt) <= Rank(docs[j], opt)
  }

  /** The skips and limits for which paginating the list of ids first does no harm: none at all, a first
      page, or a skip past the end; and with a sort, a first page that holds the lowest ranks already. */
  predicate PagesRight(docs: seq<Document>, opts: FindOptions) {
    if opts.skip < 0 then opts.limit == 0 && docs == []
    else
      || opts.skip >= |docs|
      || (opts.skip == 0 && opts.limit != 0
          && (opts.sort.By? && 0 < opts.limit < |docs| ==> LowestFirst(docs, opts.limit, opts.sort.opt)))
  }

  /** What the index path does to a list of documents that all pass. */
  function IndexPage(docs: seq<Document>, opts: FindOptions): FindResult {
    var end := EndOf(opts, |docs|);
    if opts.skip >= |docs| then Found([])
    else if opts.skip >= end then Found(Finish([], opts))
    else if opts.skip < 0 then FindPanicked
    else Found(Finish(docs[opts.skip..end], opts))
  }

  lemma SortedLength(docs: seq<Document>, opt: SortOption)
    ensures |StableSort(docs, opt)| == |docs|
  {
    hide StableSort, SameClasses;
    StableSortIs(docs, opt);
    SameClassesPermutes(StableSort(docs, opt), docs, opt);
    assert |multiset(StableSort(docs, opt))| == |multiset(docs)|;
  }

  /** The number of documents that a page of `n` holds. */
  function PageSize(n: nat, skip: int, limit: int): nat {
    var rest := if skip <= 0 then n else if skip >= n then 0 else n - skip;
    if limit > 0 && rest > limit then limit else rest
  }

  lemma FinishSize(docs: seq<Document>, opts: FindOptions)
    ensures |Finish(docs, opts)| == PageSize(|docs|, opts.skip, opts.limit)
  {
    hide StableSort;
    if opts.sort.By? {
      SortedLength(docs, opts.sort.opt);
    }
  }

  /** A first page of the sorted documents is the sorted first page exactly when it holds the lowest ranks. */
  lemma SortedFirstPage(docs: seq<Document>, n: nat, opt: SortOption)
    requires n <= |docs|
    ensures |StableSort(docs, opt)| == |docs|
    ensures StableSort(docs[..n], opt) == StableSort(docs, opt)[..n] <==> LowestFirst(docs, n, opt)
  {
    hide StableSort, SameClasses, Rank;
    SortedLength(docs, opt);
    var a, b := docs[..n], docs[n..];
    assert docs == a + b;
    StableSortIs(a, opt);
    StableSortIs(b, opt);
    StableSortIs(docs, opt);
    SortedLength(a, opt);
    if LowestFirst(docs, n, opt) {
      SortedJoin(a, b, opt);
    } else if StableSort(a, opt) == StableSort(docs, opt)[..n] {
      RestOfSorted(docs, n, opt);
    }
  }

  /** Sorting two parts, the first of which ranks nowhere above the second, sorts the whole. */
  lemma SortedJoin(a: seq<Document>, b: seq<Document>, opt: SortOption)
    requires forall x, y :: x in a && y in b ==> Rank(x, opt) <= Rank(y, opt)
    ensures StableSort(a + b, opt) == StableSort(a, opt) + StableSort(b, opt)
  {
    hide StableSort, Rank;
    var sa, sb := StableSort(a, opt), StableSort(b, opt);
    StableSortIs(a, opt);
    StableSortIs(b, opt);
    StableSortIs(a + b, opt);
    SameClassesPermutes(sa, a, opt);
    SameClassesPermutes(sb, b, opt);
    assert forall x :: x in sa ==> x in multiset(sa);
    assert forall y :: y in sb ==> y in multiset(sb);
    forall r
      ensures ClassOf(sa + sb, opt, r) == ClassOf(StableSort(a + b, opt), opt, r)
    {
      ClassConcat(sa, sb, opt, r);
      ClassConcat(a, b, opt, r);
      assert ClassOf(sa, opt, r) == ClassOf(a, opt, r) && ClassOf(sb, opt, r) == ClassOf(b, opt, r);
      assert ClassOf(StableSort(a + b, opt), opt, r) == ClassOf(a + b, opt, r);
    }
    JoinSorted(sa, sb, opt);
    StableUnique(sa + sb, StableSort(a + b, opt), opt);
  }

  lemma JoinSorted(s: seq<Document>, t: seq<Document>, opt: SortOption)
    requires Sorted(s, opt) && Sorted(t, opt)
    requires forall x, y :: x in s && y in t ==> Rank(x, opt) <= Rank(y, opt)
    ensures Sorted(s + t, opt)
  {
    hide Rank;
    forall i, j | 0 <= i < j < |s + t|
      ensures Rank((s + t)[i], opt) <= Rank((s + t)[j], opt)
    {
      if i < |s| <= j {
        assert s[i] in s && t[j - |s|] in t;
      }
    }
  }

  lemma SameRest(x: multiset<Document>, y: multiset<Document>, z: multiset<Document>)
    requires x + y == x + z
    ensures y == z
  {
    forall d: Document
      ensures y[d] == z[d]
    {
      assert (x + y)[d] == (x + z)[d];
    }
  }

  /** When the sorted first page begins the sorted whole, what follows is the rest, and ranks no lower. */
  lemma RestOfSorted(docs: seq<Document>, n: nat, opt: SortOption)
    requires n <= |docs| && |StableSort(docs, opt)| == |docs|
    requires StableSort(docs[..n], opt) == StableSort(docs, opt)[..n]
    ensures LowestFirst(docs, n, opt)
  {
    hide StableSort, Rank;
    var t := StableSort(docs, opt);
    var a, b := docs[..n], docs[n..];
    assert docs == a + b && t == t[..n] + t[n..];
    StableSortIs(docs, opt);
    StableSortIs(a, opt);
    SameClassesPermutes(t, docs, opt);
    SameClassesPermutes(t[..n], a, opt);
    assert multiset(t) == multiset(t[..n]) + multiset(t[n..]) && multiset(docs) == multiset(a) + multiset(b);
    SameRest(multiset(a), multiset(t[n..]), multiset(b));
    forall i, j | 0 <= i < n <= j < |docs|
      ensures Rank(docs[i], opt) <= Rank(docs[j], opt)
    {
      assert docs[i] == a[i] && docs[j] == b[j - n];
      assert docs[i] in multiset(a) && docs[j] in multiset(b);
      assert docs[i] in t[..n] && docs[j] in t[n..];
      var p :| 0 <= p < n && t[p] == docs[i];
      var q :| n <= q < |t| && t[q] == docs[j];
    }
  }

  /** The page of a list that is paginated before and after it is read is that page of the whole list
      exactly for the harmless skips and limits. */
  lemma IndexPageExact(docs: seq<Document>, opts: FindOptions)
    ensures IndexPage(docs, opts) == Found(Finish(docs, opts)) <==> PagesRight(docs, opts)
  {
    hide LowestFirst, Finish;
    if 0 < opts.skip < |docs| {
      SkippedPageWrong(docs, opts);
    } else if opts.skip == 0 && opts.limit != 0 && docs != [] {
      if 0 < opts.limit < |docs| {
        FirstPage(docs, opts);
      } else {
        assert docs[0..|docs|] == docs;
      }
    } else {
      FinishSize(docs, opts);
      FinishSize([], opts);
    }
  }

  /** A skip within the list makes the page too short. */
  lemma SkippedPageWrong(docs: seq<Document>, opts: FindOptions)
    requires 0 < opts.skip < |docs|
    ensures IndexPage(docs, opts) != Found(Finish(docs, opts)) && !PagesRight(docs, opts)
  {
    hide StableSort, LowestFirst, Finish;
    FinishSize(docs, opts);
    FinishSize([], opts);
    if opts.skip < EndOf(opts, |docs|) {
      FinishSize(docs[opts.skip..EndOf(opts, |docs|)], opts);
    }
  }

  lemma FirstPage(docs: seq<Document>, opts: FindOptions)
    requires opts.skip == 0 && 0 < opts.limit < |docs|
    ensures Finish(docs[0..opts.limit], opts) == Finish(docs, opts)
       <==> (opts.sort.By? ==> LowestFirst(docs, opts.limit, opts.sort.opt))
  {
    hide StableSort, LowestFirst;
    assert docs[0..opts.limit] == docs[..opts.limit];
    if opts.sort.By? {
      SortedFirstPage(docs, opts.limit, opts.sort.opt);
      SortedLength(docs[..opts.limit], opts.sort.opt);
    }
  }

  /** When every listed document passes the filters, an indexed query finds that page of its own unpaged
      answer exactly for the harmless skips and limits.  For every other skip and limit the answer is wrong:
      it panics, or lacks documents, or, with a sort, has the wrong ones. */
  lemma IndexedPageExact(num: real -> Bytes, s: State, c: Bytes, opts: FindOptions)
    requires c != [] && UseIndexes(FieldsOf(s.indexes, c), opts.filters).Postings?
    requires AllPass(num, s.docs, c, UseIndexes(FieldsOf(s.indexes, c), opts.filters).ids, opts.filters)
    ensures var ids := UseIndexes(FieldsOf(s.indexes, c), opts.filters).ids;
            var all := Listed(s.docs, c, ids);
            && FindSpec(num, s, c, opts.(sort := Unsorted, skip := 0, limit := -1)) == Found(all)
            && (FindSpec(num, s, c, opts) == Found(Finish(all, opts)) <==> PagesRight(all, opts))
  {
    hide Matches, DocKey, Finish, PagesRight, UseIndexes, KeysOf, Listed, Matching, FieldsOf;
    var ids := UseIndexes(FieldsOf(s.indexes, c), opts.filters).ids;
    var all := Listed(s.docs, c, ids);
    var unpaged := opts.(sort := Unsorted, skip := 0, limit := -1);
    IndexPageExact(all, opts);
    IndexPageIs(num, s.docs, c, ids, opts);
    IndexPageIs(num, s.docs, c, ids, unpaged);
    WholePage(all, unpaged);
  }

  /** Reading only the first listed ids does no harm: there is no limit, or the ids read contain as many of
      the hits as the page holds, and with a sort none that ranks above a later one. */
  predicate FirstIdsSuffice(hits: seq<Document>, found: nat, opts: FindOptions) {
    || opts.limit < 0
    || hits == []
    || (&& opts.limit > 0 && found == (if |hits| < opts.limit then |hits| else opts.limit)
        && (opts.sort.By? && opts.limit < |hits| ==> LowestFirst(hits, opts.limit, opts.sort.opt)))
  }

  /** Whatever the filters reject, an indexed query without a skip finds the right page of its unpaged answer
      exactly when the ids it reads, as many as the limit says, suffice. */
  lemma FirstPageExact(num: real -> Bytes, s: State, c: Bytes, opts: FindOptions)
    requires c != [] && opts.skip == 0
    requires UseIndexes(FieldsOf(s.indexes, c), opts.filters).Postings?
    ensures var ids := UseIndexes(FieldsOf(s.indexes, c), opts.filters).ids;
            var hits := Matching(num, s.docs, KeysOf(c, ids), opts.filters);
            var first := Matching(num, s.docs, KeysOf(c, FirstOf(ids, opts.limit)), opts.filters);
            && FindSpec(num, s, c, opts.(sort := Unsorted, limit := -1)) == Found(hits)
            && (FindSpec(num, s, c, opts) == Found(Finish(hits, opts)) <==> FirstIdsSuffice(hits, |first|, opts))
  {
    hide Matches, DocKey, Finish, UseIndexes, KeysOf, Matching, FieldsOf, FirstIdsSuffice;
    var ids := UseIndexes(FieldsOf(s.indexes, c), opts.filters).ids;
    FirstIdsRead(num, s.docs, c, ids, opts);
    FirstIdsRead(num, s.docs, c, ids, opts.(sort := Unsorted, limit := -1));
    Unpaged(Matching(num, s.docs, KeysOf(c, ids), opts.filters), opts.(sort := Unsorted, limit := -1));
    FirstIdsExact(num, s.docs, c, ids, opts);
  }

  function FirstOf(ids: seq<Bytes>, limit: int): (first: seq<Bytes>)
    ensures first <= ids
  {
    if 0 <= limit < |ids| then ids[..limit] else ids
  }

  lemma FirstIdsRead(num: real -> Bytes, docs: Docs, c: Bytes, ids: seq<Bytes>, opts: FindOptions)
    requires opts.skip == 0
    ensures FindIndexed(num, docs, c, ids, opts)
         == Found(Finish(Matching(num, docs, KeysOf(c, FirstOf(ids, opts.limit)), opts.filters), opts))
  {
    hide Matches, DocKey, StableSort;
    NothingFinished(opts);
    if 0 < EndOf(opts, |ids|) {
      assert ids[0..EndOf(opts, |ids|)] == FirstOf(ids, opts.limit);
    }
  }

  lemma NothingFinished(opts: FindOptions)
    requires opts.skip == 0
    ensures Finish([], opts) == []
  {
    hide StableSort;
    FinishSize([], opts);
  }

  lemma Unpaged(docs: seq<Document>, opts: FindOptions)
    requires opts.sort == Unsorted && opts.skip == 0 && opts.limit < 0
    ensures Finish(docs, opts) == docs
  {
  }

  lemma FirstIdsExact(num: real -> Bytes, docs: Docs, c: Bytes, ids: seq<Bytes>, opts: FindOptions)
    requires opts.skip == 0
    ensures var hits := Matching(num, docs, KeysOf(c, ids), opts.filters);
            var first := Matching(num, docs, KeysOf(c, FirstOf(ids, opts.limit)), opts.filters);
            Finish(first, opts) == Finish(hits, opts) <==> FirstIdsSuffice(hits, |first|, opts)
  {
    hide Matches, DocKey, Finish, Matching, KeysOf, FirstIdsSuffice;
    var part := FirstOf(ids, opts.limit);
    var ks, ls := KeysOf(c, part), KeysOf(c, ids[|part|..]);
    var first := Matching(num, docs, ks, opts.filters);
    KeysSplit(c, ids, |part|);
    MatchingConcat(num, docs, ks, ls, opts.filters);
    MatchingNoLonger(num, docs, ks, opts.filters);
    if |part| == |ids| {
      assert part == ids;
    }
    PrefixPageExact(Matching(num, docs, KeysOf(c, ids), opts.filters), first, opts);
  }

  lemma KeysSplit(c: Bytes, ids: seq<Bytes>, n: nat)
    requires n <= |ids|
    ensures KeysOf(c, ids) == KeysOf(c, ids[..n]) + KeysOf(c, ids[n..])
  {
    hide DocKey;
  }

  lemma PrefixPageExact(hits: seq<Document>, first: seq<Document>, opts: FindOptions)
    requires opts.skip == 0 && first <= hits
    requires if opts.limit < 0 then first == hits else |first| <= opts.limit
    ensures Finish(first, opts) == Finish(hits, opts) <==> FirstIdsSuffice(hits, |first|, opts)
  {
    hide Finish, StableSort, LowestFirst;
    FinishSize(first, opts);
    FinishSize(hits, opts);
    if opts.limit > 0 && |first| == opts.limit < |hits| {
      FirstPage(hits, opts);
      assert hits[0..opts.limit] == first;
    } else if |first| == |hits| {
      assert first == hits;
    }
  }

  lemma {:induction false} MatchingNoLonger(num: real -> Bytes, docs: Docs, ks: seq<Bytes>, filters: seq<Query>)
    ensures |Matching(num, docs, ks, filters)| <= |ks|
    decreases |ks|
  {
    hide Matches;
    if ks != [] {
      MatchingNoLonger(num, docs, ks[..|ks| - 1], filters);
    }
  }

  // ---------- pages after a skip ----------

  /** The ids before those that are read, and those that are read. */
  function Skipped(ids: seq<Bytes>, opts: FindOptions): seq<Bytes> {
    if 0 <= opts.skip < |ids| then ids[..opts.skip] else ids
  }

  function Window(ids: seq<Bytes>, opts: FindOptions): seq<Bytes> {
    var end := EndOf(opts, |ids|);
    if 0 <= opts.skip < end then ids[opts.skip..end] else []
  }

  predicate DistinctDocs(docs: seq<Document>) {
    forall i, j :: 0 <= i < j < |docs| ==> docs[i] != docs[j]
  }

  /** Whatever the filters reject, an unsorted indexed query with a skip finds the right page of its unpaged
      answer exactly when that page is empty, or none of the ids it skips is a hit and those it reads fill
      the page: the ids are skipped first and the hits once more. */
  lemma LaterPageExact(num: real -> Bytes, s: State, c: Bytes, opts: FindOptions)
    requires Agreement(s) && ColonFree(c) && c != [] && opts.sort == Unsorted && 0 < opts.skip
    requires UseIndexes(FieldsOf(s.indexes, c), opts.filters).Postings?
    ensures var ids := UseIndexes(FieldsOf(s.indexes, c), opts.filters).ids;
            var hits := Matching(num, s.docs, KeysOf(c, ids), opts.filters);
            var before := Matching(num, s.docs, KeysOf(c, Skipped(ids, opts)), opts.filters);
            var window := Matching(num, s.docs, KeysOf(c, Window(ids, opts)), opts.filters);
            FindSpec(num, s, c, opts) == Found(Finish(hits, opts))
            <==> |hits| <= opts.skip
                 || (before == []
                     && PageSize(|window|, opts.skip, opts.limit) == PageSize(|hits|, opts.skip, opts.limit))
  {
    hide Matches, DocKey, Finish, UseIndexes, KeysOf, Matching, FieldsOf, Skipped, Window, Agreement, DistinctDocs;
    var ids := UseIndexes(FieldsOf(s.indexes, c), opts.filters).ids;
    DecidedPosting(s, c, opts.filters);
    HitsDistinct(num, s, c, ids, opts.filters);
    WindowRead(num, s.docs, c, ids, opts);
    HitsSplit(num, s.docs, c, ids, opts);
    var before := Matching(num, s.docs, KeysOf(c, Skipped(ids, opts)), opts.filters);
    var window := Matching(num, s.docs, KeysOf(c, Window(ids, opts)), opts.filters);
    SkippedTwiceExact(Matching(num, s.docs, KeysOf(c, ids), opts.filters), before, window, opts);
    MatchingNoLonger(num, s.docs, KeysOf(c, ids), opts.filters);
  }

  lemma WindowRead(num: real -> Bytes, docs: Docs, c: Bytes, ids: seq<Bytes>, opts: FindOptions)
    requires opts.sort == Unsorted && 0 < opts.skip
    ensures FindIndexed(num, docs, c, ids, opts)
         == Found(Finish(Matching(num, docs, KeysOf(c, Window(ids, opts)), opts.filters), opts))
  {
    hide Matches, DocKey;
  }

  /** The hits are those skipped, those read, and the others. */
  lemma HitsSplit(num: real -> Bytes, docs: Docs, c: Bytes, ids: seq<Bytes>, opts: FindOptions)
    requires 0 < opts.skip
    ensures Matching(num, docs, KeysOf(c, Skipped(ids, opts)), opts.filters)
            + Matching(num, docs, KeysOf(c, Window(ids, opts)), opts.filters)
         <= Matching(num, docs, KeysOf(c, ids), opts.filters)
  {
    hide Matches, DocKey, Matching;
    var before, window := Skipped(ids, opts), Window(ids, opts);
    var rest := ids[|before| + |window|..];
    assert ids == before + window + rest;
    assert KeysOf(c, ids) == KeysOf(c, before) + KeysOf(c, window) + KeysOf(c, rest);
    MatchingConcat(num, docs, KeysOf(c, before) + KeysOf(c, window), KeysOf(c, rest), opts.filters);
    MatchingConcat(num, docs, KeysOf(c, before), KeysOf(c, window), opts.filters);
  }

  lemma SkippedTwiceExact(hits: seq<Document>, before: seq<Document>, window: seq<Document>, opts: FindOptions)
    requires opts.sort == Unsorted && 0 < opts.skip && before + window <= hits && DistinctDocs(hits)
    ensures Finish(window, opts) == Finish(hits, opts)
       <==> |hits| <= opts.skip
            || (before == []
                && PageSize(|window|, opts.skip, opts.limit) == PageSize(|hits|, opts.skip, opts.limit))
  {
    FinishSize(window, opts);
    FinishSize(hits, opts);
    if opts.skip < |hits| {
      if before == [] {
        assert window <= hits;
      } else if opts.skip < |window| && opts.limit != 0 {
        assert window[opts.skip] == (before + window)[|before| + opts.skip] == hits[|before| + opts.skip];
        assert Finish(window, opts)[0] == window[opts.skip] && Finish(hits, opts)[0] == hits[opts.skip];
      }
    }
  }

  /** An index of an agreeing state lists an id at most once. */
  lemma {:induction false} DecidedPosting(s: State, c: Bytes, filters: seq<Query>)
    requires Agreement(s) && UseIndexes(FieldsOf(s.indexes, c), filters).Postings?
    ensures Distinct(UseIndexes(FieldsOf(s.indexes, c), filters).ids)
    decreases |filters|
  {
    hide Agreement, FieldsOf;
    if UsesIndex(FieldsOf(s.indexes, c), filters[0]) {
      PostingIs(s, c, filters[0].field, filters[0].value.v);
    } else {
      DecidedPosting(s, c, filters[1..]);
    }
  }

  lemma {:induction false} HitsDistinct(num: real -> Bytes, s: State, c: Bytes, ids: seq<Bytes>, filters: seq<Query>)
    requires Agreement(s) && ColonFree(c) && Distinct(ids)
    ensures DistinctDocs(Matching(num, s.docs, KeysOf(c, ids), filters))
    decreases |ids|
  {
    hide Matches, DocKey, Agreement, ColonFree, DistinctDocs;
    if ids == [] {
      NothingRepeats();
    } else {
      var n := |ids| - 1;
      HitsDistinct(num, s, c, ids[..n], filters);
      assert KeysOf(c, ids)[..n] == KeysOf(c, ids[..n]);
      var init, k := Matching(num, s.docs, KeysOf(c, ids[..n]), filters), DocKey(c, ids[n]);
      assert KeysOf(c, ids)[n] == k;
      MatchingMembers(num, s.docs, KeysOf(c, ids[..n]), filters);
      if k in s.docs {
        forall d | d in init
          ensures d != s.docs[k]
        {
          var j :| j in KeysOf(c, ids[..n]) && j in s.docs && s.docs[j] == d;
          var i :| 0 <= i < n && KeysOf(c, ids[..n])[i] == j;
          assert j == DocKey(c, ids[i]) && ids[i] != ids[n];
          StoredApart(s, c, ids[i], ids[n]);
        }
        DistinctNext(init, s.docs[k]);
      }
      assert init + [] == init;
    }
  }

  lemma NothingRepeats()
    ensures DistinctDocs([])
  {
  }

  lemma DistinctNext(docs: seq<Document>, d: Document)
    requires DistinctDocs(docs) && d !in docs
    ensures DistinctDocs(docs + [d])
  {
  }

  /** Documents under different ids differ, in their ids. */
  lemma StoredApart(s: State, c: Bytes, i: Bytes, j: Bytes)
    requires Agreement(s) && ColonFree(c) && i != j && DocKey(c, i) in s.docs && DocKey(c, j) in s.docs
    ensures s.docs[DocKey(c, i)] != s.docs[DocKey(c, j)]
  {
    hide DocKey, ColonFree, IndexesOk;
    assert StoredOk(s.docs[DocKey(c, i)], i) && StoredOk(s.docs[DocKey(c, j)], j);
  }

  lemma WholePage(docs: seq<Document>, opts: FindOptions)
    requires opts.sort == Unsorted && opts.skip == 0 && opts.limit < 0
    ensures IndexPage(docs, opts) == Found(docs)
  {
    assert docs[0..|docs|] == docs;
  }

  lemma IndexPageIs(num: real -> Bytes, docs: Docs, c: Bytes, ids: seq<Bytes>, opts: FindOptions)
    requires AllPass(num, docs, c, ids, opts.filters)
    ensures FindIndexed(num, docs, c, ids, opts) == IndexPage(Listed(docs, c, ids), opts)
  {
    hide Matches, DocKey, Finish, KeysOf, Matching;
    var end := EndOf(opts, |ids|);
    if 0 <= opts.skip < end {
      var part := ids[opts.skip..end];
      assert forall i :: 0 <= i < |part| ==> part[i] == ids[opts.skip + i];
      MatchingAll(num, docs, c, part, opts.filters);
      assert Listed(docs, c, part) == Listed(docs, c, ids)[opts.skip..end];
    }
  }
}
