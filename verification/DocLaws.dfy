/** What the operations of the document store do, in terms of the documents before and after them: the fields,
    the order and the pages are written out, and nothing here is used by the operations themselves. */
module DocLaws {
  import opened ByteStrings
  import opened OrderedStore
  import opened Decimal
  import opened Documents
  import opened DocSort
  import opened DocFind

  // ---------- the answer of a query ----------

  /** The places in a list of keys where a stored document passes, each once. */
  ghost predicate HitsAt(num: real -> Bytes, docs: Docs, list: seq<Bytes>, filters: seq<Query>, at: seq<nat>) {
    && (forall p: nat :: p in at <==> p < |list| && list[p] in docs && Matches(num, docs[list[p]], filters))
    && (forall i, j :: 0 <= i < j < |at| ==> at[i] != at[j])
  }

  predicate Stored(docs: Docs, list: seq<Bytes>, at: seq<nat>) {
    forall i :: 0 <= i < |at| ==> at[i] < |list| && list[at[i]] in docs
  }

  /** In the order of the list; with a sort, by the number in the field, upwards or downwards, and in the order of
      the list within one number. */
  predicate InOrder(docs: Docs, list: seq<Bytes>, at: seq<nat>, sort: SortBy)
    requires Stored(docs, list, at)
  {
    forall i, j :: 0 <= i < j < |at| ==>
      match sort
      case Unsorted => at[i] < at[j]
      case By(opt) =>
        var x, y := NumberIn(docs[list[at[i]]], opt.field), NumberIn(docs[list[at[j]]], opt.field);
        (if opt.descending then x > y else x < y) || (x == y && at[i] < at[j])
  }

  /** The answer has the documents at those places from the skip on, up to the limit if it is positive. */
  predicate PageOf(docs: Docs, list: seq<Bytes>, at: seq<nat>, skip: int, limit: int, answer: seq<Document>)
    requires Stored(docs, list, at)
  {
    var from := if skip > 0 then skip else 0;
    var left := if from < |at| then |at| - from else 0;
    && |answer| == (if 0 < limit < left then limit else left)
    && forall i :: 0 <= i < |answer| ==> answer[i] == docs[list[at[from + i]]]
  }

  /** The answer to a query that reads the documents under the listed keys. */
  ghost predicate ReadAnswer(num: real -> Bytes, docs: Docs, list: seq<Bytes>, opts: FindOptions,
                             answer: seq<Document>)
  {
    exists at :: HitsAt(num, docs, list, opts.filters, at) && Stored(docs, list, at)
                 && InOrder(docs, list, at, opts.sort) && PageOf(docs, list, at, opts.skip, opts.limit, answer)
  }

  /** A scan reads all keys of the collection, in order. */
  ghost predicate ScanAnswer(num: real -> Bytes, docs: Docs, c: Bytes, opts: FindOptions, answer: seq<Document>) {
    exists list :: Ascending(list) && (forall k :: k in list <==> k in docs && CollectionPrefix(c) <= k)
                   && ReadAnswer(num, docs, list, opts, answer)
  }

  /** The index path reads the listed ids from the skip to the sum of skip and limit, which is an int64, or to the
      end if the limit is negative.  It finds nothing if that is no ids, and panics on a negative start. */
  ghost predicate IndexAnswer(num: real -> Bytes, docs: Docs, c: Bytes, ids: seq<Bytes>, opts: FindOptions,
                              r: FindResult)
  {
    var stop := if opts.limit < 0 then |ids| else WrapInt64(opts.skip + opts.limit);
    var end := if stop > |ids| then |ids| else stop;
    if opts.skip >= |ids| || opts.skip >= end then r == Found([])
    else if opts.skip < 0 then r == FindPanicked
    else r.Found? && ReadAnswer(num, docs, KeysOf(c, ids[opts.skip..end]), opts, r.docs)
  }

  // ---------- sorting the places along ----------

  function DocAt(docs: Docs, list: seq<Bytes>, p: nat): Document {
    if p < |list| && list[p] in docs then docs[list[p]] else map[]
  }

  function DocsAt(docs: Docs, list: seq<Bytes>, at: seq<nat>): (r: seq<Document>)
    ensures |r| == |at|
    ensures forall i :: 0 <= i < |at| ==> r[i] == DocAt(docs, list, at[i])
  {
    seq(|at|, i requires 0 <= i < |at| => DocAt(docs, list, at[i]))
  }

  function InsertAt(docs: Docs, list: seq<Bytes>, at: seq<nat>, p: nat, opt: SortOption): seq<nat> {
    if at == [] || Rank(DocAt(docs, list, at[|at| - 1]), opt) <= Rank(DocAt(docs, list, p), opt) then at + [p]
    else InsertAt(docs, list, at[..|at| - 1], p, opt) + [at[|at| - 1]]
  }

  function SortAt(docs: Docs, list: seq<Bytes>, at: seq<nat>, opt: SortOption): seq<nat> {
    if at == [] then [] else InsertAt(docs, list, SortAt(docs, list, at[..|at| - 1], opt), at[|at| - 1], opt)
  }

  lemma {:induction false} InsertedDocs(docs: Docs, list: seq<Bytes>, at: seq<nat>, p: nat, opt: SortOption)
    ensures DocsAt(docs, list, InsertAt(docs, list, at, p, opt))
         == InsertStable(DocsAt(docs, list, at), DocAt(docs, list, p), opt)
    decreases |at|
  {
    hide Rank, DocAt;
    if at != [] {
      var n := |at| - 1;
      InsertedDocs(docs, list, at[..n], p, opt);
      assert DocsAt(docs, list, at)[..n] == DocsAt(docs, list, at[..n]);
    }
  }

  lemma {:induction false} SortedDocs(docs: Docs, list: seq<Bytes>, at: seq<nat>, opt: SortOption)
    ensures DocsAt(docs, list, SortAt(docs, list, at, opt)) == StableSort(DocsAt(docs, list, at), opt)
    decreases |at|
  {
    hide Rank, DocAt, InsertAt, InsertStable;
    if at != [] {
      var n := |at| - 1;
      SortedDocs(docs, list, at[..n], opt);
      InsertedDocs(docs, list, SortAt(docs, list, at[..n], opt), at[n], opt);
      assert DocsAt(docs, list, at)[..n] == DocsAt(docs, list, at[..n]);
    }
  }

  /** By rank, and in the order of the list within one. */
  predicate RankOrder(docs: Docs, list: seq<Bytes>, at: seq<nat>, opt: SortOption) {
    forall i, j :: 0 <= i < j < |at| ==>
      Rank(DocAt(docs, list, at[i]), opt) < Rank(DocAt(docs, list, at[j]), opt)
      || (Rank(DocAt(docs, list, at[i]), opt) == Rank(DocAt(docs, list, at[j]), opt) && at[i] < at[j])
  }

  lemma {:induction false} InsertedOrder(docs: Docs, list: seq<Bytes>, at: seq<nat>, p: nat, opt: SortOption)
    requires RankOrder(docs, list, at, opt) && forall q :: q in at ==> q < p
    ensures RankOrder(docs, list, InsertAt(docs, list, at, p, opt), opt)
    ensures forall q :: q in InsertAt(docs, list, at, p, opt) <==> q in at || q == p
    decreases |at|
  {
    hide Rank, DocAt;
    if at == [] {
    } else if Rank(DocAt(docs, list, at[|at| - 1]), opt) <= Rank(DocAt(docs, list, p), opt) {
      forall i | 0 <= i < |at|
        ensures Rank(DocAt(docs, list, at[i]), opt) <= Rank(DocAt(docs, list, at[|at| - 1]), opt) && at[i] < p
      {
        assert at[i] in at;
      }
    } else {
      var n := |at| - 1;
      assert at == at[..n] + [at[n]];
      forall q | q in at[..n]
        ensures q < p
      {
        assert q in at;
      }
      InsertedOrder(docs, list, at[..n], p, opt);
      PlacedLast(docs, list, InsertAt(docs, list, at[..n], p, opt), at, p, opt);
    }
  }

  lemma PlacedLast(docs: Docs, list: seq<Bytes>, placed: seq<nat>, at: seq<nat>, p: nat, opt: SortOption)
    requires RankOrder(docs, list, at, opt) && RankOrder(docs, list, placed, opt) && at != []
    requires forall q :: q in placed <==> q in at[..|at| - 1] || q == p
    requires Rank(DocAt(docs, list, p), opt) < Rank(DocAt(docs, list, at[|at| - 1]), opt)
    ensures RankOrder(docs, list, placed + [at[|at| - 1]], opt)
  {
    hide Rank, DocAt;
    var n := |at| - 1;
    forall i | 0 <= i < |placed|
      ensures Rank(DocAt(docs, list, placed[i]), opt) < Rank(DocAt(docs, list, at[n]), opt)
              || (Rank(DocAt(docs, list, placed[i]), opt) == Rank(DocAt(docs, list, at[n]), opt) && placed[i] < at[n])
    {
      assert placed[i] in placed;
      if placed[i] != p {
        var j :| 0 <= j < n && at[j] == placed[i];
      }
    }
  }

  predicate Rising(at: seq<nat>) {
    forall i, j :: 0 <= i < j < |at| ==> at[i] < at[j]
  }

  lemma {:induction false} SortedOrder(docs: Docs, list: seq<Bytes>, at: seq<nat>, opt: SortOption)
    requires Rising(at)
    ensures RankOrder(docs, list, SortAt(docs, list, at, opt), opt)
    ensures forall p :: p in SortAt(docs, list, at, opt) <==> p in at
    decreases |at|
  {
    hide Rank, DocAt, InsertAt;
    if at != [] {
      var n := |at| - 1;
      SortedOrder(docs, list, at[..n], opt);
      forall q | q in SortAt(docs, list, at[..n], opt)
        ensures q < at[n]
      {
        var i :| 0 <= i < n && at[i] == q;
      }
      InsertedOrder(docs, list, SortAt(docs, list, at[..n], opt), at[n], opt);
      assert at == at[..n] + [at[n]];
    }
  }

  // ---------- the places of the hits ----------

  function Places(num: real -> Bytes, docs: Docs, list: seq<Bytes>, filters: seq<Query>): seq<nat> {
    if list == [] then []
    else
      var n := |list| - 1;
      Places(num, docs, list[..n], filters)
      + (if list[n] in docs && Matches(num, docs[list[n]], filters) then [n] else [])
  }

  lemma {:induction false} PlacesAre(num: real -> Bytes, docs: Docs, list: seq<Bytes>, filters: seq<Query>)
    ensures Rising(Places(num, docs, list, filters))
    ensures forall p: nat :: p in Places(num, docs, list, filters) <==>
              p < |list| && list[p] in docs && Matches(num, docs[list[p]], filters)
    decreases |list|
  {
    hide Matches;
    if list != [] {
      var n := |list| - 1;
      PlacesAre(num, docs, list[..n], filters);
      var before := Places(num, docs, list[..n], filters);
      forall i | 0 <= i < |before|
        ensures before[i] < n
      {
        assert before[i] in before;
      }
    }
  }

  lemma {:induction false} PlacedDocs(num: real -> Bytes, docs: Docs, list: seq<Bytes>, filters: seq<Query>)
    ensures DocsAt(docs, list, Places(num, docs, list, filters)) == Matching(num, docs, list, filters)
    decreases |list|
  {
    hide Matches;
    if list != [] {
      var n := |list| - 1;
      PlacedDocs(num, docs, list[..n], filters);
      PlacesAre(num, docs, list[..n], filters);
      var before := Places(num, docs, list[..n], filters);
      LongerList(docs, list, n, before);
      assert DocsAt(docs, list, before + [n]) == DocsAt(docs, list, before) + [DocAt(docs, list, n)];
    }
  }

  lemma LongerList(docs: Docs, list: seq<Bytes>, n: nat, at: seq<nat>)
    requires n <= |list| && forall p :: p in at ==> p < n
    ensures DocsAt(docs, list, at) == DocsAt(docs, list[..n], at)
  {
    forall i | 0 <= i < |at|
      ensures DocAt(docs, list, at[i]) == DocAt(docs, list[..n], at[i])
    {
      assert at[i] in at;
    }
  }

  lemma PagedIs(docs: Docs, list: seq<Bytes>, at: seq<nat>, skip: int, limit: int)
    requires Stored(docs, list, at)
    ensures PageOf(docs, list, at, skip, limit, Page(DocsAt(docs, list, at), skip, limit))
  {
  }

  lemma RankIs(doc: Document, opt: SortOption)
    ensures Rank(doc, opt) == if opt.descending then -NumberIn(doc, opt.field) else NumberIn(doc, opt.field)
  {
  }

  lemma OrderIs(docs: Docs, list: seq<Bytes>, at: seq<nat>, opt: SortOption)
    requires RankOrder(docs, list, at, opt) && Stored(docs, list, at)
    ensures InOrder(docs, list, at, By(opt))
    ensures forall i, j :: 0 <= i < j < |at| ==> at[i] != at[j]
  {
    hide Rank, NumberIn;
    forall i, j | 0 <= i < j < |at|
      ensures at[i] != at[j]
      ensures var x, y := NumberIn(docs[list[at[i]]], opt.field), NumberIn(docs[list[at[j]]], opt.field);
              (if opt.descending then x > y else x < y) || (x == y && at[i] < at[j])
    {
      RankIs(docs[list[at[i]]], opt);
      RankIs(docs[list[at[j]]], opt);
    }
  }

  /** What is read, sorted and paged is the answer. */
  lemma ReadIs(num: real -> Bytes, docs: Docs, list: seq<Bytes>, opts: FindOptions)
    ensures ReadAnswer(num, docs, list, opts, Finish(Matching(num, docs, list, opts.filters), opts))
  {
    hide Matches, StableSort, SortAt, Rank, Page, PageOf, NumberIn, RankOrder, Matching, Places;
    PlacesAre(num, docs, list, opts.filters);
    PlacedDocs(num, docs, list, opts.filters);
    var hits := Places(num, docs, list, opts.filters);
    var at := hits;
    if opts.sort.By? {
      at := SortAt(docs, list, hits, opts.sort.opt);
      SortedOrder(docs, list, hits, opts.sort.opt);
      SortedDocs(docs, list, hits, opts.sort.opt);
    }
    forall i | 0 <= i < |at|
      ensures at[i] < |list| && list[at[i]] in docs
    {
      assert at[i] in at && at[i] in hits;
    }
    if opts.sort.By? {
      OrderIs(docs, list, at, opts.sort.opt);
    }
    PagedIs(docs, list, at, opts.skip, opts.limit);
    assert HitsAt(num, docs, list, opts.filters, at) && InOrder(docs, list, at, opts.sort);
  }

  /** A scan answers so. */
  lemma ScannedIs(num: real -> Bytes, docs: Docs, c: Bytes, opts: FindOptions)
    ensures FindScanned(num, docs, c, opts).Found?
    ensures ScanAnswer(num, docs, c, opts, FindScanned(num, docs, c, opts).docs)
  {
    hide Less, CollectionPrefix, Scan, ReadAnswer, Finish, Matching;
    var p := CollectionPrefix(c);
    var all := Scan(docs, p, p);
    ReadIs(num, docs, all, opts);
    forall k
      ensures k in all <==> k in docs && p <= k
    {
      if k in docs && p <= k {
        PrefixNotLess(p, k);
      }
    }
  }

  /** And so does the index path. */
  lemma IndexedIs(num: real -> Bytes, docs: Docs, c: Bytes, ids: seq<Bytes>, opts: FindOptions)
    ensures IndexAnswer(num, docs, c, ids, opts, FindIndexed(num, docs, c, ids, opts))
  {
    hide ReadAnswer, Finish, Matching, KeysOf;
    NothingThere(opts);
    if 0 <= opts.skip < EndOf(opts, |ids|) {
      ReadIs(num, docs, KeysOf(c, ids[opts.skip..EndOf(opts, |ids|)]), opts);
    }
  }

  lemma NothingThere(opts: FindOptions)
    ensures Finish([], opts) == []
  {
  }

  /** The answer to a scan without a skip or a limit: each document of the collection that passes, as often as it
      is stored there. */
  lemma WholeScan(num: real -> Bytes, docs: Docs, c: Bytes, opts: FindOptions, answer: seq<Document>)
    requires ScanAnswer(num, docs, c, opts, answer) && opts.skip <= 0 && opts.limit <= 0
    ensures exists ks ::
              && (forall k :: k in ks <==> k in docs && CollectionPrefix(c) <= k && Matches(num, docs[k], opts.filters))
              && Distinct(ks) && |ks| == |answer|
              && forall i :: 0 <= i < |ks| ==> ks[i] in docs && answer[i] == docs[ks[i]]
  {
    hide Matches, CollectionPrefix;
    var list :| Ascending(list) && (forall k :: k in list <==> k in docs && CollectionPrefix(c) <= k)
                && ReadAnswer(num, docs, list, opts, answer);
    var at :| HitsAt(num, docs, list, opts.filters, at) && Stored(docs, list, at)
              && InOrder(docs, list, at, opts.sort) && PageOf(docs, list, at, opts.skip, opts.limit, answer);
    AscendingDistinct(list);
    var ks := KeysAt(num, docs, list, opts.filters, at);
    hide InOrder, Ascending, HitsAt;
    assert forall k :: k in ks <==> k in docs && CollectionPrefix(c) <= k && Matches(num, docs[k], opts.filters);
    assert Distinct(ks) && |ks| == |answer|;
  }

  lemma KeysAt(num: real -> Bytes, docs: Docs, list: seq<Bytes>, filters: seq<Query>, at: seq<nat>)
    returns (ks: seq<Bytes>)
    requires HitsAt(num, docs, list, filters, at) && Stored(docs, list, at) && Distinct(list)
    ensures |ks| == |at| && forall i :: 0 <= i < |ks| ==> ks[i] == list[at[i]]
    ensures forall k :: k in ks <==> k in list && k in docs && Matches(num, docs[k], filters)
    ensures Distinct(ks)
  {
    hide Matches;
    ks := seq(|at|, i requires 0 <= i < |at| => list[at[i]]);
    forall k
      ensures k in ks <==> k in list && k in docs && Matches(num, docs[k], filters)
    {
      if k in ks {
        var i :| 0 <= i < |ks| && ks[i] == k;
        assert at[i] in at;
      }
      if k in list && k in docs && Matches(num, docs[k], filters) {
        var p :| 0 <= p < |list| && list[p] == k;
        assert p in at;
        var i :| 0 <= i < |at| && at[i] == p;
        assert ks[i] == k;
      }
    }
    forall i, j | 0 <= i < j < |ks|
      ensures ks[i] != ks[j]
    {
      assert at[i] < |list| && at[j] < |list| && at[i] != at[j];
      assert at[i] < at[j] ==> list[at[i]] != list[at[j]];
      assert at[j] < at[i] ==> list[at[j]] != list[at[i]];
    }
  }

  // ---------- writing one document ----------

  predicate OthersKept(before: Docs, after: Docs, k: Bytes) {
    && (forall j :: j in before && j != k ==> j in after && after[j] == before[j])
    && (forall j :: j in after && j != k ==> j in before)
  }

  /** What a value is once it has been stored: integers come back as numbers. */
  predicate ReadsBackAs(v: Value, w: Value) {
    match v
    case Int(i) => w == Num(i as real)
    case Long(n) => w == Num(n as real)
    case _ => w == v
  }

  /** The document's own id, if that is a text, or the new one; both timestamps; and its other fields. */
  predicate Inserted(before: Docs, c: Bytes, document: Document, newId: Bytes, now: Int64, r: Reply, after: Docs) {
    if c == [] then r == InvalidCollection && after == before
    else
      var id := if ID in document && document[ID].Str? && document[ID].s != [] then document[ID].s else newId;
      && r == Done(id) && OthersKept(before, after, DocKey(c, id)) && DocKey(c, id) in after
      && var d := after[DocKey(c, id)];
         && ID in d && d[ID] == Str(id)
         && CREATED_AT in d && d[CREATED_AT] == Num(now as real)
         && UPDATED_AT in d && d[UPDATED_AT] == Num(now as real)
         && (forall f :: f in document && f !in {ID, CREATED_AT, UPDATED_AT} ==>
               f in d && ReadsBackAs(document[f], d[f]))
         && (forall f :: f in d ==> f in document || f in {ID, CREATED_AT, UPDATED_AT})
  }

  /** What a field of an updated document is: gone if it is unset; the time of the update; the id, when the
      document is replaced; the new value if there is one; and the old one only when the two are merged. */
  predicate FieldUpdated(before: Document, id: Bytes, opts: UpdateOptions, now: Int64, after: Document, f: Bytes) {
    if f in opts.unset then f !in after
    else if f == UPDATED_AT then f in after && after[f] == Num(now as real)
    else if !opts.merge && f == ID then f in after && after[f] == Str(id)
    else if f in opts.fields then f in after && ReadsBackAs(opts.fields[f], after[f])
    else if opts.merge && f in before then f in after && ReadsBackAs(before[f], after[f])
    else f !in after
  }

  predicate Unchanged(c: Bytes, id: Bytes, before: Docs, r: Reply, after: Docs) {
    && after == before
    && (if c == [] || id == [] then r == InvalidDocument else DocKey(c, id) !in before && r == NotFound)
  }

  ghost predicate Updated(before: Docs, c: Bytes, id: Bytes, opts: UpdateOptions, now: Int64, r: Reply, after: Docs) {
    var k := DocKey(c, id);
    if c == [] || id == [] || k !in before then Unchanged(c, id, before, r, after)
    else if !opts.merge && opts.nilFields then r == Panicked && after == before
    else
      && r == Done(id) && OthersKept(before, after, k) && k in after
      && forall f :: FieldUpdated(before[k], id, opts, now, after[k], f)
  }

  predicate Deleted(before: Docs, c: Bytes, id: Bytes, r: Reply, after: Docs) {
    var k := DocKey(c, id);
    if c == [] || id == [] || k !in before then Unchanged(c, id, before, r, after)
    else r == Done(id) && k !in after && OthersKept(before, after, k)
  }

  lemma InsertIs(s: State, c: Bytes, document: Document, newId: Bytes, now: Int64)
    ensures var (after, r) := Insert(s, c, document, newId, now);
            Inserted(s.docs, c, document, newId, now, r, after.docs)
  {
    hide DocKey, AddToIndexes;
    NamesApart();
  }

  lemma NamesApart()
    ensures ID != CREATED_AT && ID != UPDATED_AT && CREATED_AT != UPDATED_AT
  {
    assert |ID| == 3 && |CREATED_AT| == |UPDATED_AT| == 11;
    assert CREATED_AT[1] == 'c' as int && UPDATED_AT[1] == 'u' as int;
  }

  lemma UpdateIs(s: State, c: Bytes, id: Bytes, opts: UpdateOptions, now: Int64)
    ensures var (after, r) := Update(s, c, id, opts, now);
            Updated(s.docs, c, id, opts, now, r, after.docs)
  {
    hide DocKey, AddToIndexes, DropFromIndexes;
    NamesApart();
  }

  lemma DeleteIs(s: State, c: Bytes, id: Bytes)
    ensures var (after, r) := Delete(s, c, id);
            Deleted(s.docs, c, id, r, after.docs)
  {
    hide DocKey, DropFromIndexes;
  }

  // ---------- the indexes ----------

  function IdsUnder(idx: Index, v: Value): seq<Bytes> {
    if v in idx then idx[v] else []
  }

  /** Every index of the collection has gained the id behind the others under the document's value, and nothing
      else has changed. */
  ghost predicate Enlisted(before: Indexes, c: Bytes, id: Bytes, doc: Document, after: Indexes) {
    && after.Keys == before.Keys && (forall d :: d in before && d != c ==> after[d] == before[d])
    && (c in before ==>
          && after[c].Keys == before[c].Keys
          && forall f, v :: f in before[c] ==>
               IdsUnder(after[c][f], v) ==
               IdsUnder(before[c][f], v) + if f in doc && doc[f] == v then [id] else [])
  }

  /** Every index of the collection has lost the id under the document's value, however often it was there, and
      nothing else has changed. */
  ghost predicate Delisted(before: Indexes, c: Bytes, id: Bytes, doc: Document, after: Indexes) {
    && after.Keys == before.Keys && (forall d :: d in before && d != c ==> after[d] == before[d])
    && (c in before ==>
          && after[c].Keys == before[c].Keys
          && forall f, v :: f in before[c] ==>
               if f in doc && doc[f] == v then LostId(IdsUnder(before[c][f], v), id, IdsUnder(after[c][f], v))
               else IdsUnder(after[c][f], v) == IdsUnder(before[c][f], v))
  }

  predicate LostId(before: seq<Bytes>, id: Bytes, after: seq<Bytes>) {
    multiset(after) == multiset(before)[id := 0] && (id !in before ==> after == before)
  }

  /** What is stored is what was written, as it reads back. */
  predicate Written(doc: Document, stored: Document) {
    doc.Keys == stored.Keys && forall f :: f in doc ==> ReadsBackAs(doc[f], stored[f])
  }

  /** The indexes have lost the document as it was stored before, and gained it as it was written. */
  ghost predicate Reindexed(docs: Docs, before: Indexes, c: Bytes, id: Bytes, docs': Docs, after: Indexes) {
    var k := DocKey(c, id);
    && k in docs && k in docs'
    && exists between, doc :: Written(doc, docs'[k])
         && Delisted(before, c, id, docs[k], between) && Enlisted(between, c, id, doc, after)
  }

  lemma AddedIs(indexes: Indexes, c: Bytes, id: Bytes, doc: Document)
    ensures Enlisted(indexes, c, id, doc, AddToIndexes(indexes, c, id, doc))
  {
  }

  lemma {:induction false} WithoutIs(ids: seq<Bytes>, id: Bytes)
    ensures LostId(ids, id, Without(ids, id))
    decreases |ids|
  {
    if ids != [] {
      var n := |ids| - 1;
      WithoutIs(ids[..n], id);
      assert ids == ids[..n] + [ids[n]];
    }
  }

  lemma DroppedIs(indexes: Indexes, c: Bytes, id: Bytes, doc: Document)
    ensures Delisted(indexes, c, id, doc, DropFromIndexes(indexes, c, id, doc))
  {
    hide Without, LostId;
    if c in indexes {
      forall f | f in indexes[c] && f in doc
        ensures LostId(IdsUnder(indexes[c][f], doc[f]), id, IdsUnder(DropField(indexes[c][f], f, id, doc), doc[f]))
      {
        OneDropped(indexes[c][f], doc[f], id);
      }
    }
  }

  lemma OneDropped(idx: Index, v: Value, id: Bytes)
    ensures LostId(IdsUnder(idx, v), id, IdsUnder(DropPosting(idx, v, id), v))
  {
    WithoutIs(IdsUnder(idx, v), id);
  }

  /** A document of the collection, under its id, has the value in the field. */
  ghost predicate HasValue(docs: Docs, c: Bytes, f: Bytes, v: Value, id: Bytes) {
    exists k :: k in docs && CollectionPrefix(c) <= k && ID in docs[k] && docs[k][ID] == Str(id)
                && f in docs[k] && docs[k][f] == v
  }

  /** The index on the field lists what it listed, and the documents that have the value. */
  ghost predicate IndexCreated(before: State, c: Bytes, f: Bytes, r: Reply, after: State) {
    if c == [] || f == [] then r == InvalidDocument && after == before
    else
      && r == Done([]) && after.docs == before.docs && c in after.indexes && f in after.indexes[c]
      && (forall d :: d != c ==> (d in after.indexes <==> d in before.indexes)
                                 && (d in before.indexes ==> after.indexes[d] == before.indexes[d]))
      && var fields := if c in before.indexes then before.indexes[c] else map[];
         && (forall g :: g != f ==> (g in after.indexes[c] <==> g in fields)
                                    && (g in fields ==> after.indexes[c][g] == fields[g]))
         && forall v, id :: id in IdsUnder(after.indexes[c][f], v) <==>
              (f in fields && id in IdsUnder(fields[f], v)) || HasValue(before.docs, c, f, v, id)
  }

  lemma {:induction false} BuiltIs(idx: Index, docs: Docs, ks: seq<Bytes>, f: Bytes, v: Value, id: Bytes)
    requires forall k :: k in ks ==> k in docs
    ensures id in IdsUnder(Built(idx, docs, ks, f), v) <==>
            id in IdsUnder(idx, v)
            || exists k :: k in ks && ID in docs[k] && docs[k][ID] == Str(id) && f in docs[k] && docs[k][f] == v
    decreases |ks|
  {
    if ks != [] {
      var n := |ks| - 1;
      assert ks == ks[..n] + [ks[n]] && ks[n] in ks;
      BuiltIs(idx, docs, ks[..n], f, v, id);
    }
  }

  lemma CreatedIs(s: State, c: Bytes, f: Bytes)
    ensures var (after, r) := CreateIndex(s, c, f);
            IndexCreated(s, c, f, r, after)
  {
    hide CollectionPrefix, Built, Scan, Less;
    var p := CollectionPrefix(c);
    var ks := Scan(s.docs, p, p);
    forall k
      ensures k in ks <==> k in s.docs && p <= k
    {
      if k in s.docs && p <= k {
        PrefixNotLess(p, k);
      }
    }
    if c != [] && f != [] {
      forall v, id
        ensures id in IdsUnder(Built(IndexOf(s.indexes, c, f), s.docs, ks, f), v) <==>
                id in IdsUnder(IndexOf(s.indexes, c, f), v) || HasValue(s.docs, c, f, v, id)
      {
        BuiltIs(IndexOf(s.indexes, c, f), s.docs, ks, f, v, id);
      }
    }
  }

  /** The index on that field is gone, and no other. */
  predicate IndexDropped(before: State, c: Bytes, f: Bytes, after: State) {
    && after.docs == before.docs && after.indexes.Keys == before.indexes.Keys
    && (forall d :: d in before.indexes && d != c ==> after.indexes[d] == before.indexes[d])
    && (c in before.indexes ==>
          && f !in after.indexes[c]
          && (forall g :: g in before.indexes[c] && g != f ==>
                g in after.indexes[c] && after.indexes[c][g] == before.indexes[c][g])
          && forall g :: g in after.indexes[c] ==> g in before.indexes[c])
  }

  // ---------- filters ----------

  /** The number a filter asks for, 0 if it is none or a list. */
  function NumberAsked(fv: FilterValue): real {
    match fv
    case One(Num(x)) => x
    case One(Int(i)) => i as real
    case One(Long(n)) => n as real
    case _ => 0.0
  }

  /** A document without the field passes only an inequality; otherwise the numbers are compared, or the printed
      forms. */
  predicate Passes(num: real -> Bytes, doc: Document, q: Query) {
    if q.field !in doc then q.op == Ne
    else
      var x, y := NumberIn(doc, q.field), NumberAsked(q.value);
      && (q.op == Gt ==> x > y) && (q.op == Gte ==> x >= y) && (q.op == Lt ==> x < y) && (q.op == Lte ==> x <= y)
      && (q.op == Eq ==> Shown(num, doc[q.field]) == ShownFilter(num, q.value))
      && (q.op == Ne ==> Shown(num, doc[q.field]) != ShownFilter(num, q.value))
      && (q.op == In ==> q.value.Many?
                         && exists i :: 0 <= i < |q.value.vs| && Shown(num, doc[q.field]) == Shown(num, q.value.vs[i]))
      && q.op != Unknown
  }

  lemma MatchIs(num: real -> Bytes, doc: Document, q: Query)
    ensures MatchesOne(num, doc, q) <==> Passes(num, doc, q)
  {
    hide Shown, ShownFilter;
  }

  /** How values are printed: texts as they are, integers in decimal digits, and a list in brackets. */
  lemma PrintedAs(num: real -> Bytes, v: Value)
    ensures match v
            case Str(s) => Shown(num, v) == s
            case Num(x) => Shown(num, v) == num(x)
            case Bool(b) => Shown(num, v) == Ascii(if b then "true" else "false")
            case Null => Shown(num, v) == Ascii("<nil>")
            case Int(i) => Shown(num, v) == DecInt(i)
            case Long(n) => Shown(num, v) == DecInt(n)
    ensures ShownFilter(num, One(v)) == Shown(num, v)
    ensures ShownFilter(num, Many([v])) == Ascii("[") + Shown(num, v) + Ascii("]")
  {
  }
}
