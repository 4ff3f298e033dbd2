/** The document store object, one caller at a time. */
module DocStore {
  import opened ByteStrings
  import opened OrderedStore
  import opened Documents
  import opened DocSort
  import opened DocFind
  import opened DocLaws

  class Store {
    /** The stored documents, as they come back from JSON. */
    var docs: Docs
    /** collection -> field -> value -> document ids */
    var indexes: Indexes

    function State(): State
      reads this
    {
      Documents.State(docs, indexes)
    }

    constructor ()
      ensures State() == Documents.State(map[], map[])
    {
      docs, indexes := map[], map[];
    }

    method Insert(collection: Bytes, document: Document, newId: Bytes, now: Int64) returns (r: Reply)
      modifies this
      ensures (State(), r) == Documents.Insert(old(State()), collection, document, newId, now)
      ensures Inserted(old(docs), collection, document, newId, now, r, docs)
      ensures if r.Done? then
                Enlisted(old(indexes), collection, r.id,
                         document[ID := Str(r.id)][CREATED_AT := Long(now)][UPDATED_AT := Long(now)], indexes)
              else indexes == old(indexes)
    {
      hide Enlisted;
      InsertIs(State(), collection, document, newId, now);
      hide DocKey, AddToIndexes, Json;
      if collection == [] {
        return InvalidCollection;
      }
      var doc := document;
      var id := newId;
      if ID in doc && doc[ID].Str? && doc[ID].s != [] {
        id := doc[ID].s;
      } else {
        doc := doc[ID := Str(id)];
      }
      doc := doc[CREATED_AT := Long(now)][UPDATED_AT := Long(now)];
      assert doc == Stamped(document, newId, now);
      docs := docs[DocKey(collection, id) := Json(doc)];
      UpdateIndexes(collection, id, doc);
      r := Done(id);
    }

    method UpdateIndexes(collection: Bytes, id: Bytes, doc: Document)
      modifies this`indexes
      ensures indexes == AddToIndexes(old(indexes), collection, id, doc)
      ensures Enlisted(old(indexes), collection, id, doc, indexes)
    {
      AddedIs(indexes, collection, id, doc);
      if collection in indexes {
        var fields := AddToEach(indexes[collection], id, doc);
        indexes := indexes[collection := fields];
      }
    }

    method RemoveIndexes(collection: Bytes, id: Bytes, doc: Document)
      modifies this`indexes
      ensures indexes == DropFromIndexes(old(indexes), collection, id, doc)
      ensures Delisted(old(indexes), collection, id, doc, indexes)
    {
      DroppedIs(indexes, collection, id, doc);
      if collection in indexes {
        var fields := DropFromEach(indexes[collection], id, doc);
        indexes := indexes[collection := fields];
      }
    }

    method Get(collection: Bytes, id: Bytes) returns (doc: Document, r: Reply)
      ensures r == if collection == [] || id == [] then InvalidDocument
                   else if DocKey(collection, id) !in docs then NotFound else Done(id)
      ensures r.Done? ==> doc == docs[DocKey(collection, id)]
    {
      doc := map[];
      if collection == [] || id == [] {
        return doc, InvalidDocument;
      }
      var key := DocKey(collection, id);
      if key !in docs {
        return doc, NotFound;
      }
      return docs[key], Done(id);
    }

    method Update(collection: Bytes, id: Bytes, opts: UpdateOptions, now: Int64) returns (r: Reply)
      modifies this
      ensures (State(), r) == Documents.Update(old(State()), collection, id, opts, now)
      ensures Updated(old(docs), collection, id, opts, now, r, docs)
      ensures if r.Done? then Reindexed(old(docs), old(indexes), collection, id, docs, indexes)
              else indexes == old(indexes)
    {
      UpdateIs(State(), collection, id, opts, now);
      hide Enlisted, Delisted, Updated;
      hide DocKey, AddToIndexes, DropFromIndexes, Json;
      var doc;
      doc, r := Get(collection, id);
      if !r.Done? {
        return;
      }
      var oldDoc := doc;
      if opts.merge {
        doc := Merged(doc, opts.fields);
      } else {
        if opts.nilFields {
          return Panicked;
        }
        doc := opts.fields[ID := Str(id)];
      }
      doc := doc[UPDATED_AT := Long(now)];
      doc := Removed(doc, opts.unset);
      assert doc == Changed(oldDoc, id, opts, now);
      docs := docs[DocKey(collection, id) := Json(doc)];
      RemoveIndexes(collection, id, oldDoc);
      ghost var between := indexes;
      UpdateIndexes(collection, id, doc);
      StoredReadsBack(doc);
      assert Written(doc, docs[DocKey(collection, id)]);
      assert Delisted(old(indexes), collection, id, old(docs)[DocKey(collection, id)], between);
      assert Enlisted(between, collection, id, doc, indexes);
    }

    method Delete(collection: Bytes, id: Bytes) returns (r: Reply)
      modifies this
      ensures (State(), r) == Documents.Delete(old(State()), collection, id)
      ensures Deleted(old(docs), collection, id, r, docs)
      ensures if r.Done? then DocKey(collection, id) in old(docs)
                              && Delisted(old(indexes), collection, id, old(docs)[DocKey(collection, id)], indexes)
              else indexes == old(indexes)
    {
      DeleteIs(State(), collection, id);
      hide DocKey, DropFromIndexes;
      var doc;
      doc, r := Get(collection, id);
      if !r.Done? {
        return;
      }
      docs := docs - {DocKey(collection, id)};
      RemoveIndexes(collection, id, doc);
    }

    method CreateIndex(collection: Bytes, field: Bytes) returns (r: Reply)
      modifies this
      ensures (State(), r) == Documents.CreateIndex(old(State()), collection, field)
      ensures IndexCreated(old(State()), collection, field, r, State())
    {
      CreatedIs(State(), collection, field);
      hide IndexCreated;
      hide CollectionPrefix, Scan, Built;
      if collection == [] || field == [] {
        return InvalidDocument;
      }
      var fields: Fields := map[];
      if collection in indexes {
        fields := indexes[collection];
      }
      var index: Index := map[];
      if field in fields {
        index := fields[field];
      }
      var prefix := CollectionPrefix(collection);
      index := ScanInto(index, docs, Scan(docs, prefix, prefix), field);
      indexes := indexes[collection := fields[field := index]];
      r := Done([]);
    }

    method DropIndex(collection: Bytes, field: Bytes)
      modifies this
      ensures State() == Documents.DropIndex(old(State()), collection, field)
      ensures IndexDropped(old(State()), collection, field, State())
    {
      if collection in indexes {
        indexes := indexes[collection := indexes[collection] - {field}];
      }
    }

    method TryUseIndexes(collection: Bytes, filters: seq<Query>) returns (r: Lookup)
      ensures r == UseIndexes(FieldsOf(indexes, collection), filters)
    {
      if collection !in indexes || indexes[collection] == map[] {
        NoFieldsNoIndex(filters);
        return NoIndex;
      }
      var fields := indexes[collection];
      for i := 0 to |filters|
        invariant UseIndexes(fields, filters) == UseIndexes(fields, filters[i..])
      {
        var filter := filters[i];
        if filter.op != Eq {
          continue;
        }
        if filter.field in fields {
          if filter.value.Many? {
            return Unhashable;
          }
          if filter.value.v in fields[filter.field] {
            return Postings(fields[filter.field][filter.value.v]);
          }
          return Postings([]);
        }
      }
      r := NoIndex;
    }

    method Find(num: real -> Bytes, collection: Bytes, opts: FindOptions) returns (r: FindResult)
      ensures r == FindSpec(num, State(), collection, opts)
      ensures collection == [] ==> r == NoCollection
      ensures collection != [] && NoIndexFor(indexes, collection, opts.filters) ==>
                r.Found? && ScanAnswer(num, docs, collection, opts, r.docs)
      ensures collection in indexes ==>
                forall i :: 0 <= i < |opts.filters| && FirstIndexed(indexes[collection], opts.filters, i) ==>
                  collection == []
                  || match opts.filters[i].value
                     case One(v) =>
                       var index := indexes[collection][opts.filters[i].field];
                       IndexAnswer(num, docs, collection, IdsUnder(index, v), opts, r)
                     case Many(_) => r == FindPanicked
    {
      IndexAnswers(num, State(), collection, opts);
      ScannedIs(num, docs, collection, opts);
      NoIndexIsScanned(indexes, collection, opts.filters);
      hide ScanAnswer, NoIndexFor, FirstIndexed, IndexAnswer;
      hide UseIndexes, Matching, Matches, Scan, CollectionPrefix, DocKey, Finish, KeysOf;
      if collection == [] {
        return NoCollection;
      }
      var results: seq<Document> := [];
      var lookup := TryUseIndexes(collection, opts.filters);
      if lookup.Unhashable? {
        return FindPanicked;
      }
      if lookup.Postings? {
        var ids := lookup.ids;
        var startIdx, endIdx := opts.skip, WrapInt64(opts.skip + opts.limit);
        if opts.limit < 0 {
          endIdx := |ids|;
        }
        if startIdx >= |ids| {
          return Found([]);
        }
        if endIdx > |ids| {
          endIdx := |ids|;
        }
        if startIdx < 0 && startIdx < endIdx {
          return FindPanicked;
        }
        if startIdx < endIdx {
          results := ReadListed(num, collection, ids[startIdx..endIdx], opts.filters);
        }
      } else {
        var prefix := CollectionPrefix(collection);
        results := ReadScanned(num, Scan(docs, prefix, prefix), opts.filters);
      }
      var found := SortAndPage(results, opts);
      r := Found(found);
    }

    /** The documents of the listed ids that are still there and pass all filters. */
    method ReadListed(num: real -> Bytes, collection: Bytes, ids: seq<Bytes>, filters: seq<Query>)
      returns (results: seq<Document>)
      ensures results == Matching(num, docs, KeysOf(collection, ids), filters)
    {
      hide Matches, DocKey;
      results := [];
      ghost var ks := KeysOf(collection, ids);
      for i := 0 to |ids|
        invariant results == Matching(num, docs, ks[..i], filters)
      {
        assert ks[..i + 1][..i] == ks[..i];
        var key := DocKey(collection, ids[i]);
        assert key == ks[i];
        if key !in docs {
          continue;
        }
        var doc := docs[key];
        var matches := MatchesFilters(num, doc, filters);
        if matches {
          results := results + [doc];
        }
      }
      assert ks[..|ids|] == ks;
    }

    method ReadScanned(num: real -> Bytes, ks: seq<Bytes>, filters: seq<Query>) returns (results: seq<Document>)
      requires forall k :: k in ks ==> k in docs
      ensures results == Matching(num, docs, ks, filters)
    {
      hide Matches;
      results := [];
      for i := 0 to |ks|
        invariant results == Matching(num, docs, ks[..i], filters)
      {
        assert ks[..i + 1][..i] == ks[..i];
        assert ks[i] in ks;
        var doc := docs[ks[i]];
        var matches := MatchesFilters(num, doc, filters);
        if matches {
          results := results + [doc];
        }
      }
      assert ks[..|ks|] == ks;
    }
  }

  lemma StoredReadsBack(doc: Document)
    ensures Written(doc, Json(doc))
  {
  }

  /** No filter asks for equality in a field that is indexed. */
  predicate NoIndexFor(indexes: Indexes, c: Bytes, filters: seq<Query>) {
    c in indexes ==> forall i :: 0 <= i < |filters| ==> filters[i].op != Eq || filters[i].field !in indexes[c]
  }

  /** The filter asks for equality in an indexed field, and no filter before it does. */
  predicate FirstIndexed(fields: Fields, filters: seq<Query>, i: nat) {
    && i < |filters| && filters[i].op == Eq && filters[i].field in fields
    && forall k :: 0 <= k < i ==> filters[k].op != Eq || filters[k].field !in fields
  }

  lemma IndexAnswers(num: real -> Bytes, s: Documents.State, c: Bytes, opts: FindOptions)
    ensures c in s.indexes ==>
              forall i :: 0 <= i < |opts.filters| && FirstIndexed(s.indexes[c], opts.filters, i) ==>
                c == []
                || match opts.filters[i].value
                   case One(v) =>
                     IndexAnswer(num, s.docs, c, IdsUnder(s.indexes[c][opts.filters[i].field], v), opts,
                                 FindSpec(num, s, c, opts))
                   case Many(_) => FindSpec(num, s, c, opts) == FindPanicked
  {
    hide IndexAnswer, FindIndexed, FindScanned;
    if c in s.indexes && c != [] {
      forall i | 0 <= i < |opts.filters| && FirstIndexed(s.indexes[c], opts.filters, i)
        ensures match opts.filters[i].value
                case One(v) =>
                  IndexAnswer(num, s.docs, c, IdsUnder(s.indexes[c][opts.filters[i].field], v), opts,
                              FindSpec(num, s, c, opts))
                case Many(_) => FindSpec(num, s, c, opts) == FindPanicked
      {
        assert DecidedBy(s.indexes[c], opts.filters, i);
        UseIndexesIs(s.indexes[c], opts.filters, i);
        if opts.filters[i].value.One? {
          IndexedIs(num, s.docs, c, IdsUnder(s.indexes[c][opts.filters[i].field], opts.filters[i].value.v), opts);
        }
      }
    }
  }

  lemma {:induction false} NoneUsed(fields: Fields, filters: seq<Query>)
    requires forall i :: 0 <= i < |filters| ==> filters[i].op != Eq || filters[i].field !in fields
    ensures UseIndexes(fields, filters) == NoIndex
    decreases |filters|
  {
    if filters != [] {
      NoneUsed(fields, filters[1..]);
    }
  }

  lemma NoIndexIsScanned(indexes: Indexes, c: Bytes, filters: seq<Query>)
    ensures NoIndexFor(indexes, c, filters) ==> UseIndexes(FieldsOf(indexes, c), filters) == NoIndex
  {
    if NoIndexFor(indexes, c, filters) {
      NoneUsed(FieldsOf(indexes, c), filters);
    }
  }

  lemma {:induction false} NoFieldsNoIndex(filters: seq<Query>)
    ensures UseIndexes(map[], filters) == NoIndex
    decreases |filters|
  {
    if filters != [] {
      NoFieldsNoIndex(filters[1..]);
    }
  }

  /** Visits the indexed fields in whatever order the map yields them. */
  method AddToEach(fields: Fields, id: Bytes, doc: Document) returns (r: Fields)
    ensures r == AddToFields(fields, id, doc)
  {
    hide AddPosting;
    r := fields;
    var left := fields.Keys;
    while left != {}
      invariant left <= fields.Keys && r.Keys == fields.Keys
      invariant forall f :: f in fields ==> r[f] == if f in left then fields[f] else AddField(fields[f], f, id, doc)
      decreases |left|
    {
      var field :| field in left;
      left := left - {field};
      if field in doc {
        var index := Appended(r[field], doc[field], id);
        r := r[field := index];
      }
    }
  }

  method DropFromEach(fields: Fields, id: Bytes, doc: Document) returns (r: Fields)
    ensures r == DropFromFields(fields, id, doc)
  {
    hide DropPosting;
    r := fields;
    var left := fields.Keys;
    while left != {}
      invariant left <= fields.Keys && r.Keys == fields.Keys
      invariant forall f :: f in fields ==> r[f] == if f in left then fields[f] else DropField(fields[f], f, id, doc)
      decreases |left|
    {
      var field :| field in left;
      left := left - {field};
      if field in doc {
        var index := TakenOut(r[field], doc[field], id);
        r := r[field := index];
      }
    }
  }

  method TakenOut(index: Index, v: Value, id: Bytes) returns (r: Index)
    ensures r == DropPosting(index, v, id)
  {
    hide Without;
    r := index;
    if v in r {
      var newIds := FilterOut(r[v], id);
      if newIds == [] {
        r := r - {v};
      } else {
        r := r[v := newIds];
      }
    }
  }

  method ScanInto(index: Index, docs: Docs, ks: seq<Bytes>, field: Bytes) returns (r: Index)
    requires forall k :: k in ks ==> k in docs
    ensures r == Built(index, docs, ks, field)
  {
    hide AddPosting;
    r := index;
    for i := 0 to |ks|
      invariant forall k :: k in ks[..i] ==> k in docs
      invariant r == Built(index, docs, ks[..i], field)
    {
      assert ks[..i + 1][..i] == ks[..i];
      assert ks[i] in ks;
      var doc := docs[ks[i]];
      if ID in doc && doc[ID].Str? && field in doc {
        r := Appended(r, doc[field], doc[ID].s);
      }
    }
    assert ks[..|ks|] == ks;
  }

  method FilterOut(ids: seq<Bytes>, id: Bytes) returns (newIds: seq<Bytes>)
    ensures newIds == Without(ids, id)
  {
    newIds := [];
    for i := 0 to |ids|
      invariant newIds == Without(ids[..i], id)
    {
      assert ids[..i + 1][..i] == ids[..i];
      if ids[i] != id {
        newIds := newIds + [ids[i]];
      }
    }
    assert ids[..|ids|] == ids;
  }

  method Appended(index: Index, v: Value, id: Bytes) returns (r: Index)
    ensures r == AddPosting(index, v, id)
  {
    r := index;
    if v !in r {
      r := r[v := []];
    }
    r := r[v := r[v] + [id]];
  }

  /** Copies the new fields over the document, in whatever order the map is visited. */
  method Merged(document: Document, fields: Document) returns (doc: Document)
    ensures doc == document + fields
  {
    doc := document;
    var left := fields.Keys;
    while left != {}
      invariant left <= fields.Keys
      invariant doc.Keys == document.Keys + (fields.Keys - left)
      invariant forall f :: f in doc ==> doc[f] == if f in fields && f !in left then fields[f] else document[f]
      decreases |left|
    {
      var f :| f in left;
      doc := doc[f := fields[f]];
      left := left - {f};
    }
  }

  method Removed(document: Document, fields: seq<Bytes>) returns (doc: Document)
    ensures doc == Unset(document, fields)
  {
    doc := document;
    for i := 0 to |fields|
      invariant doc == Unset(document, fields[..i])
    {
      doc := doc - {fields[i]};
    }
    assert fields[..|fields|] == fields;
  }

  method MatchesFilters(num: real -> Bytes, doc: Document, filters: seq<Query>) returns (ok: bool)
    ensures ok == Matches(num, doc, filters)
    ensures ok <==> forall i :: 0 <= i < |filters| ==> Passes(num, doc, filters[i])
  {
    hide MatchesOne, Passes;
    forall i | 0 <= i < |filters|
      ensures MatchesOne(num, doc, filters[i]) <==> Passes(num, doc, filters[i])
    {
      MatchIs(num, doc, filters[i]);
    }
    for i := 0 to |filters|
      invariant forall k :: 0 <= k < i ==> MatchesOne(num, doc, filters[k])
    {
      var one := MatchesFilter(num, doc, filters[i]);
      if !one {
        return false;
      }
    }
    ok := true;
  }

  method MatchesFilter(num: real -> Bytes, doc: Document, filter: Query) returns (ok: bool)
    ensures ok == MatchesOne(num, doc, filter)
    ensures ok <==> Passes(num, doc, filter)
  {
    MatchIs(num, doc, filter);
    hide Shown, ShownFilter, Number, FilterNumber;
    if filter.field !in doc {
      return filter.op == Ne;
    }
    var val := doc[filter.field];
    match filter.op
    case Eq => ok := Shown(num, val) == ShownFilter(num, filter.value);
    case Ne => ok := Shown(num, val) != ShownFilter(num, filter.value);
    case Gt => ok := Number(val) > FilterNumber(filter.value);
    case Gte => ok := Number(val) >= FilterNumber(filter.value);
    case Lt => ok := Number(val) < FilterNumber(filter.value);
    case Lte => ok := Number(val) <= FilterNumber(filter.value);
    case In => ok := InArray(num, val, filter.value);
    case Unknown => ok := false;
  }

  method InArray(num: real -> Bytes, val: Value, list: FilterValue) returns (found: bool)
    ensures found <==> list.Many? && exists i :: 0 <= i < |list.vs| && Shown(num, val) == Shown(num, list.vs[i])
  {
    hide Shown;
    if list.One? {
      return false;
    }
    for i := 0 to |list.vs|
      invariant forall k :: 0 <= k < i ==> Shown(num, val) != Shown(num, list.vs[k])
    {
      if Shown(num, val) == Shown(num, list.vs[i]) {
        return true;
      }
    }
    found := false;
  }

  method SortAndPage(docs: seq<Document>, opts: FindOptions) returns (results: seq<Document>)
    ensures results == Finish(docs, opts)
  {
    hide StableSort;
    results := docs;
    if opts.sort.By? {
      var a := new Document[|results|](i requires 0 <= i < |results| => results[i]);
      assert a[..] == results;
      SortResults(a, opts.sort.opt);
      results := a[..];
    }
    if opts.skip > 0 {
      if opts.skip >= |results| {
        results := [];
      } else {
        results := results[opts.skip..];
      }
    }
    if opts.limit > 0 && |results| > opts.limit {
      results := results[..opts.limit];
    }
  }
}
