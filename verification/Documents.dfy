/** Documents, their stored form, and the secondary indexes that must agree with them. */
module Documents {
  import opened ByteStrings
  import opened Decimal
  import opened Keys
  import opened OrderedStore

  /** A scalar field value.  JSON has strings, numbers, booleans and null; a Go caller, and the store itself
      for its timestamps, also puts in integers, which come back from JSON as floating-point numbers. */
  datatype Value = Str(s: Bytes) | Num(x: real) | Bool(b: bool) | Null | Int(i: int) | Long(n: Int64)

  type Document = map<Bytes, Value>
  type Docs = map<Bytes, Document>

  /** The ids of the documents that have a value, value by value. */
  type Index = map<Value, seq<Bytes>>
  type Fields = map<Bytes, Index>
  type Indexes = map<Bytes, Fields>

  datatype State = State(docs: Docs, indexes: Indexes)

  datatype Reply = Done(id: Bytes) | InvalidCollection | InvalidDocument | NotFound | Panicked

  const ID: Bytes := Ascii("_id")
  const CREATED_AT: Bytes := Ascii("_created_at")
  const UPDATED_AT: Bytes := Ascii("_updated_at")

  function CollectionPrefix(c: Bytes): Bytes {
    Ascii("doc:") + Join(c, [])
  }

  function DocKey(c: Bytes, id: Bytes): Bytes {
    Ascii("doc:") + Join(c, id)
  }

  lemma DocKeyInjective(c: Bytes, i: Bytes, d: Bytes, j: Bytes)
    requires ColonFree(c) && ColonFree(d)
    ensures DocKey(c, i) == DocKey(d, j) <==> c == d && i == j
  {
    SamePrefix(Ascii("doc:"), Join(c, i), Join(d, j));
    FirstColon(c, i, d, j);
  }

  /** The scanned prefix covers exactly the keys of the collection. */
  lemma PrefixCovers(c: Bytes, k: Bytes)
    ensures CollectionPrefix(c) <= k <==> exists id :: k == DocKey(c, id)
  {
    hide Ascii;
    var p := CollectionPrefix(c);
    assert forall id :: DocKey(c, id) == p + id;
    if p <= k {
      assert k == p + k[|p|..] == DocKey(c, k[|p|..]);
    }
  }

  // ---------- JSON ----------

  function JsonValue(v: Value): Value {
    match v
    case Int(i) => Num(i as real)
    case Long(n) => Num(n as real)
    case _ => v
  }

  function Json(doc: Document): Document {
    map f | f in doc :: JsonValue(doc[f])
  }

  predicate Survives(v: Value) {
    JsonValue(v) == v
  }

  // ---------- postings ----------

  function Posting(idx: Index, v: Value): seq<Bytes> {
    if v in idx then idx[v] else []
  }

  function AddPosting(idx: Index, v: Value, id: Bytes): Index {
    idx[v := Posting(idx, v) + [id]]
  }

  function Without(ids: seq<Bytes>, id: Bytes): seq<Bytes> {
    if ids == [] then []
    else
      var n := |ids| - 1;
      Without(ids[..n], id) + (if ids[n] != id then [ids[n]] else [])
  }

  function DropPosting(idx: Index, v: Value, id: Bytes): Index {
    if v !in idx then idx
    else
      var ids := Without(idx[v], id);
      if ids == [] then idx - {v} else idx[v := ids]
  }

  function AddField(idx: Index, f: Bytes, id: Bytes, doc: Document): Index {
    if f in doc then AddPosting(idx, doc[f], id) else idx
  }

  function DropField(idx: Index, f: Bytes, id: Bytes, doc: Document): Index {
    if f in doc then DropPosting(idx, doc[f], id) else idx
  }

  function AddToFields(fields: Fields, id: Bytes, doc: Document): Fields {
    map f | f in fields :: AddField(fields[f], f, id, doc)
  }

  function DropFromFields(fields: Fields, id: Bytes, doc: Document): Fields {
    map f | f in fields :: DropField(fields[f], f, id, doc)
  }

  function AddToIndexes(indexes: Indexes, c: Bytes, id: Bytes, doc: Document): Indexes {
    if c in indexes then indexes[c := AddToFields(indexes[c], id, doc)] else indexes
  }

  function DropFromIndexes(indexes: Indexes, c: Bytes, id: Bytes, doc: Document): Indexes {
    if c in indexes then indexes[c := DropFromFields(indexes[c], id, doc)] else indexes
  }

  // ---------- operations ----------

  /** The document an insert stores, with an id and two timestamps. */
  function Stamped(doc: Document, newId: Bytes, now: Int64): (d: Document)
    ensures ID in d && d[ID].Str? && (newId != [] ==> d[ID].s != [])
  {
    var id := if ID in doc && doc[ID].Str? && doc[ID].s != [] then doc[ID].s else newId;
    doc[ID := Str(id)][CREATED_AT := Long(now)][UPDATED_AT := Long(now)]
  }

  function Insert(s: State, c: Bytes, doc: Document, newId: Bytes, now: Int64): (State, Reply) {
    if c == [] then (s, InvalidCollection)
    else
      var d := Stamped(doc, newId, now);
      var id := d[ID].s;
      (State(s.docs[DocKey(c, id) := Json(d)], AddToIndexes(s.indexes, c, id, d)), Done(id))
  }

  datatype UpdateOptions = UpdateOptions(fields: Document, nilFields: bool, unset: seq<Bytes>, merge: bool)

  function Unset(doc: Document, fields: seq<Bytes>): Document {
    map f | f in doc && f !in fields :: doc[f]
  }

  function Changed(before: Document, id: Bytes, opts: UpdateOptions, now: Int64): Document {
    var doc := if opts.merge then before + opts.fields else opts.fields[ID := Str(id)];
    Unset(doc[UPDATED_AT := Long(now)], opts.unset)
  }

  /** Replacing by a nil document writes into a nil map. */
  function Update(s: State, c: Bytes, id: Bytes, opts: UpdateOptions, now: Int64): (State, Reply) {
    var k := DocKey(c, id);
    if c == [] || id == [] then (s, InvalidDocument)
    else if k !in s.docs then (s, NotFound)
    else if !opts.merge && opts.nilFields then (s, Panicked)
    else
      var doc := Changed(s.docs[k], id, opts, now);
      (State(s.docs[k := Json(doc)], AddToIndexes(DropFromIndexes(s.indexes, c, id, s.docs[k]), c, id, doc)), Done(id))
  }

  function Delete(s: State, c: Bytes, id: Bytes): (State, Reply) {
    var k := DocKey(c, id);
    if c == [] || id == [] then (s, InvalidDocument)
    else if k !in s.docs then (s, NotFound)
    else (State(s.docs - {k}, DropFromIndexes(s.indexes, c, id, s.docs[k])), Done(id))
  }

  predicate Posted(doc: Document, f: Bytes) {
    ID in doc && doc[ID].Str? && f in doc
  }

  function AddScanned(idx: Index, doc: Document, f: Bytes): Index {
    if Posted(doc, f) then AddPosting(idx, doc[f], doc[ID].s) else idx
  }

  /** The index after the documents under `ks` have been scanned into it. */
  function Built(idx: Index, docs: Docs, ks: seq<Bytes>, f: Bytes): Index
    requires forall k :: k in ks ==> k in docs
  {
    if ks == [] then idx
    else
      var n := |ks| - 1;
      assert ks[n] in ks;
      AddScanned(Built(idx, docs, ks[..n], f), docs[ks[n]], f)
  }

  function FieldsOf(indexes: Indexes, c: Bytes): Fields {
    if c in indexes then indexes[c] else map[]
  }

  function IndexOf(indexes: Indexes, c: Bytes, f: Bytes): Index {
    if f in FieldsOf(indexes, c) then FieldsOf(indexes, c)[f] else map[]
  }

  /** Creating an index on a field that already has one scans into the old one. */
  function CreateIndex(s: State, c: Bytes, f: Bytes): (State, Reply) {
    if c == [] || f == [] then (s, InvalidDocument)
    else
      var ks := Scan(s.docs, CollectionPrefix(c), CollectionPrefix(c));
      var idx := Built(IndexOf(s.indexes, c, f), s.docs, ks, f);
      (s.(indexes := s.indexes[c := FieldsOf(s.indexes, c)[f := idx]]), Done([]))
  }

  function DropIndex(s: State, c: Bytes, f: Bytes): State {
    if c in s.indexes then s.(indexes := s.indexes[c := s.indexes[c] - {f}]) else s
  }

  // ---------- agreement ----------

  predicate HasField(docs: Docs, c: Bytes, id: Bytes, f: Bytes) {
    DocKey(c, id) in docs && f in docs[DocKey(c, id)]
  }

  predicate FieldIs(docs: Docs, c: Bytes, id: Bytes, f: Bytes, v: Value) {
    HasField(docs, c, id, f) && docs[DocKey(c, id)][f] == v
  }

  /** A posting list holds, once each, the documents whose field has the value. */
  ghost predicate PostingOk(ids: seq<Bytes>, docs: Docs, c: Bytes, f: Bytes, v: Value) {
    Distinct(ids) && forall id :: id in ids <==> FieldIs(docs, c, id, f, v)
  }

  ghost predicate IndexOk(idx: Index, docs: Docs, c: Bytes, f: Bytes) {
    && (forall v :: PostingOk(Posting(idx, v), docs, c, f, v))
    && (forall v :: v in idx ==> idx[v] != [])
  }

  ghost predicate IndexesOk(s: State) {
    && (forall c :: c in s.indexes ==> ColonFree(c))
    && (forall c, f :: c in s.indexes && f in s.indexes[c] ==> IndexOk(s.indexes[c][f], s.docs, c, f))
  }

  /** A stored document is under its own id, and has been through JSON. */
  predicate StoredOk(doc: Document, id: Bytes) {
    ID in doc && doc[ID] == Str(id) && Json(doc) == doc
  }

  ghost predicate DocsOk(docs: Docs) {
    forall c, id :: ColonFree(c) && DocKey(c, id) in docs ==> StoredOk(docs[DocKey(c, id)], id)
  }

  ghost predicate Agreement(s: State) {
    DocsOk(s.docs) && IndexesOk(s)
  }

  // ---------- one index ----------

  lemma JsonTwice(doc: Document)
    ensures Json(Json(doc)) == Json(doc)
  {
  }

  /** Only the documents of the collection matter to its indexes. */
  lemma IndexOkFrame(idx: Index, docs: Docs, docs': Docs, c: Bytes, f: Bytes)
    requires forall id :: DocKey(c, id) in docs <==> DocKey(c, id) in docs'
    requires forall id :: DocKey(c, id) in docs ==> docs[DocKey(c, id)] == docs'[DocKey(c, id)]
    ensures IndexOk(idx, docs, c, f) ==> IndexOk(idx, docs', c, f)
  {
    hide DocKey, Distinct;
    if IndexOk(idx, docs, c, f) {
      forall v
        ensures PostingOk(Posting(idx, v), docs', c, f, v)
      {
        assert PostingOk(Posting(idx, v), docs, c, f, v);
        forall id
          ensures id in Posting(idx, v) <==> FieldIs(docs', c, id, f, v)
        {
          assert id in Posting(idx, v) <==> FieldIs(docs, c, id, f, v);
        }
      }
    }
  }

  lemma OneKeyApart(c: Bytes, id: Bytes, j: Bytes)
    ensures DocKey(c, id) == DocKey(c, j) <==> id == j
  {
    assert DocKey(c, id)[|DocKey(c, [])|..] == id && DocKey(c, j)[|DocKey(c, [])|..] == j;
  }

  /** What the documents say after one of them has been written. */
  lemma FieldIsAfterWrite(docs: Docs, c: Bytes, id: Bytes, doc: Document, j: Bytes, f: Bytes, v: Value)
    ensures FieldIs(docs[DocKey(c, id) := doc], c, j, f, v) <==>
            if j == id then f in doc && doc[f] == v else FieldIs(docs, c, j, f, v)
  {
    OneKeyApart(c, id, j);
  }

  lemma FieldIsAfterErase(docs: Docs, c: Bytes, id: Bytes, j: Bytes, f: Bytes, v: Value)
    ensures FieldIs(docs - {DocKey(c, id)}, c, j, f, v) <==> j != id && FieldIs(docs, c, j, f, v)
  {
    OneKeyApart(c, id, j);
  }

  /** Writing a document and adding it to an index keeps the agreement if the index knew nothing of its id
      and the value survives JSON. */
  lemma AddFieldKeeps(idx: Index, docs: Docs, c: Bytes, f: Bytes, id: Bytes, doc: Document)
    requires IndexOk(idx, docs, c, f)
    requires !HasField(docs, c, id, f)
    requires f in doc ==> Survives(doc[f])
    ensures IndexOk(AddField(idx, f, id, doc), docs[DocKey(c, id) := Json(doc)], c, f)
  {
    hide DocKey, HasField;
    var idx', docs' := AddField(idx, f, id, doc), docs[DocKey(c, id) := Json(doc)];
    forall v
      ensures PostingOk(Posting(idx', v), docs', c, f, v)
    {
      var ids := Posting(idx, v);
      assert PostingOk(ids, docs, c, f, v);
      assert id !in ids by {
        assert id in ids <==> FieldIs(docs, c, id, f, v);
      }
      forall j
        ensures j in Posting(idx', v) <==> FieldIs(docs', c, j, f, v)
      {
        FieldIsAfterWrite(docs, c, id, Json(doc), j, f, v);
        assert j in ids <==> FieldIs(docs, c, j, f, v);
      }
    }
  }

  /** Otherwise it breaks it: the id is listed under a value its document does not have, or listed twice. */
  lemma AddFieldBreaks(idx: Index, docs: Docs, c: Bytes, f: Bytes, id: Bytes, doc: Document)
    requires IndexOk(idx, docs, c, f)
    requires HasField(docs, c, id, f) || (f in doc && !Survives(doc[f]))
    ensures !IndexOk(AddField(idx, f, id, doc), docs[DocKey(c, id) := Json(doc)], c, f)
  {
    hide DocKey;
    var idx', docs' := AddField(idx, f, id, doc), docs[DocKey(c, id) := Json(doc)];
    if f in doc && !Survives(doc[f]) {
      var v := doc[f];
      FieldIsAfterWrite(docs, c, id, Json(doc), id, f, v);
      assert id in Posting(idx', v);
      assert !PostingOk(Posting(idx', v), docs', c, f, v);
    } else {
      var w := docs[DocKey(c, id)][f];
      assert PostingOk(Posting(idx, w), docs, c, f, w);
      assert FieldIs(docs, c, id, f, w);
      assert id in Posting(idx, w) && id in Posting(idx', w);
      FieldIsAfterWrite(docs, c, id, Json(doc), id, f, w);
      if f in doc && doc[f] == w {
        var i :| 0 <= i < |idx[w]| && idx[w][i] == id;
        assert idx'[w][i] == idx'[w][|idx[w]|];
      }
      assert !PostingOk(Posting(idx', w), docs', c, f, w);
    }
  }

  lemma {:induction false} WithoutIs(ids: seq<Bytes>, id: Bytes)
    requires Distinct(ids)
    ensures Distinct(Without(ids, id))
    ensures forall j :: j in Without(ids, id) <==> j in ids && j != id
    decreases |ids|
  {
    if ids != [] {
      var n := |ids| - 1;
      WithoutIs(ids[..n], id);
      assert ids == ids[..n] + [ids[n]];
      assert ids[n] !in ids[..n];
    }
  }

  lemma DropFieldKeeps(idx: Index, docs: Docs, c: Bytes, f: Bytes, id: Bytes)
    requires IndexOk(idx, docs, c, f) && DocKey(c, id) in docs
    ensures IndexOk(DropField(idx, f, id, docs[DocKey(c, id)]), docs - {DocKey(c, id)}, c, f)
  {
    hide DocKey, Distinct, Without;
    var doc := docs[DocKey(c, id)];
    var idx', docs' := DropField(idx, f, id, doc), docs - {DocKey(c, id)};
    forall v
      ensures PostingOk(Posting(idx', v), docs', c, f, v)
      ensures v in idx' ==> idx'[v] != []
    {
      var ids := Posting(idx, v);
      assert PostingOk(ids, docs, c, f, v);
      assert id in ids <==> FieldIs(docs, c, id, f, v);
      WithoutIs(ids, id);
      DistinctNone();
      forall j
        ensures j in Posting(idx', v) <==> FieldIs(docs', c, j, f, v)
      {
        FieldIsAfterErase(docs, c, id, j, f, v);
        assert j in ids <==> FieldIs(docs, c, j, f, v);
      }
    }
  }

  lemma DistinctNone()
    ensures Distinct([])
  {
  }

  // ---------- all indexes ----------

  /** Two collections do not share a key. */
  lemma OtherCollection(c: Bytes, id: Bytes, d: Bytes, j: Bytes)
    requires ColonFree(c) && ColonFree(d) && c != d
    ensures DocKey(d, j) != DocKey(c, id)
  {
    DocKeyInjective(c, id, d, j);
  }

  lemma OtherCollectionsKept(s: State, c: Bytes, id: Bytes, docs': Docs, d: Bytes, f: Bytes)
    requires IndexesOk(s) && ColonFree(c) && d in s.indexes && f in s.indexes[d] && d != c
    requires docs' == s.docs - {DocKey(c, id)}
             || (DocKey(c, id) in docs' && docs' == s.docs[DocKey(c, id) := docs'[DocKey(c, id)]])
    ensures IndexOk(s.indexes[d][f], docs', d, f)
  {
    hide DocKey, IndexOk, ColonFree;
    forall j
      ensures DocKey(d, j) != DocKey(c, id)
    {
      assert ColonFree(d);
      OtherCollection(c, id, d, j);
    }
    IndexOkFrame(s.indexes[d][f], s.docs, docs', d, f);
  }

  /** The fields of a collection whose index a written document would spoil. */
  predicate Spoils(s: State, c: Bytes, id: Bytes, doc: Document, f: Bytes) {
    f in FieldsOf(s.indexes, c) && (HasField(s.docs, c, id, f) || (f in doc && !Survives(doc[f])))
  }

  /** Writing a document and adding it to the indexes keeps them in agreement exactly when no indexed
      field is spoilt. */
  lemma WriteAgrees(s: State, c: Bytes, id: Bytes, doc: Document)
    requires IndexesOk(s) && ColonFree(c)
    ensures IndexesOk(State(s.docs[DocKey(c, id) := Json(doc)], AddToIndexes(s.indexes, c, id, doc)))
       <==> forall f :: !Spoils(s, c, id, doc, f)
  {
    hide IndexOk, DocKey, ColonFree, AddField, HasField, Json, Survives;
    var s' := State(s.docs[DocKey(c, id) := Json(doc)], AddToIndexes(s.indexes, c, id, doc));
    forall f | f in FieldsOf(s.indexes, c)
      ensures IndexOk(s'.indexes[c][f], s'.docs, c, f) <==> !Spoils(s, c, id, doc, f)
    {
      WriteOneIndex(s, c, id, doc, f);
    }
    forall d, f | d in s.indexes && f in s.indexes[d] && d != c
      ensures IndexOk(s'.indexes[d][f], s'.docs, d, f)
    {
      OtherCollectionsKept(s, c, id, s'.docs, d, f);
    }
    if exists f :: Spoils(s, c, id, doc, f) {
      var f :| Spoils(s, c, id, doc, f);
      assert c in s'.indexes && f in s'.indexes[c];
    }
  }

  lemma WriteOneIndex(s: State, c: Bytes, id: Bytes, doc: Document, f: Bytes)
    requires IndexesOk(s) && f in FieldsOf(s.indexes, c)
    ensures IndexOk(AddField(s.indexes[c][f], f, id, doc), s.docs[DocKey(c, id) := Json(doc)], c, f)
       <==> !Spoils(s, c, id, doc, f)
  {
    hide IndexOk, DocKey, ColonFree, AddField, HasField, Json, Survives;
    if Spoils(s, c, id, doc, f) {
      AddFieldBreaks(s.indexes[c][f], s.docs, c, f, id, doc);
    } else {
      AddFieldKeeps(s.indexes[c][f], s.docs, c, f, id, doc);
    }
  }

  lemma EraseAgrees(s: State, c: Bytes, id: Bytes)
    requires IndexesOk(s) && ColonFree(c) && DocKey(c, id) in s.docs
    ensures IndexesOk(State(s.docs - {DocKey(c, id)}, DropFromIndexes(s.indexes, c, id, s.docs[DocKey(c, id)])))
  {
    hide IndexOk, DocKey, ColonFree, DropField;
    var s' := State(s.docs - {DocKey(c, id)}, DropFromIndexes(s.indexes, c, id, s.docs[DocKey(c, id)]));
    forall d, f | d in s'.indexes && f in s'.indexes[d]
      ensures IndexOk(s'.indexes[d][f], s'.docs, d, f)
    {
      if d == c {
        DropFieldKeeps(s.indexes[c][f], s.docs, c, f, id);
      } else {
        OtherCollectionsKept(s, c, id, s'.docs, d, f);
      }
    }
  }

  lemma WriteDocsOk(docs: Docs, c: Bytes, id: Bytes, doc: Document)
    requires DocsOk(docs) && ColonFree(c)
    ensures DocsOk(docs[DocKey(c, id) := Json(doc)]) <==> ID in doc && doc[ID] == Str(id)
  {
    hide DocKey, ColonFree;
    var docs' := docs[DocKey(c, id) := Json(doc)];
    JsonTwice(doc);
    assert StoredOk(Json(doc), id) <==> ID in doc && doc[ID] == Str(id);
    if StoredOk(Json(doc), id) {
      forall d, j | ColonFree(d) && DocKey(d, j) in docs'
        ensures StoredOk(docs'[DocKey(d, j)], j)
      {
        DocKeyInjective(c, id, d, j);
      }
    } else {
      assert DocKey(c, id) in docs';
    }
  }

  lemma EraseDocsOk(docs: Docs, k: Bytes)
    requires DocsOk(docs)
    ensures DocsOk(docs - {k})
  {
    hide DocKey, ColonFree, StoredOk;
  }

  // ---------- operation by operation, exactly when it keeps the agreement ----------

  /** An insert keeps the agreement exactly when, for every indexed field, the value it puts there survives
      JSON and no document of the same id had the field before.  An index on a timestamp is spoilt by every
      insert. */
  lemma InsertAgrees(s: State, c: Bytes, doc: Document, newId: Bytes, now: Int64)
    requires Agreement(s) && ColonFree(c) && c != []
    ensures var d := Stamped(doc, newId, now);
            Agreement(Insert(s, c, doc, newId, now).0) <==> forall f :: !Spoils(s, c, d[ID].s, d, f)
  {
    hide DocKey, ColonFree, IndexesOk, DocsOk, Spoils, Stamped, AddToIndexes;
    var d := Stamped(doc, newId, now);
    WriteAgrees(s, c, d[ID].s, d);
    WriteDocsOk(s.docs, c, d[ID].s, d);
  }

  /** Once a timestamp is indexed, every insert breaks the agreement. */
  lemma TimestampsSpoil(s: State, c: Bytes, doc: Document, newId: Bytes, now: Int64)
    requires Agreement(s) && ColonFree(c) && c != []
    requires CREATED_AT in FieldsOf(s.indexes, c) || UPDATED_AT in FieldsOf(s.indexes, c)
    ensures !Agreement(Insert(s, c, doc, newId, now).0)
  {
    hide Agreement, Insert, ColonFree;
    InsertAgrees(s, c, doc, newId, now);
    var d := Stamped(doc, newId, now);
    assert Spoils(s, c, d[ID].s, d, CREATED_AT) || Spoils(s, c, d[ID].s, d, UPDATED_AT);
  }

  /** The fields of a collection whose index an update would spoil: the old value has been taken out. */
  predicate ChangeSpoils(s: State, c: Bytes, doc: Document, f: Bytes) {
    f in FieldsOf(s.indexes, c) && f in doc && !Survives(doc[f])
  }

  /** An update of an existing document keeps the agreement exactly when it leaves the id alone and every
      indexed field of the new document survives JSON. */
  lemma UpdateAgrees(s: State, c: Bytes, id: Bytes, opts: UpdateOptions, now: Int64)
    requires Agreement(s) && ColonFree(c) && Update(s, c, id, opts, now).1.Done?
    ensures var doc := Changed(s.docs[DocKey(c, id)], id, opts, now);
            Agreement(Update(s, c, id, opts, now).0)
            <==> ID in doc && doc[ID] == Str(id) && forall f :: !ChangeSpoils(s, c, doc, f)
  {
    hide DocKey, ColonFree, IndexesOk, DocsOk, Changed, AddToIndexes, DropFromIndexes, Survives, Json;
    var k := DocKey(c, id);
    var doc := Changed(s.docs[k], id, opts, now);
    var erased := State(s.docs - {k}, DropFromIndexes(s.indexes, c, id, s.docs[k]));
    EraseAgrees(s, c, id);
    EraseDocsOk(s.docs, k);
    WriteAgrees(erased, c, id, doc);
    WriteDocsOk(erased.docs, c, id, doc);
    assert erased.docs[k := Json(doc)] == s.docs[k := Json(doc)];
    SameFieldsIndexed(s.indexes, c, id, s.docs[k]);
    forall f
      ensures Spoils(erased, c, id, doc, f) <==> ChangeSpoils(s, c, doc, f)
    {
    }
  }

  lemma SameFieldsIndexed(indexes: Indexes, c: Bytes, id: Bytes, doc: Document)
    ensures forall f :: f in FieldsOf(DropFromIndexes(indexes, c, id, doc), c) <==> f in FieldsOf(indexes, c)
  {
  }

  lemma DeleteAgrees(s: State, c: Bytes, id: Bytes)
    requires Agreement(s) && ColonFree(c)
    ensures Agreement(Delete(s, c, id).0)
  {
    hide DocKey, ColonFree, IndexesOk, DocsOk;
    if Delete(s, c, id).1.Done? {
      EraseAgrees(s, c, id);
      EraseDocsOk(s.docs, DocKey(c, id));
    }
  }

  lemma DropIndexAgrees(s: State, c: Bytes, f: Bytes)
    requires Agreement(s)
    ensures Agreement(DropIndex(s, c, f))
  {
    hide IndexOk, DocsOk, ColonFree;
  }

  // ---------- building an index ----------

  function Only(docs: Docs, ks: seq<Bytes>): Docs {
    map k | k in docs && k in ks :: docs[k]
  }

  lemma EmptyIndexOk(docs: Docs, c: Bytes, f: Bytes)
    requires forall id :: !HasField(docs, c, id, f)
    ensures IndexOk(map[], docs, c, f)
  {
    hide HasField, DocKey;
    forall v
      ensures PostingOk(Posting(map[], v), docs, c, f, v)
    {
      assert forall id :: !FieldIs(docs, c, id, f, v);
    }
  }

  lemma NothingScanned(docs: Docs, c: Bytes, f: Bytes)
    ensures IndexOk(map[], Only(docs, []), c, f)
  {
    hide IndexOk, DocKey;
    EmptyIndexOk(Only(docs, []), c, f);
  }

  /** Scanning documents into an empty index makes it agree with the documents scanned. */
  lemma {:induction false} BuiltIs(docs: Docs, ks: seq<Bytes>, c: Bytes, f: Bytes)
    requires DocsOk(docs) && ColonFree(c) && Distinct(ks)
    requires forall k :: k in ks ==> k in docs && CollectionPrefix(c) <= k
    ensures IndexOk(Built(map[], docs, ks, f), Only(docs, ks), c, f)
    decreases |ks|
  {
    hide IndexOk, ColonFree, CollectionPrefix, DocKey, AddPosting, DocsOk, Only, Posted;
    if ks == [] {
      NothingScanned(docs, c, f);
    } else {
      var n := |ks| - 1;
      assert ks == ks[..n] + [ks[n]];
      assert ks[n] in ks;
      BuiltIs(docs, ks[..n], c, f);
      BuiltNext(docs, ks[..n], ks[n], c, f, Built(map[], docs, ks[..n], f));
    }
  }

  lemma BuiltNext(docs: Docs, init: seq<Bytes>, k: Bytes, c: Bytes, f: Bytes, idx: Index)
    requires DocsOk(docs) && ColonFree(c) && k !in init
    requires k in docs && CollectionPrefix(c) <= k && IndexOk(idx, Only(docs, init), c, f)
    ensures IndexOk(AddScanned(idx, docs[k], f), Only(docs, init + [k]), c, f)
  {
    hide IndexOk, ColonFree, CollectionPrefix, DocKey, AddPosting;
    PrefixCovers(c, k);
    var id :| k == DocKey(c, id);
    assert StoredOk(docs[k], id);
    assert Only(docs, init + [k]) == Only(docs, init)[k := Json(docs[k])];
    AddFieldKeeps(idx, Only(docs, init), c, f, id, docs[k]);
  }

  /** Scanning into an index appends to its lists. */
  lemma {:induction false} BuiltAppends(idx: Index, docs: Docs, ks: seq<Bytes>, f: Bytes, v: Value)
    requires forall k :: k in ks ==> k in docs
    ensures Posting(Built(idx, docs, ks, f), v) == Posting(idx, v) + Posting(Built(map[], docs, ks, f), v)
    decreases |ks|
  {
    hide Posted;
    if ks != [] {
      var n := |ks| - 1;
      assert ks[n] in ks;
      BuiltAppends(idx, docs, ks[..n], f, v);
      AddScannedAppends(Built(idx, docs, ks[..n], f), Built(map[], docs, ks[..n], f), docs[ks[n]], f, v,
                        Posting(idx, v));
    }
  }

  lemma AddScannedAppends(a: Index, b: Index, doc: Document, f: Bytes, v: Value, before: seq<Bytes>)
    requires Posting(a, v) == before + Posting(b, v)
    ensures Posting(AddScanned(a, doc, f), v) == before + Posting(AddScanned(b, doc, f), v)
  {
  }

  lemma {:induction false} BuiltNothing(idx: Index, docs: Docs, ks: seq<Bytes>, f: Bytes)
    requires forall k :: k in ks ==> k in docs && f !in docs[k]
    ensures Built(idx, docs, ks, f) == idx
    decreases |ks|
  {
    if ks != [] {
      BuiltNothing(idx, docs, ks[..|ks| - 1], f);
    }
  }

  /** A new index agrees with the collection. */
  lemma ScanBuilds(docs: Docs, c: Bytes, f: Bytes)
    requires DocsOk(docs) && ColonFree(c)
    ensures IndexOk(Built(map[], docs, Scan(docs, CollectionPrefix(c), CollectionPrefix(c)), f), docs, c, f)
  {
    hide IndexOk, ColonFree, CollectionPrefix, DocKey, DocsOk, Scan, Built;
    var ks := Scan(docs, CollectionPrefix(c), CollectionPrefix(c));
    AscendingDistinct(ks);
    BuiltIs(docs, ks, c, f);
    forall id | DocKey(c, id) in docs
      ensures DocKey(c, id) in Only(docs, ks)
    {
      PrefixCovers(c, DocKey(c, id));
      PrefixNotLess(CollectionPrefix(c), DocKey(c, id));
    }
    IndexOkFrame(Built(map[], docs, ks, f), Only(docs, ks), docs, c, f);
  }

  /** Creating an index a second time lists every document that has the field twice. */
  lemma SecondScan(idx: Index, docs: Docs, c: Bytes, f: Bytes)
    requires DocsOk(docs) && ColonFree(c) && IndexOk(idx, docs, c, f)
    ensures var ks := Scan(docs, CollectionPrefix(c), CollectionPrefix(c));
            IndexOk(Built(idx, docs, ks, f), docs, c, f) <==> forall id :: !HasField(docs, c, id, f)
  {
    hide ColonFree, CollectionPrefix, DocKey, DocsOk, Scan, Built;
    var ks := Scan(docs, CollectionPrefix(c), CollectionPrefix(c));
    if id :| HasField(docs, c, id, f) {
      var v := docs[DocKey(c, id)][f];
      ScanBuilds(docs, c, f);
      BuiltAppends(idx, docs, ks, f, v);
      var once := Built(map[], docs, ks, f);
      assert PostingOk(Posting(idx, v), docs, c, f, v) && PostingOk(Posting(once, v), docs, c, f, v);
      assert FieldIs(docs, c, id, f, v);
      TwiceIsNotDistinct(Posting(idx, v), Posting(once, v), id);
      assert !PostingOk(Posting(Built(idx, docs, ks, f), v), docs, c, f, v);
    } else {
      forall k | k in ks
        ensures f !in docs[k]
      {
        PrefixCovers(c, k);
        var id :| k == DocKey(c, id);
        assert !HasField(docs, c, id, f);
      }
      BuiltNothing(idx, docs, ks, f);
    }
  }

  lemma TwiceIsNotDistinct(a: seq<Bytes>, b: seq<Bytes>, id: Bytes)
    requires id in a && id in b
    ensures !Distinct(a + b)
  {
    var i :| 0 <= i < |a| && a[i] == id;
    var j :| 0 <= j < |b| && b[j] == id;
    assert (a + b)[i] == (a + b)[|a| + j];
  }

  /** Creating an index keeps the agreement exactly when the field was not indexed yet or no document of the
      collection has it. */
  lemma CreateIndexAgrees(s: State, c: Bytes, f: Bytes)
    requires Agreement(s) && ColonFree(c) && c != [] && f != []
    ensures Agreement(CreateIndex(s, c, f).0)
       <==> f !in FieldsOf(s.indexes, c) || forall id :: !HasField(s.docs, c, id, f)
  {
    hide ColonFree, CollectionPrefix, DocKey, DocsOk, Scan, Built, IndexOk, HasField;
    var s' := CreateIndex(s, c, f).0;
    if f in FieldsOf(s.indexes, c) {
      SecondScan(s.indexes[c][f], s.docs, c, f);
    } else {
      ScanBuilds(s.docs, c, f);
    }
    assert s'.docs == s.docs && c in s'.indexes && f in s'.indexes[c];
    forall d, g | d in s'.indexes && g in s'.indexes[d] && (d, g) != (c, f)
      ensures IndexOk(s'.indexes[d][g], s'.docs, d, g)
    {
      assert d in s.indexes && g in s.indexes[d];
    }
  }

  // ---------- whole runs ----------

  datatype Operation =
    | InsertOp(c: Bytes, doc: Document, newId: Bytes, now: Int64)
    | UpdateOp(c: Bytes, id: Bytes, opts: UpdateOptions, now: Int64)
    | DeleteOp(c: Bytes, id: Bytes)
    | CreateIndexOp(c: Bytes, f: Bytes)
    | DropIndexOp(c: Bytes, f: Bytes)

  function Perform(s: State, op: Operation): State {
    match op
    case InsertOp(c, doc, newId, now) => Insert(s, c, doc, newId, now).0
    case UpdateOp(c, id, opts, now) => Update(s, c, id, opts, now).0
    case DeleteOp(c, id) => Delete(s, c, id).0
    case CreateIndexOp(c, f) => CreateIndex(s, c, f).0
    case DropIndexOp(c, f) => DropIndex(s, c, f)
  }

  /** The values of a document that an index could be built on. */
  predicate Scalars(doc: Document) {
    forall f :: f in doc ==> Survives(doc[f])
  }

  predicate OnTimestamp(f: Bytes) {
    f == CREATED_AT || f == UPDATED_AT
  }

  /** What a caller can see to, operation by operation: names without ':', documents inserted under an id
      that is not taken, updates that leave the id alone, values that JSON leaves alone, and one index per
      field, on other fields than the timestamps. */
  predicate Careful(s: State, op: Operation) {
    match op
    case InsertOp(c, doc, newId, now) =>
      ColonFree(c) && Scalars(doc) && DocKey(c, Stamped(doc, newId, now)[ID].s) !in s.docs
    case UpdateOp(c, id, opts, _) =>
      ColonFree(c) && Scalars(opts.fields) && ID !in opts.unset && (opts.merge ==> ID !in opts.fields)
    case DeleteOp(c, _) => ColonFree(c)
    case CreateIndexOp(c, f) => ColonFree(c) && !OnTimestamp(f) && f !in FieldsOf(s.indexes, c)
    case DropIndexOp(_, _) => true
  }

  predicate NoTimestampIndex(s: State) {
    forall c, f :: c in s.indexes && f in s.indexes[c] ==> !OnTimestamp(f)
  }

  lemma CarefulAgrees(s: State, op: Operation)
    requires Agreement(s) && NoTimestampIndex(s) && Careful(s, op)
    ensures Agreement(Perform(s, op)) && NoTimestampIndex(Perform(s, op))
  {
    hide DocKey, ColonFree, IndexesOk, DocsOk, AddToIndexes, DropFromIndexes, NoTimestampIndex, Scan, Built;
    StillNoTimestampIndex(s, op);
    match op
    case InsertOp(c, doc, newId, now) => CarefulInsert(s, c, doc, newId, now);
    case UpdateOp(c, id, opts, now) => CarefulUpdate(s, c, id, opts, now);
    case DeleteOp(c, id) => DeleteAgrees(s, c, id);
    case CreateIndexOp(c, f) =>
      if c != [] && f != [] {
        CreateIndexAgrees(s, c, f);
      }
    case DropIndexOp(c, f) => DropIndexAgrees(s, c, f);
  }

  lemma StillNoTimestampIndex(s: State, op: Operation)
    requires NoTimestampIndex(s) && Careful(s, op)
    ensures NoTimestampIndex(Perform(s, op))
  {
    hide DocKey, ColonFree, Scan, Built, Json, Stamped, Changed, AddField, DropField, OnTimestamp;
  }

  lemma CarefulInsert(s: State, c: Bytes, doc: Document, newId: Bytes, now: Int64)
    requires Agreement(s) && NoTimestampIndex(s) && Careful(s, InsertOp(c, doc, newId, now))
    ensures Agreement(Insert(s, c, doc, newId, now).0)
  {
    hide DocKey, ColonFree, Agreement;
    if c != [] {
      InsertAgrees(s, c, doc, newId, now);
      var d := Stamped(doc, newId, now);
      forall f
        ensures !Spoils(s, c, d[ID].s, d, f)
      {
        if f in FieldsOf(s.indexes, c) && f in d {
          assert !OnTimestamp(f);
        }
      }
    }
  }

  lemma CarefulUpdate(s: State, c: Bytes, id: Bytes, opts: UpdateOptions, now: Int64)
    requires Agreement(s) && NoTimestampIndex(s) && Careful(s, UpdateOp(c, id, opts, now))
    ensures Agreement(Update(s, c, id, opts, now).0)
  {
    hide DocKey, ColonFree, AddToIndexes, DropFromIndexes;
    if Update(s, c, id, opts, now).1.Done? {
      var stored := s.docs[DocKey(c, id)];
      assert StoredOk(stored, id);
      var doc := Changed(stored, id, opts, now);
      UpdateAgrees(s, c, id, opts, now);
      forall f
        ensures !ChangeSpoils(s, c, doc, f)
      {
        if f in FieldsOf(s.indexes, c) && f in doc {
          assert !OnTimestamp(f);
          assert f in stored ==> Json(stored)[f] == stored[f];
        }
      }
    }
  }

  function PerformAll(s: State, ops: seq<Operation>): State {
    if ops == [] then s else Perform(PerformAll(s, ops[..|ops| - 1]), ops[|ops| - 1])
  }

  predicate CarefulAll(s: State, ops: seq<Operation>) {
    ops == [] || (CarefulAll(s, ops[..|ops| - 1]) && Careful(PerformAll(s, ops[..|ops| - 1]), ops[|ops| - 1]))
  }

  /** Over every careful run from an empty store, every posting list holds, once each, exactly the documents
      whose field has its value, and no list is empty. */
  lemma {:induction false} IndexesAgree(ops: seq<Operation>)
    requires CarefulAll(State(map[], map[]), ops)
    ensures var s := PerformAll(State(map[], map[]), ops);
            Agreement(s) && NoTimestampIndex(s)
    decreases |ops|
  {
    hide Careful, Perform, Agreement, NoTimestampIndex;
    if ops == [] {
      EmptyAgrees();
    } else {
      IndexesAgree(ops[..|ops| - 1]);
      CarefulAgrees(PerformAll(State(map[], map[]), ops[..|ops| - 1]), ops[|ops| - 1]);
    }
  }

  lemma EmptyAgrees()
    ensures Agreement(State(map[], map[])) && NoTimestampIndex(State(map[], map[]))
  {
  }
}
