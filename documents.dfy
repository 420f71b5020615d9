/** The document model of the store: JSON values, documents, queries and the
    equality-match semantics of a query against one document. */
module Documents {

  /** A JSON value: null, a boolean, an integer (no floats), a string, an object
      or a list. Objects and lists stay distinct here, although the associative
      arrays PHP decodes both into do not keep them apart. */
  datatype Json =
    | JNull
    | JBool(b: bool)
    | JNum(n: int)
    | JStr(s: string)
    | JObj(fields: map<string, Json>)
    | JArr(items: seq<Json>)

  /** A document is an associative array from field name to value. */
  type Doc = map<string, Json>

  /** A query (and an update patch) is a field -> required value map. */
  type Query = map<string, Json>

  /** The field every inserted document is stamped with. */
  const IdField: string := "_id"

  /** Reading `$doc[$key]`: a missing field reads as null. */
  function Field(doc: Doc, key: string): (v: Json)
    ensures key in doc ==> v == doc[key]
    ensures key !in doc ==> v == JNull
  {
    if key in doc then doc[key] else JNull
  }

  /** A document matches a query when every queried field reads as the queried value. */
  predicate Matches(doc: Doc, q: Query)
  {
    forall key :: key in q ==> Field(doc, key) == q[key]
  }

  /** The document `insert` stores: `doc` with `_id` set to the generated id. */
  function Stamp(doc: Doc, id: string): (r: Doc)
    ensures r.Keys == doc.Keys + {IdField}
    ensures r[IdField] == JStr(id)
    ensures forall key :: key in doc && key != IdField ==> r[key] == doc[key]
  {
    doc[IdField := JStr(id)]
  }

  /** A document lacking a field matches a query asking for null in that field,
      and fails any query asking for a non-null value there. */
  lemma MissingFieldReadsNull(doc: Doc, key: string, v: Json)
    requires key !in doc
    ensures Matches(doc, map[key := v]) <==> v == JNull
  {
    assert Field(doc, key) == JNull;
    if Matches(doc, map[key := v]) {
      assert key in map[key := v];
    }
  }
}
