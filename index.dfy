/** The per-field index `ensureIndex` builds: documents grouped by the array key
    their value of the field becomes, each group in collection order. */
module Index {
  import opened Documents
  import opened Sequences

  /** A PHP array key is an integer or a string. Values that are not legal
      keys (objects and lists) are kept apart under a key of their own. */
  datatype Key = IntKey(i: int) | StrKey(s: string) | ValueKey(v: Json)

  /** The array key a field value is stored under: null becomes "", a boolean
      becomes 0 or 1, integers and strings stay as they are. */
  function BucketKey(v: Json): (k: Key)
    ensures v.JNum? ==> k == IntKey(v.n)
    ensures v.JStr? ==> k == StrKey(v.s)
    ensures v.JNull? ==> k == StrKey("")
    ensures v.JBool? ==> k == IntKey(if v.b then 1 else 0)
    ensures k.ValueKey? <==> v.JObj? || v.JArr?
  {
    match v
    case JNull => StrKey("")
    case JBool(b) => IntKey(if b then 1 else 0)
    case JNum(n) => IntKey(n)
    case JStr(s) => StrKey(s)
    case _ => ValueKey(v)
  }

  /** Two field values share a bucket exactly when they are equal or form one of
      the pairs PHP's key rules merge: null and "", false and 0, true and 1. */
  lemma KeyCollisions(a: Json, b: Json)
    ensures BucketKey(a) == BucketKey(b) <==>
              || a == b
              || {a, b} == {JNull, JStr("")}
              || {a, b} == {JBool(false), JNum(0)}
              || {a, b} == {JBool(true), JNum(1)}
  {
    if BucketKey(a) == BucketKey(b) && a != b {
      match a
      case JNull => assert b == JStr("");
      case JBool(x) => assert b == JNum(if x then 1 else 0);
      case JNum(n) => assert b == JBool(n == 1) && (n == 0 || n == 1);
      case JStr(s) => assert s == "" && b == JNull;
      case JObj(_) => assert false;
      case JArr(_) => assert false;
    }
  }

  /** The bucket a document goes to in the index on `field` (a missing field reads as null). */
  function KeyOf(doc: Doc, field: string): Key
  {
    BucketKey(Field(doc, field))
  }

  /** An index on one field: bucket key -> documents, in collection order. */
  type Buckets = map<Key, seq<Doc>>

  /** The index the build loop produces for the collection `s`: each document
      appended, in order, to the bucket of its key. */
  function GroupBy(s: seq<Doc>, field: string): Buckets
  {
    if s == [] then map[]
    else
      var g := GroupBy(s[..|s| - 1], field);
      var doc := s[|s| - 1];
      var k := KeyOf(doc, field);
      g[k := (if k in g then g[k] else []) + [doc]]
  }

  /** One step of the build loop: adding the document at position `i` appends it
      to the bucket of its key, creating the bucket if it is new. */
  lemma GroupByAppend(s: seq<Doc>, i: nat, field: string)
    requires i < |s|
    ensures
      var g := GroupBy(s[..i], field);
      var k := KeyOf(s[i], field);
      GroupBy(s[..i + 1], field) == g[k := (if k in g then g[k] else []) + [s[i]]]
  {
    assert s[..i + 1][..i] == s[..i];
  }

  function KeyIs(field: string, k: Key): Doc -> bool
  {
    d => KeyOf(d, field) == k
  }

  /** The documents of `s` whose key for `field` is `k`, in collection order. */
  function Bucket(s: seq<Doc>, field: string, k: Key): seq<Doc>
  {
    FilterBy(s, KeyIs(field, k))
  }

  /** The index holds a bucket for exactly the keys some document has, and each
      bucket is the documents with that key, in collection order. */
  lemma {:induction false} GroupByBuckets(s: seq<Doc>, field: string)
    ensures forall k :: k in GroupBy(s, field) <==> Bucket(s, field, k) != []
    ensures forall k :: k in GroupBy(s, field) ==> GroupBy(s, field)[k] == Bucket(s, field, k)
  {
    if s != [] {
      var init := s[..|s| - 1];
      var doc := s[|s| - 1];
      GroupByBuckets(init, field);
      assert s == init + [doc];
      forall k
        ensures Bucket(s, field, k) == Bucket(init, field, k) + (if KeyOf(doc, field) == k then [doc] else [])
      {
        FilterAppend(init, [doc], KeyIs(field, k));
      }
    }
  }

  /** Every document of the collection is in the bucket of its own key. */
  lemma EveryDocIndexed(s: seq<Doc>, field: string)
    ensures forall i :: 0 <= i < |s| ==> KeyOf(s[i], field) in GroupBy(s, field)
    ensures forall i :: 0 <= i < |s| ==> s[i] in GroupBy(s, field)[KeyOf(s[i], field)]
  {
    GroupByBuckets(s, field);
    forall i | 0 <= i < |s|
      ensures s[i] in Bucket(s, field, KeyOf(s[i], field))
    {
      FilterMembership(s, KeyIs(field, KeyOf(s[i], field)));
    }
  }

  /** The sum of the bucket sizes of an index. */
  ghost function Total(g: Buckets): nat
    decreases |g|
  {
    if g == map[] then 0
    else
      var k :| k in g;
      |g[k]| + Total(g - {k})
  }

  /** The sum does not depend on the order the buckets are visited in. */
  lemma {:induction false} TotalWithout(g: Buckets, k: Key)
    requires k in g
    ensures Total(g) == |g[k]| + Total(g - {k})
    decreases |g|
  {
    var k' :| k' in g && Total(g) == |g[k']| + Total(g - {k'});
    if k' != k {
      TotalWithout(g - {k'}, k);
      TotalWithout(g - {k}, k');
      assert g - {k'} - {k} == g - {k} - {k'};
    }
  }

  /** Every document is in exactly one bucket: the bucket sizes sum to |s|. */
  lemma {:induction false} GroupBySizes(s: seq<Doc>, field: string)
    ensures Total(GroupBy(s, field)) == |s|
  {
    if s != [] {
      var init := s[..|s| - 1];
      var doc := s[|s| - 1];
      var g := GroupBy(init, field);
      var k := KeyOf(doc, field);
      var g' := GroupBy(s, field);
      GroupBySizes(init, field);
      TotalWithout(g', k);
      assert g' - {k} == g - {k};
      if k in g {
        TotalWithout(g, k);
      } else {
        assert g - {k} == g;
      }
    }
  }

  /** An index is not maintained: once a document is appended to the collection,
      the index built before describes one document fewer than it holds. */
  lemma IndexGoesStale(s: seq<Doc>, doc: Doc, field: string)
    ensures GroupBy(s + [doc], field) != GroupBy(s, field)
    ensures Total(GroupBy(s + [doc], field)) == Total(GroupBy(s, field)) + 1
  {
    GroupBySizes(s, field);
    GroupBySizes(s + [doc], field);
  }
}
