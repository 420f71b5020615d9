/** Query evaluation over the collection: which documents `find` returns, which
    ones `remove` keeps, and the per-document match loop of `find`. */
module Queries {
  import opened Documents
  import opened Sequences

  /** The selection test of a query, as a value that the sequence operations take. */
  function Matching(q: Query): Doc -> bool
  {
    d => Matches(d, q)
  }

  /** The documents of `s` that match `q`, in collection order (what `find` returns). */
  function Filter(s: seq<Doc>, q: Query): seq<Doc>
  {
    FilterBy(s, Matching(q))
  }

  /** The documents of `s` that do not match `q`, in collection order (what `remove` keeps). */
  function Reject(s: seq<Doc>, q: Query): seq<Doc>
  {
    RejectBy(s, Matching(q))
  }

  /** The inner loop of `find`: check the query's fields one by one, reading a
      missing field as null, and stop at the first mismatch. */
  method MatchDoc(doc: Doc, q: Query) returns (matched: bool)
    ensures matched <==> Matches(doc, q)
  {
    matched := true;
    var pending := q.Keys;
    while pending != {}
      invariant pending <= q.Keys
      invariant forall key :: key in q && key !in pending ==> Field(doc, key) == q[key]
      decreases pending
    {
      var key :| key in pending;
      if Field(doc, key) != q[key] {
        matched := false;
        break;
      }
      pending := pending - {key};
    }
  }

  /** `find(q)` returns exactly the matching documents of the collection, as a
      subsequence of it (so in collection order). */
  lemma FilterExact(s: seq<Doc>, q: Query)
    ensures forall d :: d in Filter(s, q) <==> d in s && Matches(d, q)
    ensures forall k :: 0 <= k < |Filter(s, q)| ==> Matches(Filter(s, q)[k], q)
    ensures IsSubsequence(Filter(s, q), s)
  {
    FilterMembership(s, Matching(q));
    FilterPointwise(s, Matching(q));
    FilterIsSubsequence(s, Matching(q));
  }

  /** The empty query matches every document, so `find([])` is the whole collection. */
  lemma FilterEmptyQuery(s: seq<Doc>)
    ensures Filter(s, map[]) == s
    ensures Reject(s, map[]) == []
  {
    FilterAllMatch(s, Matching(map[]));
  }

  /** What `remove(q)` keeps: the non-matching documents, in order, and exactly
      |find(q)| fewer of them than the collection had. */
  lemma RejectExact(s: seq<Doc>, q: Query)
    ensures forall d :: d in Reject(s, q) <==> d in s && !Matches(d, q)
    ensures IsSubsequence(Reject(s, q), s)
    ensures |Reject(s, q)| == |s| - |Filter(s, q)|
    ensures multiset(Reject(s, q)) == multiset(s) - multiset(Filter(s, q))
  {
    FilterMembership(s, Matching(q));
    FilterIsSubsequence(s, Matching(q));
    FilterPartition(s, Matching(q));
  }

  /** Once no match is left in the unprocessed suffix `d[j..]`, what the removal
      loop holds is exactly the non-matching documents of `d`, |find(q)| fewer
      than `d` has. */
  lemma RemoveDone(d: seq<Doc>, q: Query, j: nat)
    requires j <= |d| && Filter(d[j..], q) == []
    ensures Reject(d[..j], q) + d[j..] == Reject(d, q)
    ensures |Reject(d, q)| == |d| - |Filter(d, q)|
  {
    NothingSelected(d[j..], Matching(q));
    FilterAppend(d[..j], d[j..], Matching(q));
    assert d[..j] + d[j..] == d;
    FilterPartition(d, Matching(q));
  }
}
