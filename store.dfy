/** The document store: one collection held in memory, the indexes built on it,
    and the snapshot of the collection last written to the backing file. */
module Store {
  import opened Documents
  import opened Sequences
  import opened Queries
  import opened Index

  class JsonGoDB {
    /** The collection, in insertion order. */
    var data: seq<Doc>
    /** Field name -> the index built on that field. */
    var indexes: map<string, Buckets>
    /** The collection as last written to the backing file. */
    ghost var disk: seq<Doc>

    /** Opening the store. `stored` is the collection the backing file holds, or
        None when there is no file yet; then a file holding the empty collection
        is written first, and that is what is loaded. */
    constructor (stored: Option<seq<Doc>>)
      ensures stored.None? ==> data == []
      ensures stored.Some? ==> data == stored.value
      ensures indexes == map[] && disk == data
    {
      var contents: seq<Doc>;
      if stored.None? {
        contents := [];
      } else {
        contents := stored.value;
      }
      disk := contents;
      data := contents;
      indexes := map[];
    }

    /** Writing the whole collection back to the file. */
    method UpdateFile()
      modifies this`disk
      ensures disk == data
    {
      disk := data;
    }

    /** Appending a document stamped with the fresh id `id`; the indexes are not
        touched, so an existing index goes stale. */
    method Insert(doc: Doc, id: string)
      modifies this`data, this`disk
      ensures data == old(data) + [Stamp(doc, id)]
      ensures |data| == |old(data)| + 1 && data[..|old(data)|] == old(data)
      ensures data[|data| - 1][IdField] == JStr(id)
      ensures indexes == old(indexes) && disk == data
    {
      var stamped := Stamp(doc, id);
      data := data + [stamped];
      UpdateFile();
    }

    /** Scanning the collection in order, keeping every matching document. */
    method Find(q: Query) returns (matches: seq<Doc>)
      ensures matches == Filter(data, q)
    {
      matches := [];
      for i := 0 to |data|
        invariant matches == Filter(data[..i], q)
      {
        var doc := data[i];
        var matched := MatchDoc(doc, q);
        FilterAppend(data[..i], [doc], Matching(q));
        assert data[..i + 1] == data[..i] + [doc];
        if matched {
          matches := matches + [doc];
        }
      }
      assert data[..|data|] == data;
    }

    /** `update` as the source writes it: the patch is written into a copy of each
        match (the loop variable of a by-value foreach over another copy), so the
        collection is left as it was; only the file is rewritten. */
    method Update(q: Query, patch: Query)
      modifies this`disk
      ensures data == old(data) && indexes == old(indexes) && disk == data
    {
      var matches := Find(q);
      for i := 0 to |matches| {
        var copy := matches[i];
        var pending := patch.Keys;
        while pending != {}
          decreases pending
        {
          var key :| key in pending;
          copy := copy[key := patch[key]];
          pending := pending - {key};
        }
      }
      UpdateFile();
    }

    /** `update` with the patch written into the collection itself: every matching
        document gets the patch's fields; the others are left alone. */
    method UpdateInPlace(q: Query, patch: Query)
      modifies this`data, this`disk
      ensures data == Patched(old(data), q, patch)
      ensures indexes == old(indexes) && disk == data
    {
      ghost var before := data;
      for i := 0 to |data|
        invariant |data| == |before|
        invariant data[..i] == Patched(before[..i], q, patch)
        invariant forall k :: i <= k < |data| ==> data[k] == before[k]
        invariant indexes == old(indexes)
      {
        var doc := data[i];
        var matched := MatchDoc(doc, q);
        PatchedAppend(before[..i], before[i], q, patch);
        assert before[..i + 1] == before[..i] + [before[i]];
        if matched {
          data := data[i := doc + patch];
        }
        assert data[..i + 1] == data[..i] + [data[i]];
      }
      assert before[..|before|] == before;
      UpdateFile();
    }

    /** Removing every matching document: for each match, `array_search` finds the
        first equal document left in the collection, and `array_splice` cuts it out
        (a failed search, PHP's false, would cut at offset 0). */
    method Remove(q: Query)
      modifies this`data, this`disk
      ensures data == Reject(old(data), q)
      ensures |data| == |old(data)| - |Filter(old(data), q)|
      ensures indexes == old(indexes) && disk == data
    {
      var matches := Find(q);
      ghost var d := data;
      ghost var keep := Matching(q);
      ghost var j: nat := 0;
      assert d[..0] == [] && d[0..] == d;
      var pending := matches;
      while pending != []
        invariant j <= |d|
        invariant data == RejectBy(d[..j], keep) + d[j..]
        invariant FilterBy(d[j..], keep) == pending
      {
        var doc := pending[0];
        ghost var next := RemoveRound(d, keep, j, data, doc);
        var found := ArraySearch(data, doc);
        var index := if found.Some? then found.value else 0;
        data := Splice(data, index);
        pending := pending[1..];
        j := next;
      }
      RemoveDone(d, q, j);
      UpdateFile();
    }

    /** The number of documents: the size of `find([])`. */
    function Count(): (n: nat)
      reads this
      ensures n == |Filter(data, map[])|
    {
      FilterEmptyQuery(data);
      |data|
    }

    /** The first matching document in collection order, or None when nothing matches. */
    function FindOne(q: Query): (r: Option<Doc>)
      reads this
      ensures r.None? <==> forall k :: 0 <= k < |data| ==> !Matches(data[k], q)
      ensures r.Some? ==> exists p :: 0 <= p < |data| && data[p] == r.value && Matches(data[p], q)
                                     && forall k :: 0 <= k < p ==> !Matches(data[k], q)
    {
      var matches := Filter(data, q);
      if |matches| > 0 then
        assert data[FirstMatch(data, Matching(q))] == matches[0] by {
          FirstMatchSplit(data, Matching(q));
        }
        Some(matches[0])
      else
        assert forall k :: 0 <= k < |data| ==> !Matches(data[k], q) by {
          FilterExact(data, q);
        }
        None
    }

    /** Building the index on `field` from the current collection, unless one
        exists already (then nothing changes, however stale it is). */
    method EnsureIndex(field: string)
      modifies this`indexes
      ensures field in old(indexes) ==> indexes == old(indexes)
      ensures field !in old(indexes) ==> indexes == old(indexes)[field := GroupBy(data, field)]
      ensures data == old(data) && disk == old(disk)
    {
      if field !in indexes {
        var buckets := BuildIndex(field);
        indexes := indexes[field := buckets];
      }
    }

    /** The loop of `ensureIndex`: each document, in order, appended to the bucket
        of its value of `field`, the bucket created when the value is new. */
    method BuildIndex(field: string) returns (buckets: Buckets)
      ensures buckets == GroupBy(data, field)
    {
      buckets := map[];
      for i := 0 to |data|
        invariant buckets == GroupBy(data[..i], field)
      {
        var doc := data[i];
        var value := KeyOf(doc, field);
        GroupByAppend(data, i, field);
        if value !in buckets {
          buckets := buckets[value := []];
        }
        buckets := buckets[value := buckets[value] + [doc]];
      }
      assert data[..|data|] == data;
    }
  }

  /** The collection after the intended update: each matching document with the
      patch's fields written over it. */
  function Patched(s: seq<Doc>, q: Query, patch: Query): seq<Doc>
  {
    if s == [] then []
    else [if Matches(s[0], q) then s[0] + patch else s[0]] + Patched(s[1..], q, patch)
  }

  lemma {:induction false} PatchedAppend(s: seq<Doc>, doc: Doc, q: Query, patch: Query)
    ensures Patched(s + [doc], q, patch) == Patched(s, q, patch) + [if Matches(doc, q) then doc + patch else doc]
  {
    if s != [] {
      assert (s + [doc])[1..] == s[1..] + [doc];
      PatchedAppend(s[1..], doc, q, patch);
    }
  }

  /** The intended update keeps the collection's size and order; every document
      that matched now has exactly its own fields plus the patch's, holds the
      patch values (so it matches the patch as a query) and keeps its other
      fields; every other document is unchanged. */
  lemma {:induction false} PatchedEffect(s: seq<Doc>, q: Query, patch: Query)
    ensures |Patched(s, q, patch)| == |s|
    ensures forall k :: 0 <= k < |s| && !Matches(s[k], q) ==> Patched(s, q, patch)[k] == s[k]
    ensures forall k :: 0 <= k < |s| && Matches(s[k], q) ==> Matches(Patched(s, q, patch)[k], patch)
    ensures forall k :: 0 <= k < |s| && Matches(s[k], q) ==> Patched(s, q, patch)[k].Keys == s[k].Keys + patch.Keys
    ensures forall k, f :: 0 <= k < |s| && Matches(s[k], q) && f in patch ==> Patched(s, q, patch)[k][f] == patch[f]
    ensures forall k, f :: 0 <= k < |s| && f in s[k] && f !in patch ==> f in Patched(s, q, patch)[k] && Patched(s, q, patch)[k][f] == s[k][f]
  {
    if s != [] {
      PatchedEffect(s[1..], q, patch);
      var r := Patched(s, q, patch);
      assert forall k :: 1 <= k < |s| ==> r[k] == Patched(s[1..], q, patch)[k - 1];
    }
  }

  /** Two documents aged 5 and 6; an update of age 5 to age 10. As written the
      collection is unchanged, so no document has age 10 afterwards; the intended
      update leaves exactly one. */
  lemma UpdateLostExample()
    ensures
      var before := [map["age" := JNum(5)], map["age" := JNum(6)]];
      var q := map["age" := JNum(5)];
      var patch := map["age" := JNum(10)];
      && Filter(before, patch) == []
      && Filter(Patched(before, q, patch), patch) == [map["age" := JNum(10)]]
  {
    var a := map["age" := JNum(5)];
    var b := map["age" := JNum(6)];
    var q := map["age" := JNum(5)];
    var patch := map["age" := JNum(10)];
    assert Field(a, "age") == JNum(5) && Field(b, "age") == JNum(6) && Field(patch, "age") == JNum(10);
    assert Matches(a, q) && !Matches(b, q);
    assert !Matches(a, patch) && !Matches(b, patch) && Matches(patch, patch);
    assert a + patch == patch;
    assert [a, b][1..] == [b] && [b][1..] == [];
    assert Patched([b], q, patch) == [b];
    assert Patched([a, b], q, patch) == [patch, b];
    assert FilterBy([b], Matching(patch)) == [];
    assert FilterBy([a, b], Matching(patch)) == [];
    assert [patch, b][1..] == [b];
    assert FilterBy([patch, b], Matching(patch)) == [patch];
  }
}
