/** Order-preserving selection over sequences, and models of the two PHP array
    builtins the removal loop uses (`array_search`, `array_splice`). Everything
    here is generic in the element type and in the selection test `keep`; the
    store instantiates `keep` with "matches the query". */
module Sequences {

  datatype Option<T> = None | Some(value: T)

  /** The elements of `s` that pass `keep`, in order. */
  function FilterBy<T>(s: seq<T>, keep: T -> bool): seq<T>
  {
    if s == [] then []
    else if keep(s[0]) then [s[0]] + FilterBy(s[1..], keep)
    else FilterBy(s[1..], keep)
  }

  /** The elements of `s` that fail `keep`, in order. */
  function RejectBy<T>(s: seq<T>, keep: T -> bool): seq<T>
  {
    if s == [] then []
    else if keep(s[0]) then RejectBy(s[1..], keep)
    else [s[0]] + RejectBy(s[1..], keep)
  }

  /** `a` is obtained from `b` by deleting elements, keeping the order of the rest. */
  predicate IsSubsequence<T(==)>(a: seq<T>, b: seq<T>)
  {
    if a == [] then true
    else if b == [] then false
    else (a[0] == b[0] && IsSubsequence(a[1..], b[1..])) || IsSubsequence(a, b[1..])
  }

  lemma {:induction false} FilterAppend<T>(a: seq<T>, b: seq<T>, keep: T -> bool)
    ensures FilterBy(a + b, keep) == FilterBy(a, keep) + FilterBy(b, keep)
    ensures RejectBy(a + b, keep) == RejectBy(a, keep) + RejectBy(b, keep)
  {
    if a == [] {
      assert a + b == b;
    } else {
      assert (a + b)[1..] == a[1..] + b;
      FilterAppend(a[1..], b, keep);
    }
  }

  /** An element is selected exactly when it occurs in `s` and passes `keep`. */
  lemma {:induction false} FilterMembership<T>(s: seq<T>, keep: T -> bool)
    ensures forall x :: x in FilterBy(s, keep) <==> x in s && keep(x)
    ensures forall x :: x in RejectBy(s, keep) <==> x in s && !keep(x)
  {
    if s != [] {
      FilterMembership(s[1..], keep);
      assert s == [s[0]] + s[1..];
    }
  }

  /** Every selected element passes `keep`. */
  lemma {:induction false} FilterPointwise<T>(s: seq<T>, keep: T -> bool)
    ensures forall k :: 0 <= k < |FilterBy(s, keep)| ==> keep(FilterBy(s, keep)[k])
  {
    if s != [] {
      FilterPointwise(s[1..], keep);
    }
  }

  /** Every rejected element fails `keep`. */
  lemma {:induction false} RejectedFail<T>(s: seq<T>, keep: T -> bool)
    ensures forall k :: 0 <= k < |RejectBy(s, keep)| ==> !keep(RejectBy(s, keep)[k])
  {
    if s != [] {
      RejectedFail(s[1..], keep);
    }
  }

  lemma SubsequenceSkip<T>(a: seq<T>, b: seq<T>)
    requires b != [] && IsSubsequence(a, b[1..])
    ensures IsSubsequence(a, b)
  {
  }

  /** Both parts keep the order of `s`: each is a subsequence of it. */
  lemma {:induction false} FilterIsSubsequence<T>(s: seq<T>, keep: T -> bool)
    ensures IsSubsequence(FilterBy(s, keep), s)
    ensures IsSubsequence(RejectBy(s, keep), s)
  {
    if s != [] {
      FilterIsSubsequence(s[1..], keep);
      if keep(s[0]) {
        assert FilterBy(s, keep)[1..] == FilterBy(s[1..], keep);
        SubsequenceSkip(RejectBy(s, keep), s);
      } else {
        assert RejectBy(s, keep)[1..] == RejectBy(s[1..], keep);
        SubsequenceSkip(FilterBy(s, keep), s);
      }
    }
  }

  /** Every element lands in exactly one of the two parts. */
  lemma {:induction false} FilterPartition<T>(s: seq<T>, keep: T -> bool)
    ensures |FilterBy(s, keep)| + |RejectBy(s, keep)| == |s|
    ensures multiset(FilterBy(s, keep)) + multiset(RejectBy(s, keep)) == multiset(s)
  {
    if s != [] {
      FilterPartition(s[1..], keep);
      assert s == [s[0]] + s[1..];
    }
  }

  /** A part in which nothing passes `keep` is rejected whole. */
  lemma {:induction false} RejectNoMatch<T>(s: seq<T>, keep: T -> bool)
    requires forall k :: 0 <= k < |s| ==> !keep(s[k])
    ensures RejectBy(s, keep) == s
    ensures FilterBy(s, keep) == []
  {
    if s != [] {
      RejectNoMatch(s[1..], keep);
    }
  }

  /** When nothing is selected, everything is rejected, in order. */
  lemma {:induction false} NothingSelected<T>(s: seq<T>, keep: T -> bool)
    requires FilterBy(s, keep) == []
    ensures RejectBy(s, keep) == s
  {
    if s != [] {
      NothingSelected(s[1..], keep);
    }
  }

  /** A part in which everything passes `keep` is selected whole. */
  lemma {:induction false} FilterAllMatch<T>(s: seq<T>, keep: T -> bool)
    requires forall k :: 0 <= k < |s| ==> keep(s[k])
    ensures FilterBy(s, keep) == s
    ensures RejectBy(s, keep) == []
  {
    if s != [] {
      FilterAllMatch(s[1..], keep);
    }
  }

  /** The position of the first element that passes `keep`. */
  function FirstMatch<T>(s: seq<T>, keep: T -> bool): (p: nat)
    requires FilterBy(s, keep) != []
    ensures p < |s| && keep(s[p])
    ensures forall k :: 0 <= k < p ==> !keep(s[k])
  {
    if keep(s[0]) then 0 else FirstMatch(s[1..], keep) + 1
  }

  /** The first selected element sits at FirstMatch, and what is selected after it
      is what is selected from the rest of the sequence. */
  lemma FirstMatchSplit<T>(s: seq<T>, keep: T -> bool)
    requires FilterBy(s, keep) != []
    ensures FilterBy(s, keep)[0] == s[FirstMatch(s, keep)]
    ensures FilterBy(s[FirstMatch(s, keep) + 1..], keep) == FilterBy(s, keep)[1..]
  {
    var p := FirstMatch(s, keep);
    assert s == (s[..p] + [s[p]]) + s[p + 1..];
    FilterAppend(s[..p] + [s[p]], s[p + 1..], keep);
    FilterAppend(s[..p], [s[p]], keep);
    RejectNoMatch(s[..p], keep);
    assert FilterBy(s, keep) == [s[p]] + FilterBy(s[p + 1..], keep);
  }

  /** `array_search($needle, $haystack)`: the first position holding a value equal
      to the needle, or nothing (PHP's `false`). */
  function ArraySearch<T(==)>(haystack: seq<T>, needle: T): (r: Option<nat>)
    ensures r.None? <==> needle !in haystack
    ensures r.Some? ==> r.value < |haystack| && haystack[r.value] == needle
    ensures r.Some? ==> forall k :: 0 <= k < r.value ==> haystack[k] != needle
  {
    if haystack == [] then None
    else if haystack[0] == needle then Some(0)
    else match ArraySearch(haystack[1..], needle)
      case None => None
      case Some(p) => Some(p + 1)
  }

  /** `array_splice($s, $offset, 1)`: remove the element at `offset`, or nothing
      when `offset` is past the end. */
  function Splice<T>(s: seq<T>, offset: nat): (r: seq<T>)
    ensures offset < |s| ==> |r| == |s| - 1 && r[..offset] == s[..offset] && r[offset..] == s[offset + 1..]
    ensures offset >= |s| ==> r == s
  {
    if offset < |s| then s[..offset] + s[offset + 1..] else s
  }

  /** In a sequence made of rejected elements followed by a part that has a selected
      one, `array_search` for that part's first selected element succeeds, and at
      the position of that element. */
  lemma SearchFindsFirstMatch<T>(current: seq<T>, prefix: seq<T>, t: seq<T>, keep: T -> bool, needle: T)
    requires current == prefix + t
    requires forall k :: 0 <= k < |prefix| ==> !keep(prefix[k])
    requires FilterBy(t, keep) != [] && needle == FilterBy(t, keep)[0]
    ensures ArraySearch(current, needle) == Some(|prefix| + FirstMatch(t, keep))
  {
    var at := |prefix| + FirstMatch(t, keep);
    FirstMatchSplit(t, keep);
    assert current[at] == needle;
    forall k | 0 <= k < at
      ensures !keep(current[k])
    {
      if k < |prefix| {
        assert current[k] == prefix[k];
      } else {
        assert current[k] == t[k - |prefix|];
      }
    }
    var r := ArraySearch(current, needle);
    assert r.Some? && r.value == at;
  }

  /** Going past a run of rejected elements and the selected one that ends it
      extends what `RejectBy` keeps by exactly that run. */
  lemma RejectThroughMatch<T>(d: seq<T>, keep: T -> bool, j: nat, p: nat)
    requires j + p < |d|
    requires forall k :: j <= k < j + p ==> !keep(d[k])
    requires keep(d[j + p])
    ensures RejectBy(d[..j + p + 1], keep) == RejectBy(d[..j], keep) + d[j..j + p]
  {
    assert d[..j + p + 1] == (d[..j] + d[j..j + p]) + [d[j + p]];
    FilterAppend(d[..j] + d[j..j + p], [d[j + p]], keep);
    FilterAppend(d[..j], d[j..j + p], keep);
    RejectNoMatch(d[j..j + p], keep);
    assert RejectBy([d[j + p]], keep) == [];
    assert RejectBy(d[..j], keep) + d[j..j + p] + [] == RejectBy(d[..j], keep) + d[j..j + p];
  }

  /** Splicing one element out of a concatenation, at a position inside its second part. */
  lemma SpliceInSecond<T>(c: seq<T>, a: seq<T>, b: seq<T>, p: nat)
    requires c == a + b && p < |b|
    ensures Splice(c, |a| + p) == a + b[..p] + b[p + 1..]
  {
    assert c[..|a| + p] == a + b[..p];
    assert c[|a| + p + 1..] == b[p + 1..];
  }

  /** The search in one round of the removal loop. The sequence `d` has been
      processed up to position `j`: the loop holds `current`, the rejected
      elements of `d[..j]` followed by `d[j..]`, and the element it removes next,
      `needle`, is the first selected element of `d[j..]`. `array_search` for it
      succeeds (it never returns false), at the position just after the rejected
      prefix and the run of rejected elements before it. */
  lemma SearchRound<T>(d: seq<T>, keep: T -> bool, j: nat, current: seq<T>, needle: T)
    requires j <= |d| && FilterBy(d[j..], keep) != []
    requires current == RejectBy(d[..j], keep) + d[j..]
    requires needle == FilterBy(d[j..], keep)[0]
    ensures ArraySearch(current, needle) == Some(|RejectBy(d[..j], keep)| + FirstMatch(d[j..], keep))
  {
    RejectedFail(d[..j], keep);
    SearchFindsFirstMatch(current, RejectBy(d[..j], keep), d[j..], keep, needle);
  }

  /** The splice in one round of the removal loop (see SearchRound): cutting out
      the element found moves the processed prefix to `next`, just past it, and
      the selected elements still ahead are the ones after it. */
  lemma SpliceRound<T>(d: seq<T>, keep: T -> bool, j: nat, current: seq<T>) returns (next: nat)
    requires j <= |d| && FilterBy(d[j..], keep) != []
    requires current == RejectBy(d[..j], keep) + d[j..]
    ensures j < next <= |d|
    ensures Splice(current, |RejectBy(d[..j], keep)| + FirstMatch(d[j..], keep)) == RejectBy(d[..next], keep) + d[next..]
    ensures FilterBy(d[next..], keep) == FilterBy(d[j..], keep)[1..]
  {
    var prefix := RejectBy(d[..j], keep);
    var t := d[j..];
    var p := FirstMatch(t, keep);
    FirstMatchSplit(t, keep);
    next := j + p + 1;
    assert t[p + 1..] == d[next..] && t[..p] == d[j..j + p];
    SpliceInSecond(current, prefix, t, p);
    RejectThroughMatch(d, keep, j, p);
  }

  /** One round of the removal loop: the search of SearchRound, then the splice
      of SpliceRound at the offset it returns. */
  lemma RemoveRound<T>(d: seq<T>, keep: T -> bool, j: nat, current: seq<T>, needle: T) returns (next: nat)
    requires j <= |d| && FilterBy(d[j..], keep) != []
    requires current == RejectBy(d[..j], keep) + d[j..]
    requires needle == FilterBy(d[j..], keep)[0]
    ensures ArraySearch(current, needle).Some?
    ensures j < next <= |d|
    ensures Splice(current, ArraySearch(current, needle).value) == RejectBy(d[..next], keep) + d[next..]
    ensures FilterBy(d[next..], keep) == FilterBy(d[j..], keep)[1..]
  {
    SearchRound(d, keep, j, current, needle);
    next := SpliceRound(d, keep, j, current);
  }
}
