/** Small sequence helpers shared by the schema projection and the header model. */
module Seqs {
  import opened Wrappers

  /** Index of the first element of `s` satisfying `p`, in order; `None` when no
      element does. This is LINQ's `FirstOrDefault(predicate)` with the match
      reported by position; the header model uses it to find the first colon.
      The schema's two `FirstOrDefault` calls (Extensions.cs:137-138 and
      Extensions.cs:154) are `SchemaProjection.FirstLinkTo` and
      `SchemaProjection.FirstTagged`, each specialised to its predicate. */
  function FirstIndex<T>(s: seq<T>, p: T -> bool): (r: Option<nat>)
    ensures r.Some? ==> r.value < |s| && p(s[r.value])
    ensures r.Some? ==> forall j :: 0 <= j < r.value ==> !p(s[j])
    ensures r.None? <==> forall j :: 0 <= j < |s| ==> !p(s[j])
  {
    if |s| == 0 then None
    else if p(s[0]) then Some(0)
    else match FirstIndex(s[1..], p)
      case None => None
      case Some(k) => Some(k + 1)
  }

  /** `a` occurs in `b` as the contiguous segment starting at position `k`. */
  predicate OccursAt<T(==)>(a: seq<T>, b: seq<T>, k: int) {
    0 <= k <= |b| - |a| && b[k..k + |a|] == a
  }

  /** `a` occurs in `b` as a contiguous segment. */
  ghost predicate OccursIn<T>(a: seq<T>, b: seq<T>) {
    exists k :: OccursAt(a, b, k)
  }

  /** Flattening of a sequence of sequences, in order. */
  function Concat<T>(ss: seq<seq<T>>): (r: seq<T>)
  {
    if |ss| == 0 then [] else ss[0] + Concat(ss[1..])
  }

  lemma {:induction false} ConcatContains<T>(ss: seq<seq<T>>, i: nat)
    requires i < |ss|
    ensures OccursIn(ss[i], Concat(ss))
  {
    if i == 0 {
      assert OccursAt(ss[0], Concat(ss), 0);
    } else {
      ConcatContains(ss[1..], i - 1);
      var k :| OccursAt(ss[i], Concat(ss[1..]), k);
      var k' := |ss[0]| + k;
      assert Concat(ss)[k'..k' + |ss[i]|] == Concat(ss[1..])[k..k + |ss[i]|];
      assert OccursAt(ss[i], Concat(ss), k');
    }
  }

  /** A segment of `b` is still a segment after something is put in front. */
  lemma OccursInAfterPrefix<T>(a: seq<T>, p: seq<T>, b: seq<T>)
    requires OccursIn(a, b)
    ensures OccursIn(a, p + b)
  {
    var k :| OccursAt(a, b, k);
    assert (p + b)[|p| + k..|p| + k + |a|] == b[k..k + |a|];
    assert OccursAt(a, p + b, |p| + k);
  }

  /** Indexing within the first part of a concatenation indexes that part. */
  lemma PrefixAt<T>(a: seq<T>, b: seq<T>, i: nat)
    requires i < |a|
    ensures (a + b)[i] == a[i]
  {
  }

  /** Indexing past the first part of a concatenation indexes the second. */
  lemma AppendAt<T>(a: seq<T>, b: seq<T>, i: nat)
    requires i < |b|
    ensures |a| + i < |a + b| && (a + b)[|a| + i] == b[i]
  {
  }
}
