/** Order-preserving subsequences, the shape shared by the filters of the pipeline. */
module Subsequences {

  /** a is b with some elements dropped and the rest kept in order. */
  predicate IsSubsequence<T(==)>(a: seq<T>, b: seq<T>)
    decreases |b|
  {
    if a == [] then true
    else if b == [] then false
    else
      || (a[|a| - 1] == b[|b| - 1] && IsSubsequence(a[..|a| - 1], b[..|b| - 1]))
      || IsSubsequence(a, b[..|b| - 1])
  }

  /** Keeping the next element of b extends a subsequence. */
  lemma KeepLast<T>(a: seq<T>, b: seq<T>, x: T)
    requires IsSubsequence(a, b)
    ensures IsSubsequence(a + [x], b + [x])
  {
    assert (a + [x])[..|a|] == a;
    assert (b + [x])[..|b|] == b;
  }

  /** Dropping the next element of b keeps a subsequence. */
  lemma DropLast<T>(a: seq<T>, b: seq<T>, x: T)
    requires IsSubsequence(a, b)
    ensures IsSubsequence(a, b + [x])
  {
    assert (b + [x])[..|b|] == b;
  }

  /** A subsequence is no longer than what it is drawn from and holds only its elements. */
  lemma {:induction false} SubsequenceBounds<T>(a: seq<T>, b: seq<T>)
    requires IsSubsequence(a, b)
    ensures |a| <= |b|
    ensures forall x :: x in a ==> x in b
    decreases |b|
  {
    if a != [] {
      var b' := b[..|b| - 1];
      if a[|a| - 1] == b[|b| - 1] && IsSubsequence(a[..|a| - 1], b') {
        SubsequenceBounds(a[..|a| - 1], b');
        assert a == a[..|a| - 1] + [b[|b| - 1]];
        assert b == b' + [b[|b| - 1]];
      } else {
        SubsequenceBounds(a, b');
        assert b == b' + [b[|b| - 1]];
      }
    }
  }

  /** Positions strictly increasing and in range. */
  predicate IncreasingPositions(idx: seq<nat>, n: nat) {
    && (forall j :: 0 <= j < |idx| ==> idx[j] < n)
    && (forall j, k :: 0 <= j < k < |idx| ==> idx[j] < idx[k])
  }

  /** The elements of b at strictly increasing positions form a subsequence of b. */
  lemma {:induction false} PositionsSubsequence<T>(a: seq<T>, b: seq<T>, idx: seq<nat>)
    requires |a| == |idx| && IncreasingPositions(idx, |b|)
    requires forall j :: 0 <= j < |a| ==> a[j] == b[idx[j]]
    ensures IsSubsequence(a, b)
    decreases |b|
  {
    if a != [] {
      var n, m := |a| - 1, |b| - 1;
      var b' := b[..m];
      if idx[n] == m {
        var a', idx' := a[..n], idx[..n];
        assert IncreasingPositions(idx', m);
        PositionsSubsequence(a', b', idx');
      } else {
        assert IncreasingPositions(idx, m);
        PositionsSubsequence(a, b', idx);
      }
    }
  }
}
