/**
 * Hamming distance between two perceptual-hash strings (main.js,
 * `hammingDistance`). Strings of unequal length are incomparable and yield
 * the sentinel -1; otherwise the result counts the differing positions.
 */
module Hamming {

  /** The sentinel returned for strings of different lengths. */
  const Incomparable: int := -1

  /** Number of positions below `n` at which `a` and `b` differ; this is the
      value of the source's `distance` accumulator after `n` iterations. */
  function DiffCount(a: string, b: string, n: nat): (d: nat)
    requires n <= |a| && n <= |b|
    ensures d <= n
  {
    if n == 0 then 0
    else DiffCount(a, b, n - 1) + (if a[n - 1] != b[n - 1] then 1 else 0)
  }

  function Distance(a: string, b: string): (d: int)
    ensures d == Incomparable <==> |a| != |b|
    ensures |a| == |b| ==> 0 <= d <= |a|
  {
    if |a| != |b| then Incomparable else DiffCount(a, b, |a|)
  }

  /** The positions below `n` at which `a` and `b` differ. */
  function DiffPositions(a: string, b: string, n: nat): set<nat>
    requires n <= |a| && n <= |b|
  {
    set i: nat | i < n && a[i] != b[i]
  }

  lemma {:induction false} DiffCountCounts(a: string, b: string, n: nat)
    requires n <= |a| && n <= |b|
    ensures DiffCount(a, b, n) == |DiffPositions(a, b, n)|
  {
    if n > 0 {
      DiffCountCounts(a, b, n - 1);
      var before := DiffPositions(a, b, n - 1);
      assert n - 1 !in before;
      if a[n - 1] != b[n - 1] {
        assert DiffPositions(a, b, n) == before + {n - 1};
      } else {
        assert DiffPositions(a, b, n) == before;
      }
    }
  }

  /** On strings of one length the distance is the number of positions at
      which they differ. */
  lemma DistanceCountsPositions(a: string, b: string)
    requires |a| == |b|
    ensures Distance(a, b) == |set i: nat | i < |a| && a[i] != b[i]|
  {
    DiffCountCounts(a, b, |a|);
  }

  lemma {:induction false} DiffCountSymmetric(a: string, b: string, n: nat)
    requires n <= |a| && n <= |b|
    ensures DiffCount(a, b, n) == DiffCount(b, a, n)
  {
    if n > 0 {
      DiffCountSymmetric(a, b, n - 1);
    }
  }

  /** Distance does not depend on the order of its arguments. */
  lemma DistanceSymmetric(a: string, b: string)
    ensures Distance(a, b) == Distance(b, a)
  {
    if |a| == |b| {
      DiffCountSymmetric(a, b, |a|);
    }
  }

  lemma {:induction false} DiffCountZeroIff(a: string, b: string, n: nat)
    requires n <= |a| && n <= |b|
    ensures DiffCount(a, b, n) == 0 <==> a[..n] == b[..n]
  {
    if n > 0 {
      DiffCountZeroIff(a, b, n - 1);
      assert a[..n] == a[..n - 1] + [a[n - 1]];
      assert b[..n] == b[..n - 1] + [b[n - 1]];
      if a[..n] == b[..n] {
        assert a[..n - 1] == a[..n][..n - 1] && b[..n - 1] == b[..n][..n - 1];
        assert a[n - 1] == a[..n][n - 1] && b[n - 1] == b[..n][n - 1];
      }
    }
  }

  /** Distance is zero exactly for identical strings. */
  lemma DistanceZeroIff(a: string, b: string)
    ensures Distance(a, b) == 0 <==> a == b
  {
    if |a| == |b| {
      DiffCountZeroIff(a, b, |a|);
      assert a[..|a|] == a && b[..|b|] == b;
    }
  }

  /** Every string is at distance 0 from itself. */
  lemma DistanceSelf(a: string)
    ensures Distance(a, a) == 0
  {
    DistanceZeroIff(a, a);
  }

  lemma {:induction false} DiffCountTriangle(a: string, b: string, c: string, n: nat)
    requires n <= |a| && n <= |b| && n <= |c|
    ensures DiffCount(a, c, n) <= DiffCount(a, b, n) + DiffCount(b, c, n)
  {
    if n > 0 {
      DiffCountTriangle(a, b, c, n - 1);
    }
  }

  /** Among strings of one length the distance is a metric: it obeys the
      triangle inequality. */
  lemma DistanceTriangle(a: string, b: string, c: string)
    requires |a| == |b| == |c|
    ensures Distance(a, c) <= Distance(a, b) + Distance(b, c)
  {
    DiffCountTriangle(a, b, c, |a|);
  }
}
