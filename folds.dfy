/**
 * The cross-validation split of the main script:
 *   TSTR = TS[:b(fold)] + TS[b(fold+1):]
 *   TSTE = TS[b(fold):b(fold+1)]
 * where `b(f)` is `int(nseqs * 0.2 * f)`. The float arithmetic is kept
 * abstract: `b` is any boundary function that is 0 at fold 0 and monotone,
 * which is what truncating a non-negative, monotonically rounded product gives.
 * Slices follow Python: an index past the end is clamped to the end, and a
 * slice whose start is past its stop is empty.
 */
module Folds {
  import opened Wrappers

  /** `s[:x]` for `x >= 0`. */
  function Take<T>(s: seq<T>, x: nat): (r: seq<T>)
    ensures |r| == Min(x, |s|)
    ensures forall k :: 0 <= k < |r| ==> r[k] == s[k]
  {
    s[..Min(x, |s|)]
  }

  /** `s[x:]` for `x >= 0`. */
  function Drop<T>(s: seq<T>, x: nat): (r: seq<T>)
    ensures |r| == |s| - Min(x, |s|)
    ensures forall k :: 0 <= k < |r| ==> r[k] == s[Min(x, |s|) + k]
  {
    s[Min(x, |s|)..]
  }

  /** `s[lo:hi]` for `lo, hi >= 0`. */
  function Slice<T>(s: seq<T>, lo: nat, hi: nat): (r: seq<T>)
    ensures |r| == if Min(lo, |s|) <= Min(hi, |s|) then Min(hi, |s|) - Min(lo, |s|) else 0
    ensures forall k :: 0 <= k < |r| ==> r[k] == s[Min(lo, |s|) + k]
  {
    var a, b := Min(lo, |s|), Min(hi, |s|);
    if a <= b then s[a..b] else []
  }

  /** What truncating `nseqs * 0.2 * fold` guarantees, whatever the rounding. */
  ghost predicate ValidBoundary(b: nat -> nat)
  {
    && b(0) == 0
    && forall f, g :: f <= g ==> b(f) <= b(g)
  }

  /** `TSTR`. */
  function TrainSet<T>(ts: seq<T>, b: nat -> nat, fold: nat): (r: seq<T>)
    ensures |r| == Min(b(fold), |ts|) + (|ts| - Min(b(fold + 1), |ts|))
    ensures forall k :: 0 <= k < Min(b(fold), |ts|) ==> r[k] == ts[k]
    ensures forall k :: Min(b(fold), |ts|) <= k < |r| ==> r[k] == ts[k - Min(b(fold), |ts|) + Min(b(fold + 1), |ts|)]
  {
    Take(ts, b(fold)) + Drop(ts, b(fold + 1))
  }

  /** `TSTE`. */
  function TestSet<T>(ts: seq<T>, b: nat -> nat, fold: nat): (r: seq<T>)
    ensures b(fold) <= b(fold + 1) ==> |r| == Min(b(fold + 1), |ts|) - Min(b(fold), |ts|)
    ensures Min(b(fold), |ts|) + |r| <= |ts|
    ensures forall k :: 0 <= k < |r| ==> r[k] == ts[Min(b(fold), |ts|) + k]
  {
    Slice(ts, b(fold), b(fold + 1))
  }

  /**
   * The split of one fold cuts `TS` in three: the test set is the middle
   * piece, the training set the pieces before and after it, all in their
   * original order, so every sequence lands in exactly one of the two.
   */
  lemma FoldPartition<T>(ts: seq<T>, b: nat -> nat, fold: nat)
    requires b(fold) <= b(fold + 1)
    ensures var lo, hi := Min(b(fold), |ts|), Min(b(fold + 1), |ts|);
      && TestSet(ts, b, fold) == ts[lo..hi]
      && TrainSet(ts, b, fold) == ts[..lo] + ts[hi..]
      && |TrainSet(ts, b, fold)| + |TestSet(ts, b, fold)| == |ts|
      && multiset(TrainSet(ts, b, fold) + TestSet(ts, b, fold)) == multiset(ts)
  {
    var lo, hi := Min(b(fold), |ts|), Min(b(fold + 1), |ts|);
    assert ts == ts[..lo] + ts[lo..hi] + ts[hi..];
    calc {
      multiset(ts);
      multiset(ts[..lo]) + multiset(ts[lo..hi]) + multiset(ts[hi..]);
      multiset(ts[..lo] + ts[hi..] + ts[lo..hi]);
    }
  }

  /**
   * Where the i-th sequence of `TS` goes in fold `fold`: into the test set at
   * position i - lo, or into the training set at position i or i - (hi - lo).
   */
  lemma FoldPlacement<T>(ts: seq<T>, b: nat -> nat, fold: nat, i: nat)
    requires b(fold) <= b(fold + 1)
    requires i < |ts|
    ensures var lo, hi := Min(b(fold), |ts|), Min(b(fold + 1), |ts|);
      && (lo <= i < hi ==> TestSet(ts, b, fold)[i - lo] == ts[i])
      && (i < lo ==> TrainSet(ts, b, fold)[i] == ts[i])
      && (hi <= i ==> TrainSet(ts, b, fold)[i - (hi - lo)] == ts[i])
  {
    FoldPartition(ts, b, fold);
  }

  /**
   * Without monotonicity the split would not be a partition: a boundary that
   * goes down lets the training set repeat sequences.
   */
  lemma DecreasingBoundaryDuplicates<T>(ts: seq<T>, b: nat -> nat, fold: nat)
    requires b(fold + 1) < b(fold) <= |ts|
    ensures |TrainSet(ts, b, fold)| + |TestSet(ts, b, fold)| > |ts|
  {
  }

  /** The test sets of folds f and f+1 are adjacent pieces of `TS`. */
  lemma ConsecutiveFoldsAdjacent<T>(ts: seq<T>, b: nat -> nat, fold: nat)
    requires ValidBoundary(b)
    ensures TestSet(ts, b, fold) + TestSet(ts, b, fold + 1) == Slice(ts, b(fold), b(fold + 2))
  {
    var lo, mid, hi := Min(b(fold), |ts|), Min(b(fold + 1), |ts|), Min(b(fold + 2), |ts|);
    assert b(fold) <= b(fold + 1) <= b(fold + 2);
    assert ts[lo..hi] == ts[lo..mid] + ts[mid..hi];
  }

  /** The test sets of folds `0..n-1`, laid end to end. */
  function TestSets<T>(ts: seq<T>, b: nat -> nat, n: nat): seq<T>
  {
    if n == 0 then [] else TestSets(ts, b, n - 1) + TestSet(ts, b, n - 1)
  }

  /** Folds `0..n-1` test, in order and once each, the sequences of `TS` before boundary `b(n)`. */
  lemma {:induction false} TestSetsCover<T>(ts: seq<T>, b: nat -> nat, n: nat)
    requires ValidBoundary(b)
    ensures TestSets(ts, b, n) == Take(ts, b(n))
  {
    if n > 0 {
      TestSetsCover(ts, b, n - 1);
      assert b(n - 1) <= b(n);
      var lo, hi := Min(b(n - 1), |ts|), Min(b(n), |ts|);
      assert ts[..hi] == ts[..lo] + ts[lo..hi];
    }
  }

  /** A sequence is tested in at most one fold. */
  lemma TestedOnce(b: nat -> nat, f: nat, g: nat, i: nat)
    requires ValidBoundary(b)
    requires b(f) <= i < b(f + 1)
    requires b(g) <= i < b(g + 1)
    ensures f == g
  {
    var f': nat, g': nat := f + 1, g + 1;
    assert f' <= g ==> b(f') <= b(g);
    assert g' <= f ==> b(g') <= b(f);
  }

  /** Five folds test every sequence exactly once, in order, whenever the fifth boundary reaches the end of `TS`. */
  lemma FiveFoldsCover<T>(ts: seq<T>, b: nat -> nat)
    requires ValidBoundary(b)
    requires b(5) >= |ts|
    ensures TestSets(ts, b, 5) == ts
  {
    TestSetsCover(ts, b, 5);
  }

  /** The boundary with exact arithmetic: `nseqs * f / 5`, rounded down. */
  function ExactBoundary(nseqs: nat): nat -> nat
  {
    f => nseqs * f / 5
  }

  lemma ExactBoundaryValid(nseqs: nat)
    ensures ValidBoundary(ExactBoundary(nseqs))
    ensures ExactBoundary(nseqs)(5) == nseqs
  {
    var b := ExactBoundary(nseqs);
    forall f: nat, g: nat | f <= g
      ensures b(f) <= b(g)
    {
      assert nseqs * f <= nseqs * g by {
        var d: nat := g - f;
        assert nseqs * g == nseqs * f + nseqs * d;
      }
    }
  }

  /** With exact arithmetic, the five folds test every sequence exactly once, in order. */
  lemma FiveFoldsCoverAll<T>(ts: seq<T>)
    ensures TestSets(ts, ExactBoundary(|ts|), 5) == ts
  {
    ExactBoundaryValid(|ts|);
    TestSetsCover(ts, ExactBoundary(|ts|), 5);
  }
}
