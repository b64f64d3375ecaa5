/** Shared vocabulary of the model: float64 results that may be NaN, optional
    and fallible values, and counting, summing and mapping over sequences. */
module Basics {

  /** A float64 as the model sees it: an exact real, or numpy's NaN. */
  datatype Float = NaN | Val(v: real)

  datatype Option<T> = None | Some(value: T)

  datatype Result<T, E> = Ok(value: T) | Err(error: E)

  function Abs(x: real): real { if x < 0.0 then -x else x }

  function Max(a: real, b: real): real { if a < b then b else a }

  /** Number of occurrences of x in xs, numpy's `(xs == x).sum()`. */
  function Count<T(==)>(xs: seq<T>, x: T): (n: nat)
    ensures n <= |xs|
  {
    if xs == [] then 0
    else Count(xs[..|xs| - 1], x) + (if xs[|xs| - 1] == x then 1 else 0)
  }

  /** Count agrees with the multiplicity of x in the multiset of xs. */
  lemma {:induction false} CountIsMultiplicity<T>(xs: seq<T>, x: T)
    ensures Count(xs, x) == multiset(xs)[x]
    decreases |xs|
  {
    if xs != [] {
      assert xs == xs[..|xs| - 1] + [xs[|xs| - 1]];
      CountIsMultiplicity(xs[..|xs| - 1], x);
    }
  }

  lemma CountPositiveMeansPresent<T>(xs: seq<T>, x: T)
    requires Count(xs, x) > 0
    ensures x in xs
  {
    CountIsMultiplicity(xs, x);
  }

  /** Occurrences in a sequence split at k add up. */
  lemma CountSplit<T>(xs: seq<T>, k: nat, x: T)
    requires k <= |xs|
    ensures Count(xs, x) == Count(xs[..k], x) + Count(xs[k..], x)
  {
    assert xs == xs[..k] + xs[k..];
    CountIsMultiplicity(xs, x);
    CountIsMultiplicity(xs[..k], x);
    CountIsMultiplicity(xs[k..], x);
  }

  predicate Distinct<T(==)>(s: seq<T>) {
    forall i, j :: 0 <= i < j < |s| ==> s[i] != s[j]
  }

  /** In a sequence free of repeats no element occurs twice. */
  lemma {:induction false} DistinctMultiplicity<T>(s: seq<T>, x: T)
    requires Distinct(s)
    ensures multiset(s)[x] <= 1
    decreases |s|
  {
    if s != [] {
      var n := |s| - 1;
      assert s == s[..n] + [s[n]];
      DistinctMultiplicity(s[..n], x);
      if s[n] == x {
        assert forall j :: 0 <= j < n ==> s[..n][j] != s[n];
        assert x !in s[..n];
      }
    }
  }

  /** A permutation of a sequence free of repeats is free of repeats. */
  lemma DistinctPermutation<T>(a: seq<T>, b: seq<T>)
    requires multiset(a) == multiset(b)
    requires Distinct(a)
    ensures Distinct(b)
  {
    forall i, j | 0 <= i < j < |b| ensures b[i] != b[j] {
      if b[i] == b[j] {
        assert b == b[..j] + [b[j]] + b[j + 1..];
        assert b[..j][i] == b[i];
        assert multiset(b)[b[i]] >= 2;
        DistinctMultiplicity(a, b[i]);
        assert false;
      }
    }
  }

  /** Two repeat-free sequences with no element in common concatenate to a repeat-free one. */
  lemma DistinctConcat<T>(s: seq<T>, u: seq<T>)
    requires Distinct(s) && Distinct(u)
    requires forall i, j :: 0 <= i < |s| && 0 <= j < |u| ==> s[i] != u[j]
    ensures Distinct(s + u)
  {
    var t := s + u;
    forall i, j | 0 <= i < j < |t| ensures t[i] != t[j] {
      if j < |s| {
        assert t[i] == s[i] && t[j] == s[j];
      } else if i >= |s| {
        assert t[i] == u[i - |s|] && t[j] == u[j - |s|];
      } else {
        assert t[i] == s[i] && t[j] == u[j - |s|];
      }
    }
  }

  function MapSeq<A, B>(s: seq<A>, f: A -> B): (r: seq<B>)
    ensures |r| == |s| && forall i :: 0 <= i < |s| ==> r[i] == f(s[i])
  {
    seq(|s|, i requires 0 <= i < |s| => f(s[i]))
  }

  lemma MapSeqConcat<A, B>(a: seq<A>, b: seq<A>, f: A -> B)
    ensures MapSeq(a + b, f) == MapSeq(a, f) + MapSeq(b, f)
  {
  }

  /** Applying the same function to two permutations of each other gives permutations of each other. */
  lemma {:induction false} MapPreservesMultiset<A, B>(a: seq<A>, b: seq<A>, f: A -> B)
    requires multiset(a) == multiset(b)
    ensures multiset(MapSeq(a, f)) == multiset(MapSeq(b, f))
    decreases |a|
  {
    if a == [] {
      assert |b| == |multiset(b)| == 0;
    } else {
      var n := |a| - 1;
      var x := a[n];
      assert a == a[..n] + [x];
      assert x in multiset(b);
      var j :| 0 <= j < |b| && b[j] == x;
      var front, back := b[..j], b[j + 1..];
      assert b == front + [x] + back;
      calc {
        multiset(front + back) + multiset{x};
        multiset(front) + multiset{x} + multiset(back);
        multiset(b);
        multiset(a);
        multiset(a[..n]) + multiset{x};
      }
      assert multiset(front + back) == (multiset(front + back) + multiset{x}) - multiset{x};
      assert multiset(a[..n]) == (multiset(a[..n]) + multiset{x}) - multiset{x};
      MapPreservesMultiset(a[..n], front + back, f);
      MapSeqConcat(a[..n], [x], f);
      MapSeqConcat(front, back, f);
      MapSeqConcat(front + [x], back, f);
      MapSeqConcat(front, [x], f);
    }
  }

  /** The elements of s that satisfy f, in their original order. */
  function Filter<T>(s: seq<T>, f: T -> bool): (r: seq<T>)
    ensures |r| <= |s|
    ensures forall i :: 0 <= i < |r| ==> r[i] in s && f(r[i])
    ensures forall i :: 0 <= i < |s| && f(s[i]) ==> s[i] in r
  {
    if s == [] then []
    else
      var n := |s| - 1;
      assert s == s[..n] + [s[n]];
      Filter(s[..n], f) + (if f(s[n]) then [s[n]] else [])
  }

  /** Filtering keeps every copy of an element that satisfies f and none of the others. */
  lemma {:induction false} FilterMultiplicity<T>(s: seq<T>, f: T -> bool, x: T)
    ensures multiset(Filter(s, f))[x] == if f(x) then multiset(s)[x] else 0
    decreases |s|
  {
    if s != [] {
      var n := |s| - 1;
      assert s == s[..n] + [s[n]];
      FilterMultiplicity(s[..n], f, x);
    }
  }

  /** Filtering distributes over concatenation; with the one-element case of
      the definition this fixes the order of the kept elements. */
  lemma {:induction false} FilterConcat<T>(a: seq<T>, b: seq<T>, f: T -> bool)
    ensures Filter(a + b, f) == Filter(a, f) + Filter(b, f)
    decreases |b|
  {
    if b != [] {
      var n := |b| - 1;
      var ab := a + b;
      var m := |ab| - 1;
      assert ab[..m] == a + b[..n] && ab[m] == b[n];
      var tail := if f(b[n]) then [b[n]] else [];
      assert Filter(ab, f) == Filter(a + b[..n], f) + tail;
      assert Filter(b, f) == Filter(b[..n], f) + tail;
      FilterConcat(a, b[..n], f);
      var fa, fb := Filter(a, f), Filter(b[..n], f);
      assert (fa + fb) + tail == fa + (fb + tail);
    } else {
      assert a + b == a;
    }
  }

  /** The first position of x in s. */
  function IndexOf<T(==)>(s: seq<T>, x: T): (i: nat)
    requires x in s
    ensures i < |s| && s[i] == x
    ensures forall m :: 0 <= m < i ==> s[m] != x
  {
    if s[0] == x then 0 else IndexOf(s[1..], x) + 1
  }

  /** Values that are all 0 or 1, as the docstrings of the metrics ask of
      labels and as thresholded predictions are. */
  predicate BinaryLabels(y: seq<int>) {
    forall i :: 0 <= i < |y| ==> y[i] == 0 || y[i] == 1
  }

  /** The occurrences in xs of each of ks, added up. */
  function SumCounts<T(==)>(xs: seq<T>, ks: seq<T>): nat {
    if ks == [] then 0 else SumCounts(xs, ks[..|ks| - 1]) + Count(xs, ks[|ks| - 1])
  }

  /** One more element x adds one for each time x is among ks. */
  lemma {:induction false} SumCountsStep<T>(xs: seq<T>, x: T, ks: seq<T>)
    ensures SumCounts(xs + [x], ks) == SumCounts(xs, ks) + Count(ks, x)
    decreases |ks|
  {
    if ks != [] {
      var m := |ks| - 1;
      assert (xs + [x])[..|xs|] == xs;
      SumCountsStep(xs, x, ks[..m]);
    }
  }

  /** Counting xs by a list of distinct keys that covers it counts every element once. */
  lemma {:induction false} SumCountsCoversAll<T>(xs: seq<T>, ks: seq<T>)
    requires Distinct(ks)
    requires forall i :: 0 <= i < |xs| ==> xs[i] in ks
    ensures SumCounts(xs, ks) == |xs|
    decreases |xs|
  {
    if xs == [] {
      SumCountsOfEmpty(ks);
    } else {
      var n := |xs| - 1;
      assert xs == xs[..n] + [xs[n]];
      SumCountsCoversAll(xs[..n], ks);
      SumCountsStep(xs[..n], xs[n], ks);
      CountIsMultiplicity(ks, xs[n]);
      DistinctMultiplicity(ks, xs[n]);
    }
  }

  lemma {:induction false} SumCountsOfEmpty<T>(ks: seq<T>)
    ensures SumCounts([], ks) == 0
    decreases |ks|
  {
    if ks != [] {
      SumCountsOfEmpty(ks[..|ks| - 1]);
    }
  }

  function SumNat(xs: seq<nat>): nat {
    if xs == [] then 0 else xs[0] + SumNat(xs[1..])
  }

  /** Every entry of a sequence of counts is at most their total. */
  lemma {:induction false} EntryAtMostSum(xs: seq<nat>, i: nat)
    requires i < |xs|
    ensures xs[i] <= SumNat(xs)
  {
    if i > 0 {
      EntryAtMostSum(xs[1..], i - 1);
    }
  }

  /** Adding one to a single entry adds one to the total. */
  lemma {:induction false} SumIncrement(xs: seq<nat>, i: nat)
    requires i < |xs|
    ensures SumNat(xs[i := xs[i] + 1]) == SumNat(xs) + 1
  {
    if i > 0 {
      assert xs[i := xs[i] + 1][1..] == xs[1..][i - 1 := xs[1..][i - 1] + 1];
      SumIncrement(xs[1..], i - 1);
    }
  }

  /** pandas' `Series.sum()`: the sum of the non-NaN entries (NaN entries are skipped). */
  function SumSkipNaN(xs: seq<Float>): (r: real)
    ensures (forall i :: 0 <= i < |xs| ==> xs[i].NaN?) ==> r == 0.0
  {
    if xs == [] then 0.0
    else (if xs[0].Val? then xs[0].v else 0.0) + SumSkipNaN(xs[1..])
  }

  /** a / t for a count a and a positive total t. */
  function Frac(a: nat, t: nat): real
    requires t > 0
  {
    a as real / t as real
  }

  /** A fraction of counts a <= t is in [0, 1]. */
  lemma FractionInUnit(a: nat, t: nat)
    requires 0 < t && a <= t
    ensures 0.0 <= Frac(a, t) <= 1.0
  {
    assert Frac(a, t) * t as real == a as real;
  }

  /** A whole count over itself is one. */
  lemma FracOfWhole(t: nat)
    requires t > 0
    ensures Frac(t, t) == 1.0
  {
    var r := t as real;
    assert r / r == 1.0;
  }

  /** One out of a positive total is positive. */
  lemma FracOfOne(t: nat)
    requires t > 0
    ensures Frac(1, t) > 0.0
  {
    var r := t as real;
    assert 1.0 / r > 0.0;
  }
}
