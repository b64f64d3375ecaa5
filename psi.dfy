/** The Population Stability Index of `psi_for_feature` and
    `psi_for_dataframe` (src/utils.py).

    Bin edges are the deduplicated quantiles of the training sample; each
    sample is cut into the bins (e_i, e_{i+1}], the first one closed at e_0,
    values outside [e_0, e_last] fall in no bin, the per-bin shares are taken
    over the in-range values only, the test shares are aligned to the training
    bins with 0 for an empty share, both are clipped to [1e-6, 1], and the
    index is the sum of (a - b) * ln(a / b) over the bins.

    The natural logarithm and numpy's quantile are parameters: the model
    fixes the structure around them, not their floating-point values. */
module Psi {
  import opened Basics
  import Sorting

  /* ---------- missing values and edges ---------- */

  /** `series.dropna()`: the present values, in order. */
  function DropNaN(xs: seq<Float>): (r: seq<real>)
    ensures |r| <= |xs|
    ensures forall i :: 0 <= i < |r| ==> Val(r[i]) in xs
    ensures forall i :: 0 <= i < |xs| && xs[i].Val? ==> xs[i].v in r
  {
    if xs == [] then []
    else
      var n := |xs| - 1;
      assert xs == xs[..n] + [xs[n]];
      DropNaN(xs[..n]) + (if xs[n].Val? then [xs[n].v] else [])
  }

  /** Every present value is kept as many times as it occurs. */
  lemma {:induction false} DropNaNMultiplicity(xs: seq<Float>, v: real)
    ensures multiset(DropNaN(xs))[v] == multiset(xs)[Val(v)]
    decreases |xs|
  {
    if xs != [] {
      var n := |xs| - 1;
      assert xs == xs[..n] + [xs[n]];
      DropNaNMultiplicity(xs[..n], v);
    }
  }

  /** Dropping missing values distributes over concatenation, so the present
      values keep their order. */
  lemma {:induction false} DropNaNConcat(a: seq<Float>, b: seq<Float>)
    ensures DropNaN(a + b) == DropNaN(a) + DropNaN(b)
    decreases |b|
  {
    if b == [] {
      assert a + b == a;
    } else {
      var n := |b| - 1;
      var ab := a + b;
      assert ab[..|ab| - 1] == a + b[..n] && ab[|ab| - 1] == b[n];
      var tail := if b[n].Val? then [b[n].v] else [];
      assert DropNaN(ab) == DropNaN(a + b[..n]) + tail;
      assert DropNaN(b) == DropNaN(b[..n]) + tail;
      DropNaNConcat(a, b[..n]);
      var da, db := DropNaN(a), DropNaN(b[..n]);
      assert (da + db) + tail == da + (db + tail);
    }
  }

  predicate NonDecreasing(s: seq<real>) {
    forall i, j :: 0 <= i < j < |s| ==> s[i] <= s[j]
  }

  predicate StrictlyAscending(s: seq<real>) {
    forall i, j :: 0 <= i < j < |s| ==> s[i] < s[j]
  }

  /** `np.linspace(0, 1, n + 1)`; a single level 0 when n is 0. */
  function Levels(n: nat): (r: seq<real>)
    ensures |r| == n + 1 && r[0] == 0.0
    ensures n > 0 ==> r[n] == 1.0
    ensures NonDecreasing(r)
  {
    if n == 0 then [0.0]
    else
      var r := seq(n + 1, j requires 0 <= j <= n => j as real / n as real);
      assert NonDecreasing(r) by {
        forall i, j | 0 <= i < j < |r| ensures r[i] <= r[j] {
          DivideMonotone(i, j, n);
        }
      }
      FracOfWhole(n);
      assert r[n] == Frac(n, n);
      r
  }

  lemma DivideMonotone(i: nat, j: nat, n: nat)
    requires i <= j && n > 0
    ensures i as real / n as real <= j as real / n as real
  {
    var a, b, m := i as real / n as real, j as real / n as real, n as real;
    assert a * m == i as real && b * m == j as real;
    assert (b - a) * m == (j - i) as real;
  }

  /** `np.unique` of a non-decreasing sequence: each value once, ascending. */
  function Unique(s: seq<real>): (r: seq<real>)
    requires NonDecreasing(s)
    ensures StrictlyAscending(r)
    ensures forall x :: x in r <==> x in s
    ensures s != [] ==> r != [] && r[|r| - 1] == s[|s| - 1]
  {
    if |s| <= 1 then s
    else
      var n := |s| - 1;
      assert NonDecreasing(s[..n]);
      var u := Unique(s[..n]);
      assert s == s[..n] + [s[n]];
      if u[|u| - 1] == s[n] then u
      else
        assert forall i :: 0 <= i < |u| ==> u[i] < s[n] by {
          forall i | 0 <= i < |u| ensures u[i] < s[n] {
            assert u[i] in s[..n];
          }
        }
        u + [s[n]]
  }

  /** np.quantile is monotone in the level. */
  ghost predicate QuantileMonotone(quantile: (seq<real>, real) -> real) {
    forall xs, a, b :: a <= b ==> quantile(xs, a) <= quantile(xs, b)
  }

  /** `np.unique(np.quantile(train, np.linspace(0, 1, n_bins + 1)))`. */
  function Edges(quantile: (seq<real>, real) -> real, xs: seq<real>, nBins: nat): (e: seq<real>)
    requires QuantileMonotone(quantile)
    ensures StrictlyAscending(e) && 1 <= |e| <= nBins + 1
    ensures e[0] == quantile(xs, 0.0) && e[|e| - 1] == quantile(xs, Levels(nBins)[nBins])
    ensures forall x :: x in e <==> exists j :: 0 <= j <= nBins && x == quantile(xs, Levels(nBins)[j])
  {
    var levels := Levels(nBins);
    var q := MapSeq(levels, l => quantile(xs, l));
    assert NonDecreasing(q);
    var e := Unique(q);
    UniqueFirst(q);
    UniqueLength(q);
    QuantileMembers(q, levels, xs, quantile);
    e
  }

  /** The values of the level quantiles are exactly the quantiles at some level. */
  lemma QuantileMembers(q: seq<real>, levels: seq<real>, xs: seq<real>, quantile: (seq<real>, real) -> real)
    requires |q| == |levels| && forall i :: 0 <= i < |q| ==> q[i] == quantile(xs, levels[i])
    ensures forall x :: x in q <==> exists j :: 0 <= j < |levels| && x == quantile(xs, levels[j])
  {
    forall x | exists j :: 0 <= j < |levels| && x == quantile(xs, levels[j]) ensures x in q {
      var j :| 0 <= j < |levels| && x == quantile(xs, levels[j]);
      assert q[j] == x;
    }
  }

  lemma {:induction false} UniqueFirst(s: seq<real>)
    requires NonDecreasing(s) && s != []
    ensures Unique(s)[0] == s[0]
    decreases |s|
  {
    if |s| > 1 {
      var n := |s| - 1;
      assert NonDecreasing(s[..n]);
      UniqueFirst(s[..n]);
    }
  }

  lemma {:induction false} UniqueLength(s: seq<real>)
    requires NonDecreasing(s)
    ensures |Unique(s)| <= |s|
    decreases |s|
  {
    if |s| > 1 {
      var n := |s| - 1;
      assert NonDecreasing(s[..n]);
      UniqueLength(s[..n]);
    }
  }

  /* ---------- pd.cut ---------- */

  /** numpy's `searchsorted(e, v, side='left')`: the first edge not below v. */
  function FirstAtLeast(e: seq<real>, v: real): (i: nat)
    ensures i <= |e|
    ensures forall j :: 0 <= j < i ==> e[j] < v
    ensures i < |e| ==> e[i] >= v
  {
    if e == [] then 0
    else if e[0] >= v then 0
    else 1 + FirstAtLeast(e[1..], v)
  }

  function NumBins(e: seq<real>): nat {
    if |e| < 2 then 0 else |e| - 1
  }

  /** `pd.cut(v, bins=e, include_lowest=True)`: the index of v's bin, or None
      when v lies outside every bin. */
  function BinOf(e: seq<real>, v: real): (b: Option<nat>)
    ensures b.Some? ==> b.value < NumBins(e)
  {
    if |e| < 2 then None
    else if v == e[0] then Some(0)
    else
      var i := FirstAtLeast(e, v);
      if i == 0 || i == |e| then None else Some(i - 1)
  }

  /** Bin j holds exactly the values in (e_j, e_{j+1}], and bin 0 also holds e_0. */
  lemma BinOfIsInterval(e: seq<real>, v: real, j: nat)
    requires StrictlyAscending(e) && j < NumBins(e)
    ensures BinOf(e, v) == Some(j) <==> (e[j] < v <= e[j + 1] || (j == 0 && v == e[0]))
  {
    var i := FirstAtLeast(e, v);
    if e[j] < v <= e[j + 1] {
      assert v != e[0] by {
        if j > 0 { assert e[0] < e[j]; }
      }
      assert i == j + 1;
    }
  }

  /** A value falls in no bin exactly when it lies below e_0 or above e_last. */
  lemma BinOfOutOfRange(e: seq<real>, v: real)
    requires StrictlyAscending(e) && |e| >= 2
    ensures BinOf(e, v).None? <==> v < e[0] || v > e[|e| - 1]
  {
    var i := FirstAtLeast(e, v);
    if e[0] < v <= e[|e| - 1] {
      assert 0 < i < |e|;
    }
  }

  function Bins(e: seq<real>, xs: seq<real>): seq<Option<nat>> {
    MapSeq(xs, v => BinOf(e, v))
  }

  /** `value_counts()` of the cut sample: the number of values in each bin. */
  function Tally(e: seq<real>, xs: seq<real>): (c: seq<nat>)
    ensures |c| == NumBins(e)
  {
    if xs == [] then seq(NumBins(e), _ => 0)
    else
      var n := |xs| - 1;
      var c := Tally(e, xs[..n]);
      match BinOf(e, xs[n])
      case None => c
      case Some(j) => c[j := c[j] + 1]
  }

  /** Entry j of the tally counts the values whose bin is j. */
  lemma {:induction false} TallyCountsBins(e: seq<real>, xs: seq<real>, j: nat)
    requires j < NumBins(e)
    ensures Tally(e, xs)[j] == Count(Bins(e, xs), Some(j))
    decreases |xs|
  {
    if xs != [] {
      var n := |xs| - 1;
      assert Bins(e, xs)[..n] == Bins(e, xs[..n]);
      TallyCountsBins(e, xs[..n], j);
    }
  }

  /** Every value is either tallied in one bin or falls outside all of them. */
  lemma {:induction false} TallyTotal(e: seq<real>, xs: seq<real>)
    ensures SumNat(Tally(e, xs)) + Count(Bins(e, xs), None) == |xs|
    decreases |xs|
  {
    if xs == [] {
      SumOfZeros(NumBins(e));
    } else {
      var n := |xs| - 1;
      assert Bins(e, xs)[..n] == Bins(e, xs[..n]);
      TallyTotal(e, xs[..n]);
      var c := Tally(e, xs[..n]);
      if BinOf(e, xs[n]).Some? {
        SumIncrement(c, BinOf(e, xs[n]).value);
      }
    }
  }

  lemma {:induction false} SumOfZeros(n: nat)
    ensures SumNat(seq(n, _ => 0)) == 0
  {
    if n > 0 {
      assert seq(n, _ => 0)[1..] == seq(n - 1, _ => 0);
      SumOfZeros(n - 1);
    }
  }

  /** Number of values that land in some bin. */
  function InRange(e: seq<real>, xs: seq<real>): nat {
    SumNat(Tally(e, xs))
  }

  /* ---------- shares, alignment, clipping ---------- */

  /** `value_counts(normalize=True)`: each count over the in-range total; 0/0
      is NaN when no value is in range. */
  function Normalize(c: seq<nat>): (m: seq<Float>)
    ensures |m| == |c|
    ensures SumNat(c) == 0 ==> forall i :: 0 <= i < |m| ==> m[i].NaN?
    ensures SumNat(c) > 0 ==> forall i :: 0 <= i < |m| ==> m[i] == Val(Frac(c[i], SumNat(c)))
  {
    var t := SumNat(c);
    seq(|c|, i requires 0 <= i < |c| => if t == 0 then NaN else Val(Frac(c[i], t)))
  }

  /** With some count positive, the shares are in [0, 1] and add up to one. */
  lemma SharesSumToOne(c: seq<nat>)
    requires SumNat(c) > 0
    ensures SumSkipNaN(Normalize(c)) == 1.0
    ensures forall i :: 0 <= i < |c| ==> Normalize(c)[i].Val? && 0.0 <= Normalize(c)[i].v <= 1.0
  {
    var t := SumNat(c);
    SumOfShares(c, t);
    FracOfWhole(t);
    assert Normalize(c) == seq(|c|, i requires 0 <= i < |c| => Val(Frac(c[i], t)));
    forall i | 0 <= i < |c| ensures 0.0 <= Frac(c[i], t) <= 1.0 {
      EntryAtMostSum(c, i);
      FractionInUnit(c[i], t);
    }
  }

  lemma {:induction false} SumOfShares(c: seq<nat>, t: nat)
    requires t > 0
    ensures SumSkipNaN(seq(|c|, i requires 0 <= i < |c| => Val(Frac(c[i], t)))) == Frac(SumNat(c), t)
    decreases |c|
  {
    var s := seq(|c|, i requires 0 <= i < |c| => Val(Frac(c[i], t)));
    if c == [] {
      assert Frac(0, t) == 0.0;
    } else {
      assert s[1..] == seq(|c[1..]|, i requires 0 <= i < |c[1..]| => Val(Frac(c[1..][i], t)));
      SumOfShares(c[1..], t);
      FracAdd(c[0], SumNat(c[1..]), t);
    }
  }

  lemma FracAdd(a: nat, b: nat, t: nat)
    requires t > 0
    ensures Frac(a, t) + Frac(b, t) == Frac(a + b, t)
  {
    var r := t as real;
    calc {
      Frac(a, t) + Frac(b, t);
      a as real / r + b as real / r;
      (a as real + b as real) / r;
      Frac(a + b, t);
    }
  }

  /** `.fillna(0.0)` after reindexing the test shares on the training bins
      (both samples are cut on the same bins, so the reindex is the identity). */
  function FillZero(x: Float): (r: Float)
    ensures r.Val?
    ensures x.Val? ==> r == x
    ensures x.NaN? ==> r == Val(0.0)
  {
    if x.NaN? then Val(0.0) else x
  }

  const Epsilon: real := 0.000001

  /** `.clip(1e-6, 1)`: NaN stays NaN, values are pulled into [1e-6, 1]. */
  function Clip(x: Float): (r: Float)
    ensures r.NaN? <==> x.NaN?
    ensures r.Val? ==> Epsilon <= r.v <= 1.0
    ensures x.Val? && Epsilon <= x.v <= 1.0 ==> r == x
    ensures x.Val? && x.v < Epsilon ==> r == Val(Epsilon)
    ensures x.Val? && x.v > 1.0 ==> r == Val(1.0)
  {
    match x
    case NaN => NaN
    case Val(v) => Val(if v < Epsilon then Epsilon else if v > 1.0 then 1.0 else v)
  }

  /** Clipped training shares per bin: bin j gets the share of the in-range
      training values that fall in it, pulled into [1e-6, 1]; every share is
      NaN when no training value is in range. */
  function TrainShares(e: seq<real>, train: seq<real>): (p: seq<Float>)
    ensures |p| == NumBins(e)
    ensures forall i :: 0 <= i < |p| && p[i].Val? ==> Epsilon <= p[i].v <= 1.0
    ensures InRange(e, train) == 0 ==> forall j :: 0 <= j < |p| ==> p[j].NaN?
    ensures InRange(e, train) > 0 ==> forall j :: 0 <= j < |p| ==>
      p[j] == Clip(Val(Frac(Count(Bins(e, train), Some(j)), InRange(e, train))))
  {
    var p := MapSeq(Normalize(Tally(e, train)), Clip);
    if InRange(e, train) > 0 then
      SharesOverInRange(e, train);
      p
    else p
  }

  /** Clipped test shares per bin, aligned on the training bins: bin j gets
      the share of the in-range test values that fall in it, 0 when none is
      in range, pulled into [1e-6, 1]. */
  function TestShares(e: seq<real>, test: seq<real>): (q: seq<Float>)
    ensures |q| == NumBins(e)
    ensures forall i :: 0 <= i < |q| ==> q[i].Val? && Epsilon <= q[i].v <= 1.0
    ensures InRange(e, test) == 0 ==> forall j :: 0 <= j < |q| ==> q[j] == Val(Epsilon)
    ensures InRange(e, test) > 0 ==> forall j :: 0 <= j < |q| ==>
      q[j] == Clip(Val(Frac(Count(Bins(e, test), Some(j)), InRange(e, test))))
  {
    var q := MapSeq(MapSeq(Normalize(Tally(e, test)), FillZero), Clip);
    if InRange(e, test) > 0 then
      SharesOverInRange(e, test);
      q
    else q
  }

  /** A bin that no test value falls in gets the floor share 1e-6, whether
      other test values are in range or none is. */
  lemma EmptyTestBinGetsEpsilon(e: seq<real>, test: seq<real>, j: nat)
    requires j < NumBins(e) && Count(Bins(e, test), Some(j)) == 0
    ensures TestShares(e, test)[j] == Val(Epsilon)
  {
    if InRange(e, test) > 0 {
      assert Frac(0, InRange(e, test)) == 0.0;
    }
  }

  /* ---------- the index ---------- */

  /** `(a - b) * np.log(a / b)`, NaN when either share is NaN. */
  function Term(a: Float, b: Float, ln: real -> real): Float
    requires b.Val? ==> b.v > 0.0
  {
    if a.NaN? || b.NaN? then NaN else Val((a.v - b.v) * ln(a.v / b.v))
  }

  predicate PositiveShares(q: seq<Float>) {
    forall i :: 0 <= i < |q| && q[i].Val? ==> q[i].v > 0.0
  }

  function Terms(p: seq<Float>, q: seq<Float>, ln: real -> real): (r: seq<Float>)
    requires |p| == |q| && PositiveShares(q)
    ensures |r| == |p|
    ensures forall i :: 0 <= i < |r| ==> (r[i].NaN? <==> p[i].NaN? || q[i].NaN?)
  {
    seq(|p|, i requires 0 <= i < |p| => Term(p[i], q[i], ln))
  }

  /** The index for given edges: 0.0 with fewer than two edges, otherwise the
      NaN-skipping sum of the per-bin terms. */
  function PsiFromEdges(train: seq<real>, test: seq<real>, e: seq<real>, ln: real -> real): (r: real)
    ensures |e| < 2 ==> r == 0.0
  {
    if |e| < 2 then 0.0
    else SumSkipNaN(Terms(TrainShares(e, train), TestShares(e, test), ln))
  }

  datatype FeatureError = EmptyTrain

  /** psi_for_feature(train, test, n_bins).  np.quantile raises on an empty
      training sample. */
  function PsiForFeature(train: seq<Float>, test: seq<Float>, nBins: nat,
                         quantile: (seq<real>, real) -> real, ln: real -> real): (r: Result<real, FeatureError>)
    requires QuantileMonotone(quantile)
    ensures r.Err? <==> forall i :: 0 <= i < |train| ==> train[i].NaN?
    ensures r.Ok? ==> r.value == PsiFromEdges(DropNaN(train), DropNaN(test), Edges(quantile, DropNaN(train), nBins), ln)
  {
    var tr := DropNaN(train);
    if tr == [] then
      assert forall i :: 0 <= i < |train| ==> train[i].NaN?;
      Err(EmptyTrain)
    else
      assert Val(tr[0]) in train;
      Ok(PsiFromEdges(tr, DropNaN(test), Edges(quantile, tr, nBins), ln))
  }

  /* ---------- properties of the index ---------- */

  /** A sum of terms that are each 0 or NaN is 0. */
  lemma {:induction false} SumOfZeroTerms(xs: seq<Float>)
    requires forall i :: 0 <= i < |xs| ==> xs[i].NaN? || xs[i].v == 0.0
    ensures SumSkipNaN(xs) == 0.0
    decreases |xs|
  {
    if xs != [] {
      SumOfZeroTerms(xs[1..]);
    }
  }

  /** A sum of terms that are each non-negative or NaN is non-negative. */
  lemma {:induction false} SumOfNonNegativeTerms(xs: seq<Float>)
    requires forall i :: 0 <= i < |xs| ==> xs[i].NaN? || xs[i].v >= 0.0
    ensures SumSkipNaN(xs) >= 0.0
    decreases |xs|
  {
    if xs != [] {
      SumOfNonNegativeTerms(xs[1..]);
    }
  }

  /** Equal shares give zero terms, whatever the logarithm: (a - a) * ln(a / a) = 0. */
  lemma EqualSharesGiveZero(p: seq<Float>, ln: real -> real)
    requires PositiveShares(p)
    ensures SumSkipNaN(Terms(p, p, ln)) == 0.0
  {
    SumOfZeroTerms(Terms(p, p, ln));
  }

  /** When the two samples have the same per-bin shares, the index is 0. */
  lemma PsiOfEqualShares(train: seq<real>, test: seq<real>, e: seq<real>, ln: real -> real)
    requires Normalize(Tally(e, train)) == Normalize(Tally(e, test))
    ensures PsiFromEdges(train, test, e, ln) == 0.0
  {
    if |e| >= 2 {
      var p, q := TrainShares(e, train), TestShares(e, test);
      var m := Normalize(Tally(e, train));
      if SumNat(Tally(e, train)) == 0 {
        SumOfZeroTerms(Terms(p, q, ln));
      } else {
        assert p == q;
        EqualSharesGiveZero(p, ln);
      }
    }
  }

  /** A sample compared with itself has index 0. */
  lemma PsiOfSameSample(xs: seq<real>, e: seq<real>, ln: real -> real)
    ensures PsiFromEdges(xs, xs, e, ln) == 0.0
  {
    PsiOfEqualShares(xs, xs, e, ln);
  }

  /** psi_for_feature(train, train) is 0 whenever the training sample has a value. */
  lemma PsiForFeatureOfSameSample(train: seq<Float>, nBins: nat, quantile: (seq<real>, real) -> real, ln: real -> real)
    requires QuantileMonotone(quantile)
    requires exists i :: 0 <= i < |train| && train[i].Val?
    ensures PsiForFeature(train, train, nBins, quantile, ln) == Ok(0.0)
  {
    var tr := DropNaN(train);
    PsiOfSameSample(tr, Edges(quantile, tr, nBins), ln);
  }

  /** The sign property of the natural logarithm: ln x >= 0 exactly when x >= 1. */
  ghost predicate LnSign(ln: real -> real) {
    forall x :: x > 0.0 ==> (ln(x) >= 0.0 <==> x >= 1.0)
  }

  /** With a logarithm that has the sign property, each term is non-negative. */
  lemma TermNonNegative(a: real, b: real, ln: real -> real)
    requires LnSign(ln) && a > 0.0 && b > 0.0
    ensures (a - b) * ln(a / b) >= 0.0
  {
    var r := a / b;
    assert r * b == a;
    assert (r - 1.0) * b == a - b;
    ProductSign(r - 1.0, b);
  }

  lemma ProductSign(x: real, y: real)
    requires y > 0.0
    ensures x * y >= 0.0 <==> x >= 0.0
  {
    if x < 0.0 {
      assert (-x) * y > 0.0;
    }
  }

  /** With a logarithm that has the sign property, the index is never negative. */
  lemma PsiNonNegative(train: seq<real>, test: seq<real>, e: seq<real>, ln: real -> real)
    requires LnSign(ln)
    ensures PsiFromEdges(train, test, e, ln) >= 0.0
  {
    if |e| >= 2 {
      var p, q := TrainShares(e, train), TestShares(e, test);
      TermsNonNegative(p, q, ln);
      SumOfNonNegativeTerms(Terms(p, q, ln));
    }
  }

  /** Terms of positive shares are each NaN or non-negative. */
  lemma TermsNonNegative(p: seq<Float>, q: seq<Float>, ln: real -> real)
    requires LnSign(ln) && |p| == |q| && PositiveShares(q)
    requires forall i :: 0 <= i < |p| ==> q[i].Val? && (p[i].Val? ==> p[i].v > 0.0)
    ensures forall i :: 0 <= i < |p| ==> Terms(p, q, ln)[i].NaN? || Terms(p, q, ln)[i].v >= 0.0
  {
    forall i | 0 <= i < |p| ensures Terms(p, q, ln)[i].NaN? || Terms(p, q, ln)[i].v >= 0.0 {
      if p[i].Val? {
        TermNonNegative(p[i].v, q[i].v, ln);
      }
    }
  }

  /** psi_for_feature never returns a negative index, given a logarithm with the sign property. */
  lemma PsiForFeatureNonNegative(train: seq<Float>, test: seq<Float>, nBins: nat,
                                 quantile: (seq<real>, real) -> real, ln: real -> real)
    requires QuantileMonotone(quantile) && LnSign(ln)
    ensures PsiForFeature(train, test, nBins, quantile, ln).Ok? ==> PsiForFeature(train, test, nBins, quantile, ln).value >= 0.0
  {
    var tr := DropNaN(train);
    PsiNonNegative(tr, DropNaN(test), Edges(quantile, tr, nBins), ln);
  }

  /** The shares of a sample are taken over its in-range values only: with at
      least one value in range, share j is the count of bin j over that number
      and the shares add up to one, however many values fell outside. */
  lemma SharesOverInRange(e: seq<real>, xs: seq<real>)
    requires InRange(e, xs) > 0
    ensures InRange(e, xs) == |xs| - Count(Bins(e, xs), None)
    ensures forall j :: 0 <= j < NumBins(e) ==>
      Normalize(Tally(e, xs))[j] == Val(Frac(Count(Bins(e, xs), Some(j)), InRange(e, xs)))
    ensures SumSkipNaN(Normalize(Tally(e, xs))) == 1.0
  {
    TallyTotal(e, xs);
    SharesSumToOne(Tally(e, xs));
    forall j | 0 <= j < NumBins(e) ensures Tally(e, xs)[j] == Count(Bins(e, xs), Some(j)) {
      TallyCountsBins(e, xs, j);
    }
  }

  /** Edges [0, 1] and the sample [0.5, 5.0]: 5.0 is dropped, and the one bin
      gets share 1.0, not 0.5. */
  lemma OutOfRangeIsDropped()
    ensures Normalize(Tally([0.0, 1.0], [0.5, 5.0])) == [Val(1.0)]
  {
    var e, xs := [0.0, 1.0], [0.5, 5.0];
    assert FirstAtLeast(e, 0.5) == 1;
    assert FirstAtLeast(e, 5.0) == 2;
    assert xs[..1] == [0.5] && [0.5][..0] == [];
    assert Tally(e, [0.5]) == [1];
    assert Tally(e, xs) == [1];
    assert SumNat([1]) == 1;
    FracOfWhole(1);
  }

  /* ---------- psi_for_dataframe ---------- */

  datatype DataframeError = MissingColumn(col: string) | EmptyTrainColumn(col: string)

  /** Column c can be scored: it exists in both frames and has a training value. */
  predicate ColumnOk(dfTrain: map<string, seq<Float>>, dfTest: map<string, seq<Float>>, c: string) {
    c in dfTrain && c in dfTest && exists i :: 0 <= i < |dfTrain[c]| && dfTrain[c][i].Val?
  }

  /** The exception a failing column raises: KeyError before the quantile error. */
  function ColumnError(dfTrain: map<string, seq<Float>>, dfTest: map<string, seq<Float>>, c: string): DataframeError {
    if c !in dfTrain || c !in dfTest then MissingColumn(c) else EmptyTrainColumn(c)
  }

  /** The k-th column is the first one that cannot be scored. */
  predicate FirstFailure(dfTrain: map<string, seq<Float>>, dfTest: map<string, seq<Float>>, cols: seq<string>, k: nat)
    requires k < |cols|
  {
    !ColumnOk(dfTrain, dfTest, cols[k]) && forall j :: 0 <= j < k ==> ColumnOk(dfTrain, dfTest, cols[j])
  }

  /** v is the index psi_for_feature computes for column c. */
  ghost predicate Scored(dfTrain: map<string, seq<Float>>, dfTest: map<string, seq<Float>>, nBins: nat,
                         quantile: (seq<real>, real) -> real, ln: real -> real, c: string, v: real) {
    && QuantileMonotone(quantile)
    && c in dfTrain && c in dfTest
    && PsiForFeature(dfTrain[c], dfTest[c], nBins, quantile, ln) == Ok(v)
  }

  function PsiOf(entry: (string, real)): real { entry.1 }

  function NameOf(entry: (string, real)): string { entry.0 }

  /** Recording column c keeps one key per column seen so far. */
  lemma KeysStep(keys: seq<string>, c: string, seen: seq<string>)
    requires Distinct(keys) && forall x :: x in keys <==> x in seen
    ensures var keys' := if c in keys then keys else keys + [c];
      Distinct(keys') && forall x :: x in keys' <==> x in seen + [c]
  {
  }

  /** `pd.Series(psi_dict)`: the (column, PSI) pairs in insertion order. */
  function Entries(keys: seq<string>, d: map<string, real>): (r: seq<(string, real)>)
    requires forall c :: c in keys ==> c in d
    ensures MapSeq(r, NameOf) == keys
    ensures forall i :: 0 <= i < |r| ==> r[i] == (keys[i], d[keys[i]])
  {
    seq(|keys|, i requires 0 <= i < |keys| => (keys[i], d[keys[i]]))
  }

  /** Sorting the entries keeps one entry per key, each with its value. */
  lemma SortedEntries(keys: seq<string>, d: map<string, real>, sorted: seq<(string, real)>)
    requires Distinct(keys) && forall c :: c in keys ==> c in d
    requires Sorting.IsSortedDescBy(Entries(keys, d), sorted, PsiOf)
    ensures Distinct(MapSeq(sorted, NameOf))
    ensures forall c :: c in MapSeq(sorted, NameOf) <==> c in keys
    ensures forall i :: 0 <= i < |sorted| ==> sorted[i].0 in d && sorted[i].1 == d[sorted[i].0]
  {
    var entries := Entries(keys, d);
    MapPreservesMultiset(entries, sorted, NameOf);
    DistinctPermutation(keys, MapSeq(sorted, NameOf));
    forall i | 0 <= i < |sorted|
      ensures sorted[i].0 in d && sorted[i].1 == d[sorted[i].0]
    {
      assert sorted[i] in multiset(entries);
    }
    assert forall c :: c in MapSeq(sorted, NameOf) <==> c in multiset(MapSeq(entries, NameOf));
  }

  /** One column of psi_for_dataframe: the KeyError of a missing column, the
      error of psi_for_feature, or the column's index. */
  function ColumnScore(dfTrain: map<string, seq<Float>>, dfTest: map<string, seq<Float>>, c: string,
                       nBins: nat, quantile: (seq<real>, real) -> real, ln: real -> real): (r: Result<real, DataframeError>)
    requires QuantileMonotone(quantile)
    ensures r.Ok? <==> ColumnOk(dfTrain, dfTest, c)
    ensures r.Err? ==> r.error == ColumnError(dfTrain, dfTest, c)
    ensures r.Ok? ==> Scored(dfTrain, dfTest, nBins, quantile, ln, c, r.value)
  {
    if c !in dfTrain || c !in dfTest then Err(MissingColumn(c))
    else
      match PsiForFeature(dfTrain[c], dfTest[c], nBins, quantile, ln)
      case Err(_) => Err(EmptyTrainColumn(c))
      case Ok(v) => Ok(v)
  }

  /** The loop of psi_for_dataframe, for any per-column score: record every
      column's score in a dictionary (in first-insertion order), stopping at
      the first column whose score is an error. */
  method ScoreColumns(cols: seq<string>, score: string -> Result<real, DataframeError>)
    returns (r: Result<(seq<string>, map<string, real>), DataframeError>)
    ensures r.Ok? <==> forall k :: 0 <= k < |cols| ==> score(cols[k]).Ok?
    ensures r.Err? ==> exists k :: 0 <= k < |cols| && score(cols[k]) == Err(r.error) && forall j :: 0 <= j < k ==> score(cols[j]).Ok?
    ensures r.Ok? ==> Distinct(r.value.0) && forall c :: c in r.value.0 <==> c in cols
    ensures r.Ok? ==> forall c :: c in r.value.1 <==> c in r.value.0
    ensures r.Ok? ==> forall c :: c in r.value.1 ==> score(c) == Ok(r.value.1[c])
  {
    var psiDict: map<string, real> := map[];
    var keys: seq<string> := [];
    for k := 0 to |cols|
      invariant forall j :: 0 <= j < k ==> score(cols[j]).Ok?
      invariant Distinct(keys)
      invariant forall c :: c in keys <==> c in cols[..k]
      invariant forall c :: c in psiDict <==> c in keys
      invariant forall c :: c in psiDict ==> score(c) == Ok(psiDict[c])
    {
      var c := cols[k];
      var v := score(c);
      if v.Err? {
        return Err(v.error);
      }
      assert score(cols[k]).Ok?;
      KeysStep(keys, c, cols[..k]);
      assert cols[..k + 1] == cols[..k] + [c];
      keys := if c in keys then keys else keys + [c];
      psiDict := psiDict[c := v.value];
    }
    assert cols[..|cols|] == cols;
    r := Ok((keys, psiDict));
  }

  /** psi_for_dataframe(df_train, df_test, feature_cols, n_bins): one PSI per
      distinct column, sorted by PSI in descending order; the first column
      that cannot be scored raises. */
  method PsiForDataframe(dfTrain: map<string, seq<Float>>, dfTest: map<string, seq<Float>>, cols: seq<string>,
                         nBins: nat, quantile: (seq<real>, real) -> real, ln: real -> real)
    returns (r: Result<seq<(string, real)>, DataframeError>)
    requires QuantileMonotone(quantile)
    ensures r.Ok? <==> forall k :: 0 <= k < |cols| ==> ColumnOk(dfTrain, dfTest, cols[k])
    ensures r.Err? ==>
      exists k :: 0 <= k < |cols| && FirstFailure(dfTrain, dfTest, cols, k) && r.error == ColumnError(dfTrain, dfTest, cols[k])
    ensures r.Ok? ==> Distinct(MapSeq(r.value, NameOf))
    ensures r.Ok? ==> forall c :: c in MapSeq(r.value, NameOf) <==> c in cols
    ensures r.Ok? ==> forall i :: 0 <= i < |r.value| ==> Scored(dfTrain, dfTest, nBins, quantile, ln, r.value[i].0, r.value[i].1)
    ensures r.Ok? ==> Sorting.SortedDesc(r.value, PsiOf)
  {
    var score := c => ColumnScore(dfTrain, dfTest, c, nBins, quantile, ln);
    var scores := ScoreColumns(cols, score);
    if scores.Err? {
      FirstColumnError(dfTrain, dfTest, cols, nBins, quantile, ln, scores.error);
      return Err(scores.error);
    }
    var (keys, psiDict) := scores.value;
    var sorted := Sorting.SortDesc(Entries(keys, psiDict), PsiOf);
    SortedEntries(keys, psiDict, sorted);
    ScoredEntries(dfTrain, dfTest, nBins, quantile, ln, psiDict, sorted);
    r := Ok(sorted);
  }

  /** The first column whose score fails names the error, and not every column scores. */
  lemma FirstColumnError(dfTrain: map<string, seq<Float>>, dfTest: map<string, seq<Float>>, cols: seq<string>, nBins: nat,
                         quantile: (seq<real>, real) -> real, ln: real -> real, e: DataframeError)
    requires QuantileMonotone(quantile)
    requires exists k :: 0 <= k < |cols| && ColumnScore(dfTrain, dfTest, cols[k], nBins, quantile, ln) == Err(e)
                         && forall j :: 0 <= j < k ==> ColumnScore(dfTrain, dfTest, cols[j], nBins, quantile, ln).Ok?
    ensures exists k :: 0 <= k < |cols| && FirstFailure(dfTrain, dfTest, cols, k) && e == ColumnError(dfTrain, dfTest, cols[k])
    ensures !forall k :: 0 <= k < |cols| ==> ColumnOk(dfTrain, dfTest, cols[k])
  {
    var k :| 0 <= k < |cols| && ColumnScore(dfTrain, dfTest, cols[k], nBins, quantile, ln) == Err(e)
             && forall j :: 0 <= j < k ==> ColumnScore(dfTrain, dfTest, cols[j], nBins, quantile, ln).Ok?;
    assert FirstFailure(dfTrain, dfTest, cols, k);
  }

  /** Entries drawn from a dictionary of column scores carry their column's index. */
  lemma ScoredEntries(dfTrain: map<string, seq<Float>>, dfTest: map<string, seq<Float>>, nBins: nat,
                      quantile: (seq<real>, real) -> real, ln: real -> real, d: map<string, real>, entries: seq<(string, real)>)
    requires QuantileMonotone(quantile)
    requires forall c :: c in d ==> ColumnScore(dfTrain, dfTest, c, nBins, quantile, ln) == Ok(d[c])
    requires forall i :: 0 <= i < |entries| ==> entries[i].0 in d && entries[i].1 == d[entries[i].0]
    ensures forall i :: 0 <= i < |entries| ==> Scored(dfTrain, dfTest, nBins, quantile, ln, entries[i].0, entries[i].1)
  {
    forall i | 0 <= i < |entries| ensures Scored(dfTrain, dfTest, nBins, quantile, ln, entries[i].0, entries[i].1) {
      var c := entries[i].0;
      assert ColumnScore(dfTrain, dfTest, c, nBins, quantile, ln) == Ok(d[c]);
    }
  }
}
