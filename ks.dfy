/** The Kolmogorov-Smirnov statistic of `ks_score` and its NaN-reporting
    variant `ks_safe` (src/utils.py).

    ks_score puts labels and scores in one frame, sorts it by score in
    descending order, turns the running counts of bad (label 1) and good
    (label 0) rows into fractions of their totals, and returns the largest
    absolute gap between the two running fractions.  pandas' sort is not
    stable, so the order among equal scores is not determined by the source;
    the model takes the sorted frame as an input `order`, constrained to be
    one of the descending orders of the input, and every property below is
    proved for all such orders. */
module Ks {
  import opened Basics
  import opened Sorting

  /** One row of the frame ks_score builds: a label (1 = bad, 0 = good) and a score. */
  datatype Obs = Obs(y: int, score: real)

  function ScoreOf(o: Obs): real { o.score }

  function LabelOf(o: Obs): int { o.y }

  function Labels(s: seq<Obs>): seq<int> { MapSeq(s, LabelOf) }

  /** `pd.DataFrame({"y": y_true, "score": y_proba})`, row by row. */
  function Zip(y: seq<int>, p: seq<real>): (s: seq<Obs>)
    requires |y| == |p|
  {
    seq(|y|, i requires 0 <= i < |y| => Obs(y[i], p[i]))
  }

  /** `order` is one of the frames `sort_values("score", ascending=False)` may return. */
  ghost predicate IsDescOrder(y: seq<int>, p: seq<real>, order: seq<Obs>): (b: bool)
    ensures b ==> |order| == |y| == |p|
  {
    var b := |y| == |p| && IsSortedDescBy(Zip(y, p), order, ScoreOf);
    assert b ==> |multiset(order)| == |multiset(Zip(y, p))|;
    b
  }

  /** Sorting does not change how many rows carry each label. */
  lemma LabelsPermuted(y: seq<int>, p: seq<real>, order: seq<Obs>)
    requires IsDescOrder(y, p, order)
    ensures multiset(Labels(order)) == multiset(y)
    ensures forall v :: Count(Labels(order), v) == Count(y, v)
  {
    MapPreservesMultiset(order, Zip(y, p), LabelOf);
    assert Labels(Zip(y, p)) == y;
    forall v ensures Count(Labels(order), v) == Count(y, v) {
      CountIsMultiplicity(Labels(order), v);
      CountIsMultiplicity(y, v);
    }
  }

  /** The gap after the first k rows of the sorted labels:
      |cum_bad / total_bad - cum_good / total_good|. */
  function Gap(ls: seq<int>, k: nat, tb: nat, tg: nat): real
    requires k <= |ls| && tb > 0 && tg > 0
  {
    Abs(Frac(Count(ls[..k], 1), tb) - Frac(Count(ls[..k], 0), tg))
  }

  /** The sweep over the sorted labels: cumulative sums and the running
      maximum of the absolute gap. `bad` and `good` are the counts so far and
      `best` the largest gap seen so far. */
  function Sweep(ls: seq<int>, tb: nat, tg: nat, i: nat, bad: nat, good: nat, best: real): (r: real)
    requires i <= |ls| && tb > 0 && tg > 0
    ensures best <= r
    decreases |ls| - i
  {
    if i == |ls| then best
    else
      var bad' := bad + (if ls[i] == 1 then 1 else 0);
      var good' := good + (if ls[i] == 0 then 1 else 0);
      Sweep(ls, tb, tg, i + 1, bad', good', Max(best, Abs(Frac(bad', tb) - Frac(good', tg))))
  }

  /** KS of a frame already sorted: 0.0 when either class is absent, else the sweep. */
  function KsOfSorted(ls: seq<int>): (ks: real)
    ensures Count(ls, 1) == 0 || Count(ls, 0) == 0 ==> ks == 0.0
    ensures ks >= 0.0
  {
    var tb := Count(ls, 1);
    var tg := Count(ls, 0);
    if tb == 0 || tg == 0 then 0.0 else Sweep(ls, tb, tg, 0, 0, 0, 0.0)
  }

  /** ks_score(y_true, y_proba) when the sort returned `order`. */
  function KsScore(y: seq<int>, p: seq<real>, order: seq<Obs>): (ks: real)
    requires IsDescOrder(y, p, order)
    ensures Count(y, 1) == 0 || Count(y, 0) == 0 ==> ks == 0.0
    ensures 0.0 <= ks <= 1.0
  {
    LabelsPermuted(y, p, order);
    if Count(y, 1) > 0 && Count(y, 0) > 0 then
      KsInUnit(y, p, order);
      KsOfSorted(Labels(order))
    else
      KsOfSorted(Labels(order))
  }

  /** ks_safe(y_true, y_proba) when the sort inside ks_score returned `order`.
      With a class missing it answers NaN before any frame is built, so the
      scores and the sort are then unconstrained, even in length. */
  function KsSafe(y: seq<int>, p: seq<real>, order: seq<Obs>): (r: Float)
    requires Count(y, 1) > 0 && Count(y, 0) > 0 ==> IsDescOrder(y, p, order)
    ensures r.NaN? <==> Count(y, 1) == 0 || Count(y, 0) == 0
    ensures r.Val? ==> r.v == KsScore(y, p, order) && 0.0 <= r.v <= 1.0
  {
    if Count(y, 1) == 0 || Count(y, 0) == 0 then NaN else Val(KsScore(y, p, order))
  }

  /** Every prefix gap lies in [0, 1]. */
  lemma GapInUnit(ls: seq<int>, k: nat, tb: nat, tg: nat)
    requires k <= |ls| && tb == Count(ls, 1) > 0 && tg == Count(ls, 0) > 0
    ensures 0.0 <= Gap(ls, k, tb, tg) <= 1.0
  {
    CountSplit(ls, k, 1);
    CountSplit(ls, k, 0);
    FractionInUnit(Count(ls[..k], 1), tb);
    FractionInUnit(Count(ls[..k], 0), tg);
  }

  /** The counts one row further on. */
  lemma CountStep(ls: seq<int>, i: nat, v: int)
    requires i < |ls|
    ensures Count(ls[..i + 1], v) == Count(ls[..i], v) + (if ls[i] == v then 1 else 0)
  {
    assert ls[..i + 1][..i] == ls[..i];
  }

  /** What the sweep computes from position i on: a bound on every gap, attained
      by `best` or by some later gap. */
  lemma {:induction false} SweepIsMax(ls: seq<int>, tb: nat, tg: nat, i: nat, bad: nat, good: nat, best: real)
    requires i <= |ls| && tb > 0 && tg > 0
    requires bad == Count(ls[..i], 1) && good == Count(ls[..i], 0)
    requires forall k :: 1 <= k <= i ==> Gap(ls, k, tb, tg) <= best
    requires i == 0 ==> best == 0.0
    requires i > 0 ==> exists k :: 1 <= k <= i && best == Gap(ls, k, tb, tg)
    ensures forall k :: 1 <= k <= |ls| ==> Gap(ls, k, tb, tg) <= Sweep(ls, tb, tg, i, bad, good, best)
    ensures i < |ls| ==> exists k :: 1 <= k <= |ls| && Sweep(ls, tb, tg, i, bad, good, best) == Gap(ls, k, tb, tg)
    decreases |ls| - i
  {
    if i < |ls| {
      SweepStep(ls, tb, tg, i, bad, good, best);
      var best' := Max(best, Gap(ls, i + 1, tb, tg));
      assert forall k :: 1 <= k <= i + 1 ==> Gap(ls, k, tb, tg) <= best' by {
        forall k | 1 <= k <= i + 1 ensures Gap(ls, k, tb, tg) <= best' {
          if k <= i { assert Gap(ls, k, tb, tg) <= best; }
        }
      }
      assert exists k :: 1 <= k <= i + 1 && best' == Gap(ls, k, tb, tg) by {
        if best' == Gap(ls, i + 1, tb, tg) {
        } else {
          var k :| 1 <= k <= i && best == Gap(ls, k, tb, tg);
          assert best' == Gap(ls, k, tb, tg);
        }
      }
      SweepIsMax(ls, tb, tg, i + 1, Count(ls[..i + 1], 1), Count(ls[..i + 1], 0), best');
    }
  }

  /** One step of the sweep adds the next row to the counts and the gap it
      reaches to the running maximum. */
  lemma SweepStep(ls: seq<int>, tb: nat, tg: nat, i: nat, bad: nat, good: nat, best: real)
    requires i < |ls| && tb > 0 && tg > 0
    requires bad == Count(ls[..i], 1) && good == Count(ls[..i], 0)
    ensures Sweep(ls, tb, tg, i, bad, good, best)
         == Sweep(ls, tb, tg, i + 1, Count(ls[..i + 1], 1), Count(ls[..i + 1], 0), Max(best, Gap(ls, i + 1, tb, tg)))
  {
    CountStep(ls, i, 1);
    CountStep(ls, i, 0);
  }

  /** ks_score is the largest prefix gap of the sorted frame: no prefix of
      `order` has a larger gap, and some prefix has exactly that gap. */
  lemma KsIsMaxPrefixGap(y: seq<int>, p: seq<real>, order: seq<Obs>)
    requires IsDescOrder(y, p, order)
    requires Count(y, 1) > 0 && Count(y, 0) > 0
    ensures var ls, tb, tg := Labels(order), Count(y, 1), Count(y, 0);
      && (forall k :: 1 <= k <= |order| ==> Gap(ls, k, tb, tg) <= KsOfSorted(ls))
      && (exists k :: 1 <= k <= |order| && KsOfSorted(ls) == Gap(ls, k, tb, tg))
  {
    LabelsPermuted(y, p, order);
    var ls := Labels(order);
    assert 0 < |ls| by { assert Count(ls, 1) <= |ls|; }
    SweepIsMax(ls, Count(y, 1), Count(y, 0), 0, 0, 0, 0.0);
  }

  /** With both classes present, KS lies in [0, 1]. */
  lemma KsInUnit(y: seq<int>, p: seq<real>, order: seq<Obs>)
    requires IsDescOrder(y, p, order)
    requires Count(y, 1) > 0 && Count(y, 0) > 0
    ensures 0.0 <= KsOfSorted(Labels(order)) <= 1.0
  {
    LabelsPermuted(y, p, order);
    var ls, tb, tg := Labels(order), Count(y, 1), Count(y, 0);
    KsIsMaxPrefixGap(y, p, order);
    var k :| 1 <= k <= |order| && KsOfSorted(ls) == Gap(ls, k, tb, tg);
    GapInUnit(ls, k, tb, tg);
  }

  /** With 0/1 labels and both classes present KS is strictly positive: the
      first row of the sorted frame already opens a gap. */
  lemma KsPositiveWithBothClasses(y: seq<int>, p: seq<real>, order: seq<Obs>)
    requires IsDescOrder(y, p, order) && BinaryLabels(y)
    requires Count(y, 1) > 0 && Count(y, 0) > 0
    ensures KsScore(y, p, order) > 0.0
  {
    LabelsPermuted(y, p, order);
    var ls, tb, tg := Labels(order), Count(y, 1), Count(y, 0);
    KsIsMaxPrefixGap(y, p, order);
    FromInput(y, p, order, 0);
    assert ls[0] == 0 || ls[0] == 1;
    FirstGapPositive(ls, tb, tg);
  }

  lemma FirstGapPositive(ls: seq<int>, tb: nat, tg: nat)
    requires |ls| > 0 && tb > 0 && tg > 0
    requires ls[0] == 0 || ls[0] == 1
    ensures Gap(ls, 1, tb, tg) > 0.0
  {
    assert ls[..1] == [ls[0]];
    assert Count([ls[0]], 1) == (if ls[0] == 1 then 1 else 0) by {
      assert [ls[0]][..0] == [];
    }
    assert Count([ls[0]], 0) == (if ls[0] == 0 then 1 else 0) by {
      assert [ls[0]][..0] == [];
    }
    FracOfOne(tb);
    FracOfOne(tg);
    assert Frac(0, tb) == 0.0 && Frac(0, tg) == 0.0;
  }

  /** When every bad row scores above every good row, KS is 1 whatever the tie order. */
  lemma PerfectSeparationGivesOne(y: seq<int>, p: seq<real>, order: seq<Obs>)
    requires IsDescOrder(y, p, order)
    requires Count(y, 1) > 0 && Count(y, 0) > 0
    requires forall i, j :: 0 <= i < |y| && 0 <= j < |y| && y[i] == 1 && y[j] == 0 ==> p[i] > p[j]
    ensures KsScore(y, p, order) == 1.0
  {
    LabelsPermuted(y, p, order);
    NoGoodBeforeBad(y, p, order);
    SeparatedLabelsReachOne(Labels(order));
    KsIsMaxPrefixGap(y, p, order);
    KsInUnit(y, p, order);
  }

  /** Sorted labels with every bad row ahead of every good row have a prefix
      of gap 1: the one that ends just before the first good row. */
  lemma SeparatedLabelsReachOne(ls: seq<int>)
    requires NoBadAfterGood(ls)
    requires Count(ls, 1) > 0 && Count(ls, 0) > 0
    ensures exists k :: 1 <= k <= |ls| && Gap(ls, k, Count(ls, 1), Count(ls, 0)) == 1.0
  {
    var tb, tg := Count(ls, 1), Count(ls, 0);
    CountPositiveMeansPresent(ls, 0);
    var k := IndexOf(ls, 0);
    BadRowsBeforeFirstGood(ls, k);
    GapOfAllBadNoGood(ls, k, tb, tg);
  }

  lemma GapOfAllBadNoGood(ls: seq<int>, k: nat, tb: nat, tg: nat)
    requires k <= |ls| && tb > 0 && tg > 0
    requires Count(ls[..k], 1) == tb && Count(ls[..k], 0) == 0
    ensures 1 <= k && Gap(ls, k, tb, tg) == 1.0
  {
    FracOfWhole(tb);
    assert Frac(0, tg) == 0.0;
  }

  /** In the sorted labels, no bad row (1) follows a good row (0). */
  predicate NoBadAfterGood(ls: seq<int>) {
    forall i, j :: 0 <= i < j < |ls| && ls[i] == 0 ==> ls[j] != 1
  }

  /** When no good row precedes a bad row, the rows before the first good
      row hold every bad row and no good row. */
  lemma BadRowsBeforeFirstGood(ls: seq<int>, k: nat)
    requires NoBadAfterGood(ls)
    requires k < |ls| && ls[k] == 0 && forall m :: 0 <= m < k ==> ls[m] != 0
    ensures Count(ls[..k], 0) == 0
    ensures Count(ls[..k], 1) == Count(ls, 1)
  {
    assert 0 !in ls[..k];
    CountIsMultiplicity(ls[..k], 0);
    assert 1 !in ls[k..];
    CountIsMultiplicity(ls[k..], 1);
    CountSplit(ls, k, 1);
  }

  /** Under perfect separation no good row precedes a bad row in any sort. */
  lemma NoGoodBeforeBad(y: seq<int>, p: seq<real>, order: seq<Obs>)
    requires IsDescOrder(y, p, order)
    requires forall i, j :: 0 <= i < |y| && 0 <= j < |y| && y[i] == 1 && y[j] == 0 ==> p[i] > p[j]
    ensures NoBadAfterGood(Labels(order))
  {
    forall i, j | 0 <= i < j < |order| && order[i].y == 0 ensures order[j].y != 1 {
      if order[j].y == 1 {
        FromInput(y, p, order, i);
        FromInput(y, p, order, j);
        assert false;
      }
    }
  }

  /** Every row of the sorted frame is a row of the input frame. */
  lemma FromInput(y: seq<int>, p: seq<real>, order: seq<Obs>, i: nat)
    requires IsDescOrder(y, p, order) && i < |order|
    ensures exists a :: 0 <= a < |y| && order[i] == Obs(y[a], p[a])
  {
    assert order[i] in multiset(Zip(y, p));
  }

  /** The frame with every score passed through f. */
  function Rescore(s: seq<Obs>, f: real -> real): seq<Obs> {
    MapSeq(s, (o: Obs) => Obs(o.y, f(o.score)))
  }

  /** ks_score depends on the scores only through their order: for a strictly
      increasing transform f, each sort of the original scores, rescored, is a
      sort of the transformed scores with the same KS. */
  lemma MonotoneTransformKeepsKs(y: seq<int>, p: seq<real>, order: seq<Obs>, f: real -> real)
    requires IsDescOrder(y, p, order)
    requires forall a, b :: a < b ==> f(a) < f(b)
    ensures IsDescOrder(y, MapSeq(p, f), Rescore(order, f))
    ensures KsScore(y, MapSeq(p, f), Rescore(order, f)) == KsScore(y, p, order)
  {
    var g := (o: Obs) => Obs(o.y, f(o.score));
    var order' := Rescore(order, f);
    MapPreservesMultiset(order, Zip(y, p), g);
    assert MapSeq(Zip(y, p), g) == Zip(y, MapSeq(p, f));
    forall i, j | 0 <= i < j < |order'| ensures ScoreOf(order'[i]) >= ScoreOf(order'[j]) {
      assert ScoreOf(order[i]) >= ScoreOf(order[j]);
    }
    assert Labels(order') == Labels(order);
  }

  /** The tie order matters: with four equal scores, one sort of
      y = [1, 1, 0, 0] gives KS 1.0 and another gives 0.5. */
  lemma TieOrderMatters()
    ensures var y, p := [1, 1, 0, 0], [0.5, 0.5, 0.5, 0.5];
      && IsDescOrder(y, p, Zip(y, p))
      && IsDescOrder(y, p, Zip([1, 0, 1, 0], p))
      && KsScore(y, p, Zip(y, p)) == 1.0
      && KsScore(y, p, Zip([1, 0, 1, 0], p)) == 0.5
  {
    TwoTieOrders();
    SweepOfSeparated();
    SweepOfAlternating();
  }

  /** Both orders of the four tied rows are descending sorts of the frame. */
  lemma TwoTieOrders()
    ensures var y, p := [1, 1, 0, 0], [0.5, 0.5, 0.5, 0.5];
      && IsDescOrder(y, p, Zip(y, p)) && Labels(Zip(y, p)) == [1, 1, 0, 0]
      && IsDescOrder(y, p, Zip([1, 0, 1, 0], p)) && Labels(Zip([1, 0, 1, 0], p)) == [1, 0, 1, 0]
  {
    var y, p := [1, 1, 0, 0], [0.5, 0.5, 0.5, 0.5];
    TiedRows(y, p);
    TiedRows([1, 0, 1, 0], p);
    SwappedRows(Obs(1, 0.5), Obs(0, 0.5));
  }

  lemma SwappedRows(a: Obs, b: Obs)
    ensures multiset([a, b, a, b]) == multiset([a, a, b, b])
  {
    assert [a, b, a, b] == [a] + [b, a] + [b];
    assert [a, a, b, b] == [a] + [a, b] + [b];
    assert multiset([b, a]) == multiset([a, b]);
  }

  /** Four rows with the same score are sorted in any order, and keep their labels. */
  lemma TiedRows(y: seq<int>, p: seq<real>)
    requires |y| == 4 && p == [0.5, 0.5, 0.5, 0.5]
    ensures Zip(y, p) == [Obs(y[0], 0.5), Obs(y[1], 0.5), Obs(y[2], 0.5), Obs(y[3], 0.5)]
    ensures SortedDesc(Zip(y, p), ScoreOf) && Labels(Zip(y, p)) == y
  {
    var z := Zip(y, p);
    assert z == [Obs(y[0], 0.5), Obs(y[1], 0.5), Obs(y[2], 0.5), Obs(y[3], 0.5)];
    assert forall i :: 0 <= i < 4 ==> ScoreOf(z[i]) == 0.5;
  }

  /** The sweep over [1, 1, 0, 0]: gaps 0.5, 1, 0.5, 0. */
  lemma SweepOfSeparated()
    ensures KsOfSorted([1, 1, 0, 0]) == 1.0
  {
    var s := [1, 1, 0, 0];
    CountIsMultiplicity(s, 1);
    CountIsMultiplicity(s, 0);
    SeparatedTail();
    assert Frac(1, 2) == 0.5 && Frac(2, 2) == 1.0 && Frac(0, 2) == 0.0;
    assert Sweep(s, 2, 2, 1, 1, 0, 0.5) == 1.0;
    assert Sweep(s, 2, 2, 0, 0, 0, 0.0) == 1.0;
  }

  /** The last three steps of the sweep over [1, 1, 0, 0]. */
  lemma SeparatedTail()
    ensures Sweep([1, 1, 0, 0], 2, 2, 2, 2, 0, 1.0) == 1.0
  {
    var s := [1, 1, 0, 0];
    assert Frac(1, 2) == 0.5 && Frac(2, 2) == 1.0 && Frac(0, 2) == 0.0;
    assert Sweep(s, 2, 2, 4, 2, 2, 1.0) == 1.0;
    assert Sweep(s, 2, 2, 3, 2, 1, 1.0) == 1.0;
  }

  /** The sweep over [1, 0, 1, 0]: gaps 0.5, 0, 0.5, 0. */
  lemma SweepOfAlternating()
    ensures KsOfSorted([1, 0, 1, 0]) == 0.5
  {
    var t := [1, 0, 1, 0];
    CountIsMultiplicity(t, 1);
    CountIsMultiplicity(t, 0);
    AlternatingTail();
    assert Frac(1, 2) == 0.5 && Frac(0, 2) == 0.0;
    assert Sweep(t, 2, 2, 1, 1, 0, 0.5) == 0.5;
    assert Sweep(t, 2, 2, 0, 0, 0, 0.0) == 0.5;
  }

  /** The last three steps of the sweep over [1, 0, 1, 0]. */
  lemma AlternatingTail()
    ensures Sweep([1, 0, 1, 0], 2, 2, 2, 1, 1, 0.5) == 0.5
  {
    var t := [1, 0, 1, 0];
    assert Frac(1, 2) == 0.5 && Frac(2, 2) == 1.0;
    assert Sweep(t, 2, 2, 4, 2, 2, 0.5) == 0.5;
    assert Sweep(t, 2, 2, 3, 2, 1, 0.5) == 0.5;
  }

  /** Three good rows scored 0.1 to 0.3 and three bad rows scored 0.7 to 0.9:
      every sort gives KS 1.0. */
  lemma PerfectClassifierExample(order: seq<Obs>)
    requires IsDescOrder([0, 0, 0, 1, 1, 1], [0.1, 0.2, 0.3, 0.7, 0.8, 0.9], order)
    ensures KsScore([0, 0, 0, 1, 1, 1], [0.1, 0.2, 0.3, 0.7, 0.8, 0.9], order) == 1.0
  {
    var y, p := [0, 0, 0, 1, 1, 1], [0.1, 0.2, 0.3, 0.7, 0.8, 0.9];
    assert y[5] == 1 && y[0] == 0;
    CountPositiveFromWitness(y, 5, 1);
    CountPositiveFromWitness(y, 0, 0);
    PerfectSeparationGivesOne(y, p, order);
  }

  lemma CountPositiveFromWitness(y: seq<int>, i: nat, v: int)
    requires i < |y| && y[i] == v
    ensures Count(y, v) > 0
  {
    CountIsMultiplicity(y, v);
    assert y[i] in multiset(y);
  }
}
