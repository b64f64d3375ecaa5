/** The ranking and classification metrics of `performance_metrics` and
    `full_performance_metrics` (src/utils.py): KS, AUC and Gini, and the
    confusion counts at a decision threshold.

    The AUC comes from scikit-learn's roc_auc_score and is an input here; the
    model states how Gini is derived from it and when the call fails (a label
    vector with a single class).  Labels are 0/1, as the docstrings demand. */
module Performance {
  import opened Basics
  import Ks

  /** `(y_proba >= threshold).astype(int)`: 1 exactly where the score reaches the threshold. */
  function Predict(p: seq<real>, threshold: real): (pred: seq<int>)
    ensures |pred| == |p| && BinaryLabels(pred)
    ensures forall i :: 0 <= i < |p| ==> (pred[i] == 1 <==> p[i] >= threshold)
  {
    seq(|p|, i requires 0 <= i < |p| => if p[i] >= threshold then 1 else 0)
  }

  /** (label, prediction) pairs, the cells a confusion matrix tallies. */
  function Pairs(y: seq<int>, pred: seq<int>): seq<(int, int)>
    requires |y| == |pred|
  {
    seq(|y|, i requires 0 <= i < |y| => (y[i], pred[i]))
  }

  datatype Confusion = Confusion(tp: nat, tn: nat, fp: nat, fn: nat)

  /** `tn, fp, fn, tp = confusion_matrix(y_true, y_pred).ravel()`: each cell
      counts the observations with that label and that prediction. */
  function ConfusionCounts(y: seq<int>, pred: seq<int>): (c: Confusion)
    requires |y| == |pred|
    ensures c.tp == Count(Pairs(y, pred), (1, 1))
    ensures c.tn == Count(Pairs(y, pred), (0, 0))
    ensures c.fp == Count(Pairs(y, pred), (0, 1))
    ensures c.fn == Count(Pairs(y, pred), (1, 0))
  {
    if y == [] then Confusion(0, 0, 0, 0)
    else
      var n := |y| - 1;
      assert Pairs(y, pred)[..n] == Pairs(y[..n], pred[..n]);
      var c := ConfusionCounts(y[..n], pred[..n]);
      if y[n] == 1 && pred[n] == 1 then c.(tp := c.tp + 1)
      else if y[n] == 0 && pred[n] == 0 then c.(tn := c.tn + 1)
      else if y[n] == 0 && pred[n] == 1 then c.(fp := c.fp + 1)
      else if y[n] == 1 && pred[n] == 0 then c.(fn := c.fn + 1)
      else c
  }

  /** For 0/1 labels and predictions the four cells partition the
      observations: they add up to n, the bad rows split into TP and FN, the
      good rows into TN and FP, and the predicted positives into TP and FP. */
  lemma {:induction false} ConfusionPartition(y: seq<int>, pred: seq<int>)
    requires |y| == |pred| && BinaryLabels(y) && BinaryLabels(pred)
    ensures var c := ConfusionCounts(y, pred);
      && c.tp + c.tn + c.fp + c.fn == |y|
      && c.tp + c.fn == Count(y, 1)
      && c.tn + c.fp == Count(y, 0)
      && c.tp + c.fp == Count(pred, 1)
      && c.tn + c.fn == Count(pred, 0)
    decreases |y|
  {
    if y != [] {
      var n := |y| - 1;
      assert BinaryLabels(y[..n]) && BinaryLabels(pred[..n]) by {
        assert forall i :: 0 <= i < n ==> y[..n][i] == y[i] && pred[..n][i] == pred[i];
      }
      ConfusionPartition(y[..n], pred[..n]);
      ConfusionStep(y, pred);
      assert (y[n] == 0 || y[n] == 1) && (pred[n] == 0 || pred[n] == 1);
      var y1, y0 := Count(y[..n], 1), Count(y[..n], 0);
      var p1, p0 := Count(pred[..n], 1), Count(pred[..n], 0);
      assert Count(y, 1) == y1 + (if y[n] == 1 then 1 else 0);
      assert Count(y, 0) == y0 + (if y[n] == 0 then 1 else 0);
      assert Count(pred, 1) == p1 + (if pred[n] == 1 then 1 else 0);
      assert Count(pred, 0) == p0 + (if pred[n] == 0 then 1 else 0);
    }
  }

  /** The last observation adds one to exactly the cell of its label and prediction. */
  lemma ConfusionStep(y: seq<int>, pred: seq<int>)
    requires |y| == |pred| > 0
    ensures var n := |y| - 1;
      var c, c' := ConfusionCounts(y[..n], pred[..n]), ConfusionCounts(y, pred);
      && c'.tp == c.tp + (if y[n] == 1 && pred[n] == 1 then 1 else 0)
      && c'.tn == c.tn + (if y[n] == 0 && pred[n] == 0 then 1 else 0)
      && c'.fp == c.fp + (if y[n] == 0 && pred[n] == 1 then 1 else 0)
      && c'.fn == c.fn + (if y[n] == 1 && pred[n] == 0 then 1 else 0)
  {
  }

  /** Raising the threshold never adds a predicted positive. */
  lemma {:induction false} HigherThresholdFewerPositives(p: seq<real>, t1: real, t2: real)
    requires t1 <= t2
    ensures Count(Predict(p, t2), 1) <= Count(Predict(p, t1), 1)
    decreases |p|
  {
    if p != [] {
      var n := |p| - 1;
      assert Predict(p, t1)[..n] == Predict(p[..n], t1);
      assert Predict(p, t2)[..n] == Predict(p[..n], t2);
      HigherThresholdFewerPositives(p[..n], t1, t2);
    }
  }

  /** `gini = 2 * auc - 1`. */
  function Gini(auc: real): (g: real)
    ensures (g + 1.0) / 2.0 == auc
    ensures 0.0 <= auc <= 1.0 <==> -1.0 <= g <= 1.0
    ensures auc == 0.5 <==> g == 0.0
  {
    2.0 * auc - 1.0
  }

  /** roc_auc_score raises "Only one class present in y_true". */
  datatype MetricsError = OnlyOneClass

  datatype Ranking = Ranking(ks: real, auc: real, gini: real)

  /** performance_metrics(y_true, y_proba): (KS, AUC, Gini), where `auc` is what
      roc_auc_score returns and `order` is the sort inside ks_score. */
  function PerformanceMetrics(y: seq<int>, p: seq<real>, order: seq<Ks.Obs>, auc: real): (r: Result<Ranking, MetricsError>)
    requires Ks.IsDescOrder(y, p, order) && BinaryLabels(y)
    ensures r.Err? <==> Count(y, 1) == 0 || Count(y, 0) == 0
    ensures r.Ok? ==> r.value.auc == auc && r.value.gini == 2.0 * auc - 1.0
    ensures r.Ok? ==> r.value.ks == Ks.KsScore(y, p, order) && 0.0 < r.value.ks <= 1.0
  {
    if Count(y, 1) == 0 || Count(y, 0) == 0 then Err(OnlyOneClass)
    else
      Ks.KsPositiveWithBothClasses(y, p, order);
      Ok(Ranking(Ks.KsScore(y, p, order), auc, Gini(auc)))
  }

  datatype FullMetrics = FullMetrics(auc: real, ks: real, gini: real, tp: nat, tn: nat, fp: nat, fn: nat)

  /** full_performance_metrics(y_true, y_proba, threshold) without the four
      scikit-learn rates: the ranking metrics and the confusion counts. */
  function FullPerformanceMetrics(y: seq<int>, p: seq<real>, order: seq<Ks.Obs>, threshold: real, auc: real): (r: Result<FullMetrics, MetricsError>)
    requires Ks.IsDescOrder(y, p, order) && BinaryLabels(y)
    ensures r.Err? <==> Count(y, 1) == 0 || Count(y, 0) == 0
    ensures r.Ok? ==> r.value.auc == auc && r.value.gini == 2.0 * auc - 1.0 && r.value.ks == Ks.KsScore(y, p, order)
    ensures r.Ok? ==> var m := r.value;
      && m.tp + m.tn + m.fp + m.fn == |y|
      && m.tp + m.fn == Count(y, 1)
      && m.tn + m.fp == Count(y, 0)
      && m.tp + m.fp == Count(Predict(p, threshold), 1)
    ensures r.Ok? ==> var pairs := Pairs(y, Predict(p, threshold));
      && r.value.tp == Count(pairs, (1, 1)) && r.value.tn == Count(pairs, (0, 0))
      && r.value.fp == Count(pairs, (0, 1)) && r.value.fn == Count(pairs, (1, 0))
  {
    var pred := Predict(p, threshold);
    if Count(y, 1) == 0 || Count(y, 0) == 0 then Err(OnlyOneClass)
    else
      var c := ConfusionCounts(y, pred);
      ConfusionPartition(y, pred);
      Ok(FullMetrics(auc, Ks.KsScore(y, p, order), Gini(auc), c.tp, c.tn, c.fp, c.fn))
  }
}
