# Credit-scoring metrics in Dafny

This project models the metric helpers of a credit-scoring project
(`src/utils.py`) and proves properties of the model:

- **KS** (`ks_score`, `ks_safe`): the Kolmogorov-Smirnov gap between the
  running fractions of bad (label 1) and good (label 0) rows, after sorting by
  score in descending order.
- **Ranking and classification metrics** (`performance_metrics`,
  `full_performance_metrics`): Gini from AUC, thresholded predictions and the
  four confusion counts.
- **Quantile event-rate table** (`construct_metrics_table`): rows are grouped
  by bucket label. Each group is summarised by volume, event rate, minimum
  score and maximum score. The table is ordered by a caller's list of labels.
- **Population Stability Index** (`psi_for_feature`, `psi_for_dataframe`):
  training-quantile edges, binning with `pd.cut`, per-bin shares over in-range
  values, alignment, clipping to [1e-6, 1], and the sum of
  `(a - b) * ln(a / b)`. Then one index per column, sorted in descending order.

Files, one module each:

| file | module | models |
|---|---|---|
| `basics.dfy` | `Basics` | NaN-or-real floats, `Option`, `Result`, counting, filtering, positions, 0/1 labels, exact fractions |
| `sorting.dfy` | `Sorting` | descending sort by a real key (`sort_values(ascending=False)`) |
| `ks.dfy` | `Ks` | `ks_score`, `ks_safe` |
| `performance.dfy` | `Performance` | `performance_metrics`, the counting part of `full_performance_metrics` |
| `quantile_table.dfy` | `QuantileTable` | `construct_metrics_table` |
| `psi.dfy` | `Psi` | `psi_for_feature`, `psi_for_dataframe` |

Modelling choices:

- Floats are exact `real`s. A pandas/numpy NaN is `Float.NaN`.
- pandas' `sort_values` is not stable. The sorted frame inside `ks_score` is
  therefore an input `order`, constrained by `Ks.IsDescOrder` to be a
  permutation of the input frame sorted by score in descending order. Every KS
  property is proved for all such orders. `Sorting.SortDesc` shows that one
  always exists.
- `np.quantile` and `np.log` are function parameters. `quantile` is required
  to be monotone in the level, as numpy's is. `ln` is constrained only in the
  lemmas that require the predicate `Psi.LnSign` (`ln x >= 0` exactly when
  `x >= 1`).
- Exceptions become `Result` errors: `roc_auc_score` on a single class,
  `pd.Categorical` with repeated categories, `np.quantile` on an empty
  training sample, and a `KeyError` for a missing column.
- Default arguments are ordinary parameters that every caller passes
  explicitly: `threshold=0.5` of `full_performance_metrics`, and `n_bins=10`
  of `psi_for_feature` and `psi_for_dataframe`.
- `psi_for_dataframe` is a method whose loop fills a map. A key list keeps
  the dictionary's insertion order. The loop is a generic method
  (`Psi.ScoreColumns`) over the per-column score (`Psi.ColumnScore`).

Behaviour of the code worth knowing, which the model keeps:

- KS depends on the order of tied scores. `Ks.TieOrderMatters` gives two
  valid sorts of one input with KS 1.0 and 0.5.
- A label outside the ordering list becomes a missing value in
  `pd.Categorical`. `sort_values` then puts its line last, in groupby order.
  The model keeps such a line with `bucket == None` (`QuantileTable.TableRow`).
- In `psi_for_dataframe`, a column named twice is one dictionary key, so it
  appears once in the result.

## Model

| member | source | states |
|---|---|---|
| Ks.IsDescOrder | src/utils.py:50-53 | `order` is a frame the descending sort may return: the input rows rearranged, in non-increasing score order; it then has as many rows as `y_true` and `y_proba` |
| Ks.LabelsPermuted | src/utils.py:50-56 | the sorted frame carries the same multiset of labels as `y_true`, so every label count (total_bad, total_good) is the same before and after the sort |
| Ks.KsScore | src/utils.py:33-65 | for every descending sort of the frame: exactly 0.0 when there is no label 1 or no label 0, and always within [0, 1] |
| Ks.GapInUnit | src/utils.py:61-63 | every prefix gap, the absolute difference of cum_bad and cum_good, lies in [0, 1] |
| Ks.Sweep | src/utils.py:60-64 | the running maximum never falls below the largest gap seen so far; `Ks.SweepIsMax` gives its exact value |
| Ks.KsOfSorted | src/utils.py:54-64 | KS of the sorted labels: 0.0 when a class is missing, never negative; `Ks.KsIsMaxPrefixGap` gives its value |
| Ks.SweepIsMax | src/utils.py:61-64 | the running maximum from row i on is at least every prefix gap and equals one of them |
| Ks.KsIsMaxPrefixGap | src/utils.py:61-64 | with both classes present, KS is the largest prefix gap: no prefix has a larger gap and some prefix has exactly that gap |
| Ks.KsInUnit | src/utils.py:47-48 | with both classes present, KS lies in [0, 1] |
| Ks.KsPositiveWithBothClasses | src/utils.py:55-65 | with 0/1 labels and both classes present, KS is strictly positive |
| Ks.PerfectSeparationGivesOne | src/utils.py:50-65 | when every bad row scores above every good row, KS is 1.0 for every sort |
| Ks.PerfectClassifierExample | src/utils.py:50-65 | y = [0,0,0,1,1,1] with scores 0.1, 0.2, 0.3, 0.7, 0.8, 0.9 gives KS 1.0 for every sort |
| Ks.NoGoodBeforeBad | src/utils.py:50-53 | under perfect separation, no good row precedes a bad row in any sort |
| Ks.MonotoneTransformKeepsKs | src/utils.py:50-65 | for strictly increasing f, each sort of the scores, rescored by f, is a sort of the transformed scores with the same KS |
| Ks.TieOrderMatters | src/utils.py:50-53 | y = [1,1,0,0] with four equal scores has two valid sorts, one giving KS 1.0 and one giving 0.5 |
| Ks.KsSafe | src/utils.py:215-235 | NaN exactly when there is no label 1 or no label 0, whatever the scores (even of another length); otherwise the value of ks_score, in [0, 1] |
| Sorting.InsertDesc | src/utils.py:321 | inserting into a descending sequence keeps it descending and adds exactly one copy of the element |
| Sorting.SortDesc | src/utils.py:321 | the result is a permutation of the input in descending key order, so such a sort exists for every input |
| Performance.Predict | src/utils.py:118 | one 0/1 prediction per score, and a prediction is 1 exactly when the score reaches the threshold |
| Performance.ConfusionCounts | src/utils.py:131 | each of TP, TN, FP, FN is the number of (label, prediction) pairs equal to (1,1), (0,0), (0,1), (1,0) |
| Performance.ConfusionPartition | src/utils.py:118-131 | for 0/1 labels and predictions: TP+TN+FP+FN = n, TP+FN = number of 1-labels, TN+FP = number of 0-labels, TP+FP and TN+FN = predicted 1s and 0s |
| Performance.HigherThresholdFewerPositives | src/utils.py:118 | raising the threshold never increases the number of predicted positives |
| Performance.Gini | src/utils.py:89 | AUC = (Gini + 1) / 2; AUC in [0, 1] exactly when Gini in [-1, 1]; AUC 0.5 exactly when Gini 0 |
| Performance.PerformanceMetrics | src/utils.py:84-91 | fails exactly when one class is missing (roc_auc_score raises); otherwise returns the given AUC, Gini = 2·AUC − 1 and KS = ks_score, with KS in (0, 1] |
| Performance.FullPerformanceMetrics | src/utils.py:116-145 | fails exactly when one class is missing; otherwise AUC, Gini and KS as above, and confusion counts that are the pair counts and partition the observations |
| QuantileTable.StrLessTotal | src/utils.py:189 | Python's string order is total on distinct strings, the order groupby sorts its keys in |
| QuantileTable.StrLessTransitive | src/utils.py:189 | Python's string order is transitive |
| QuantileTable.InsertKey | src/utils.py:189 | adding a label to an ascending list of labels keeps it ascending and adds exactly that label |
| QuantileTable.GroupKeys | src/utils.py:189 | the groupby keys are in ascending order without repeats, and they are exactly the labels present in the rows |
| QuantileTable.Group | src/utils.py:189-194 | a group holds only rows with its label, and no more rows than the input |
| QuantileTable.GroupIsFilter | src/utils.py:189-194 | a group is the input filtered on its label: every copy of each row with the label, in input order, and no other row |
| QuantileTable.GroupSize | src/utils.py:189-191 | a group's size (`volume`) is the number of rows with its label |
| QuantileTable.GroupMembers | src/utils.py:189 | a row is in the group of b exactly when it is an input row with label b |
| QuantileTable.EventsAtMostSize | src/utils.py:192 | with 0/1 targets, the number of events lies between 0 and the group size |
| QuantileTable.MinScore | src/utils.py:193 | `score_min` is at most every score of the group and is one of them |
| QuantileTable.MaxScore | src/utils.py:194 | `score_max` is at least every score of the group and is one of them |
| QuantileTable.Mean | src/utils.py:192 | `event_rate` times the group size is the sum of the targets; with 0/1 targets it lies in [0, 1] |
| QuantileTable.Summarize | src/utils.py:188-204 | one table line: label kept if it is in the list and missing otherwise; volume = row count > 0; event_rate = group mean; score_min and score_max bound every score of the label and are attained |
| Basics.IndexOf | src/utils.py:200-203 | the position of a label in the list: the first index where it occurs |
| QuantileTable.TableKeys | src/utils.py:199-205 | the labels of the table's lines, in output order: exactly the labels present in the rows |
| QuantileTable.KnownKeysFacts | src/utils.py:200-205 | the labels in the list come out without repeats, exactly the present labels in the list, strictly ordered by their position in the list |
| QuantileTable.UnknownKeysFacts | src/utils.py:200-205 | the labels outside the list keep groupby order (ascending, no repeats), and they are exactly the present labels outside the list |
| QuantileTable.TableKeysAreGroups | src/utils.py:188-205 | the table has one line per present label, without repeats and with no other line |
| QuantileTable.TableKeysOrder | src/utils.py:199-205 | labels in the list come first, by position in the list; the missing ones come after, in ascending string order |
| QuantileTable.ConstructMetricsTable | src/utils.py:188-207 | fails exactly when the list repeats a label; otherwise line i summarises the i-th present label, every volume > 0, score_min ≤ score_max, event rates in [0, 1] for 0/1 targets, labelled lines first in list order |
| QuantileTable.SummaryOrder | src/utils.py:199-205 | the table lines follow the label order: labelled lines first, in list order |
| QuantileTable.VolumesSumToRowCount | src/utils.py:188-197 | with a list free of repeats, the volumes add up to the number of input rows |
| QuantileTable.TwoBucketExample | src/utils.py:188-207 | Q1 targets [0,1,0] and Q2 targets [1,1] give the lines (Q1, 3, 1/3, 0.1, 0.3) then (Q2, 2, 1.0, 0.8, 0.9) |
| Psi.DropNaN | src/utils.py:264-265 | the result keeps every present value and holds only present values |
| Psi.DropNaNMultiplicity | src/utils.py:264-265 | each present value is kept as many times as it occurs |
| Psi.DropNaNConcat | src/utils.py:264-265 | dropping NaN distributes over concatenation, so the kept values stay in input order |
| Psi.Levels | src/utils.py:268 | n_bins + 1 levels from 0 up to 1, non-decreasing |
| Psi.Unique | src/utils.py:269 | strictly ascending, the same values as the input, the same last value |
| Psi.Edges | src/utils.py:268-269 | strictly ascending edges, between 1 and n_bins + 1 of them, from the 0-quantile to the top quantile; the edges are exactly the quantiles at the levels |
| Psi.FirstAtLeast | src/utils.py:275-276 | the first edge that is not below the value (numpy's searchsorted, side left) |
| Psi.BinOfIsInterval | src/utils.py:275-276 | bin j holds exactly the values in (e_j, e_{j+1}], and bin 0 also holds e_0 |
| Psi.BinOfOutOfRange | src/utils.py:275-276 | a value falls in no bin exactly when it is below e_0 or above the last edge |
| Psi.BinOf | src/utils.py:275-276 | a value's bin, when it has one, is a valid bin index; `Psi.BinOfIsInterval` and `Psi.BinOfOutOfRange` say which |
| Psi.Tally | src/utils.py:278-279 | one count per bin; `Psi.TallyCountsBins` gives each count |
| Psi.TallyCountsBins | src/utils.py:278-279 | the count of bin j is the number of values whose bin is j |
| Psi.TallyTotal | src/utils.py:278-279 | counted values plus values outside every bin = sample size |
| Psi.Normalize | src/utils.py:278-279 | with nothing in range every share is NaN; otherwise share j = count j / in-range total |
| Psi.SharesSumToOne | src/utils.py:278-279 | with something in range, the shares are in [0, 1] and add up to 1 |
| Psi.SharesOverInRange | src/utils.py:275-279 | shares are taken over in-range values only: denominator = sample size − out-of-range values |
| Psi.OutOfRangeIsDropped | src/utils.py:275-279 | edges [0, 1] and sample [0.5, 5.0]: the single bin gets share 1.0, not 0.5 |
| Psi.FillZero | src/utils.py:282 | a missing test share becomes exactly 0.0; present shares are unchanged |
| Psi.Clip | src/utils.py:285-287 | NaN stays NaN; values below 1e-6 become 1e-6, values above 1 become 1, values in [1e-6, 1] are unchanged |
| Psi.TrainShares | src/utils.py:278-286 | one share per bin: all NaN when no training value is in range; otherwise bin j's count over the in-range count, clipped to [1e-6, 1] |
| Psi.TestShares | src/utils.py:279-287 | one share per bin, on the training bins: 1e-6 everywhere when no test value is in range; otherwise bin j's count over the in-range count, clipped to [1e-6, 1] |
| Psi.EmptyTestBinGetsEpsilon | src/utils.py:282-287 | a training bin that no test value falls in gets exactly the test share 1e-6 |
| Psi.Terms | src/utils.py:289 | one term per bin, NaN exactly when either share is NaN |
| Basics.SumSkipNaN | src/utils.py:290 | pandas' sum skips NaN, so a sum of NaN entries only is 0.0; `Psi.SumOfZeroTerms` and `Psi.SumOfNonNegativeTerms` give the other cases |
| Psi.PsiFromEdges | src/utils.py:271-273 | fewer than two edges give 0.0 |
| Psi.PsiForFeature | src/utils.py:263-290 | fails exactly when the training sample has no value (np.quantile on an empty array); otherwise the index over the NaN-free samples and the deduplicated training quantiles |
| Psi.EqualSharesGiveZero | src/utils.py:289-290 | equal shares give a zero sum, whatever the logarithm |
| Psi.PsiOfEqualShares | src/utils.py:278-290 | two samples with the same per-bin shares have index 0 |
| Psi.PsiOfSameSample | src/utils.py:278-290 | a sample compared with itself has index 0 for any edges |
| Psi.PsiForFeatureOfSameSample | src/utils.py:263-290 | psi_for_feature(train, train) returns 0.0 when train has a value |
| Psi.TermNonNegative | src/utils.py:289 | with a sign-correct logarithm, (a − b)·ln(a / b) ≥ 0 for positive a, b |
| Psi.PsiNonNegative | src/utils.py:285-290 | with a sign-correct logarithm, the index for any edges is non-negative |
| Psi.PsiForFeatureNonNegative | src/utils.py:263-290 | with a sign-correct logarithm, psi_for_feature never returns a negative value |
| Psi.ColumnScore | src/utils.py:320 | one column succeeds exactly when it is in both frames and has a training value; a missing column is a KeyError before any quantile error; a success is that column's psi_for_feature |
| Psi.ScoreColumns | src/utils.py:318-320 | the loop succeeds exactly when every column scores; otherwise it fails with the first failing column's error; on success each requested column is one key, without repeats, mapped to its score |
| Psi.Entries | src/utils.py:321 | `pd.Series(psi_dict)`: one (column, PSI) pair per key, in insertion order, each with the key's value |
| Psi.SortedEntries | src/utils.py:321 | sorting the (column, PSI) pairs keeps one pair per key, each with its value |
| Psi.PsiForDataframe | src/utils.py:318-321 | succeeds exactly when every column can be scored; otherwise the first column that cannot gives the error; on success, one entry per distinct requested column, each with its psi_for_feature value, in non-increasing PSI order |

## Left out

- accuracy_score, precision_score, recall_score and f1_score (src/utils.py:126-129) are scikit-learn calls; their four rates are not in `Performance.FullMetrics`.
- roc_auc_score (src/utils.py:87, 121) is an input `auc`. Only the case where it raises (one class in `y_true`) is modelled.
- np.quantile's linear interpolation and np.log are parameters. The real np.quantile puts every training value inside [e_0, e_last]; the model does not rely on that.
- Floating-point rounding is not modelled: fractions are exact reals, and 1e-6 is the exact real 0.000001.
- n_bins is a natural number. A negative n_bins (an empty or invalid np.linspace) is not modelled.
- NaN scores, NaN targets and NaN bucket labels in construct_metrics_table are not modelled (groupby drops NaN labels; mean/min/max skip NaN).
- A categorical bucket column, for which groupby would also list empty categories, is not modelled: labels are strings.
- NaN scores are not modelled: `y_proba` is a sequence of reals. In ks_score, sort_values would put NaN scores last, and their labels would still enter the cumulative counts (src/utils.py:52, 60-64). In full_performance_metrics, a NaN score would give prediction 0 (src/utils.py:118).
- Mismatched lengths of y_true and y_proba are excluded by `Ks.IsDescOrder` wherever a frame is built, because building it raises in pandas. `Ks.KsSafe` asks nothing of the scores when a class is missing, since ks_safe then returns NaN first (src/utils.py:232-234).
- Ks.MonotoneTransformKeepsKs: proves one direction only. Each sort of the original scores, rescored, is a sort of the transformed scores with the same KS. It does not prove that every sort of the transformed scores arises this way.
- Performance.PerformanceMetrics: requires 0/1 labels, as the docstrings ask. Other label values (for which confusion_matrix and roc_auc_score behave differently) are not modelled.
- Performance.FullPerformanceMetrics: requires 0/1 labels, for the same reason.
- Psi.PsiNonNegative: holds only for a logarithm with the sign property `Psi.LnSign`, since ln is a parameter.
- The pandas result types (DataFrame with reset_index, Series) are sequences of records and of (column, value) pairs.
