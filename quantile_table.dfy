/** `construct_metrics_table` (src/utils.py): rows tagged with a quantile
    bucket label are grouped by label, each group is summarised by its size,
    mean target, minimum and maximum score, and the summaries are ordered by
    the position of their label in a caller-supplied list of labels.

    pandas' groupby returns its groups in ascending order of the label (Python
    string order).  Turning the label column into an ordered categorical
    replaces a label missing from the list by a missing value; sort_values
    then orders the known labels by their position in the list and puts the
    missing ones last, keeping the order they already had among themselves. */
module QuantileTable {
  import opened Basics
  import Sorting

  /** One observation: its bucket label, its score and its 0/1 target. */
  datatype Row = Row(bucket: string, score: real, target: int)

  /** One line of the table.  `bucket` is None where the label is not in the
      ordering list (pandas shows a missing value there). */
  datatype TableRow = TableRow(bucket: Option<string>, volume: nat, eventRate: real, scoreMin: real, scoreMax: real)

  /** pd.Categorical raises when the list of categories repeats a label. */
  datatype TableError = DuplicateLabels

  /* ---------- Python's string order ---------- */

  /** a < b for Python strings: code point by code point, a proper prefix first. */
  predicate StrLess(a: string, b: string) {
    if a == [] then b != []
    else if b == [] then false
    else if a[0] != b[0] then a[0] < b[0]
    else StrLess(a[1..], b[1..])
  }

  lemma {:induction false} StrLessIrreflexive(a: string)
    ensures !StrLess(a, a)
    decreases |a|
  {
    if a != [] {
      StrLessIrreflexive(a[1..]);
    }
  }

  lemma {:induction false} StrLessTransitive(a: string, b: string, c: string)
    requires StrLess(a, b) && StrLess(b, c)
    ensures StrLess(a, c)
    decreases |a|
  {
    if a != [] && a[0] == b[0] && b[0] == c[0] {
      StrLessTransitive(a[1..], b[1..], c[1..]);
    }
  }

  lemma {:induction false} StrLessTotal(a: string, b: string)
    requires a != b
    ensures StrLess(a, b) || StrLess(b, a)
    decreases |a|
  {
    if a != [] && b != [] && a[0] == b[0] {
      assert a == [a[0]] + a[1..] && b == [b[0]] + b[1..];
      StrLessTotal(a[1..], b[1..]);
    }
  }

  predicate Ascending(s: seq<string>) {
    forall i, j :: 0 <= i < j < |s| ==> StrLess(s[i], s[j])
  }

  lemma AscendingIsDistinct(s: seq<string>)
    requires Ascending(s)
    ensures Distinct(s)
  {
    forall i, j | 0 <= i < j < |s| ensures s[i] != s[j] {
      StrLessIrreflexive(s[i]);
    }
  }

  lemma {:induction false} FilterKeepsAscending(s: seq<string>, f: string -> bool)
    requires Ascending(s)
    ensures Ascending(Filter(s, f))
    decreases |s|
  {
    if s != [] {
      var n := |s| - 1;
      assert Ascending(s[..n]);
      FilterKeepsAscending(s[..n], f);
      var r := Filter(s[..n], f);
      forall i | 0 <= i < |r| ensures StrLess(r[i], s[n]) {
        var k :| 0 <= k < n && s[..n][k] == r[i];
      }
    }
  }

  /* ---------- groupby ---------- */

  function BucketOf(r: Row): string { r.bucket }

  function Buckets(rows: seq<Row>): seq<string> { MapSeq(rows, BucketOf) }

  /** k added to an ascending list of distinct labels, as a set. */
  function InsertKey(k: string, s: seq<string>): (r: seq<string>)
    requires Ascending(s)
    ensures Ascending(r)
    ensures forall x :: x in r <==> x == k || x in s
  {
    if s == [] then [k]
    else if k == s[0] then s
    else if StrLess(k, s[0]) then
      assert forall i :: 0 <= i < |s| ==> StrLess(k, s[i]) by {
        forall i | 0 <= i < |s| ensures StrLess(k, s[i]) {
          if i > 0 { StrLessTransitive(k, s[0], s[i]); }
        }
      }
      [k] + s
    else
      StrLessTotal(k, s[0]);
      assert s == [s[0]] + s[1..];
      var t := InsertKey(k, s[1..]);
      assert forall i :: 0 <= i < |t| ==> StrLess(s[0], t[i]) by {
        forall i | 0 <= i < |t| ensures StrLess(s[0], t[i]) {
          assert t[i] == k || t[i] in s[1..];
        }
      }
      [s[0]] + t
  }

  /** The labels groupby produces: each label present, once, in ascending order. */
  function GroupKeys(rows: seq<Row>): (ks: seq<string>)
    ensures Ascending(ks)
    ensures forall b :: b in ks <==> b in Buckets(rows)
  {
    if rows == [] then []
    else
      var n := |rows| - 1;
      assert Buckets(rows) == Buckets(rows[..n]) + [rows[n].bucket];
      InsertKey(rows[n].bucket, GroupKeys(rows[..n]))
  }

  /** The rows carrying label b, in input order. */
  function Group(rows: seq<Row>, b: string): (g: seq<Row>)
    ensures |g| <= |rows|
    ensures forall i :: 0 <= i < |g| ==> g[i].bucket == b
  {
    if rows == [] then []
    else
      var n := |rows| - 1;
      Group(rows[..n], b) + (if rows[n].bucket == b then [rows[n]] else [])
  }

  function InBucket(b: string): Row -> bool {
    (r: Row) => r.bucket == b
  }

  /** A group is the input filtered on its label, so it holds every copy of
      each row carrying the label, in input order, and nothing else. */
  lemma {:induction false} GroupIsFilter(rows: seq<Row>, b: string)
    ensures Group(rows, b) == Filter(rows, InBucket(b))
    ensures forall r :: multiset(Group(rows, b))[r] == if r.bucket == b then multiset(rows)[r] else 0
    decreases |rows|
  {
    if rows != [] {
      var n := |rows| - 1;
      GroupIsFilter(rows[..n], b);
    }
    forall r ensures multiset(Group(rows, b))[r] == if r.bucket == b then multiset(rows)[r] else 0 {
      FilterMultiplicity(rows, InBucket(b), r);
    }
  }

  /** The size of a group is the number of rows carrying its label. */
  lemma {:induction false} GroupSize(rows: seq<Row>, b: string)
    ensures |Group(rows, b)| == Count(Buckets(rows), b)
    decreases |rows|
  {
    if rows != [] {
      var n := |rows| - 1;
      assert Buckets(rows)[..n] == Buckets(rows[..n]);
      GroupSize(rows[..n], b);
    }
  }

  lemma GroupOfPresentLabel(rows: seq<Row>, b: string)
    requires b in Buckets(rows)
    ensures Group(rows, b) != []
  {
    GroupSize(rows, b);
    CountIsMultiplicity(Buckets(rows), b);
  }

  function SumTargets(g: seq<Row>): int {
    if g == [] then 0 else g[0].target + SumTargets(g[1..])
  }

  predicate BinaryTargets(g: seq<Row>) {
    forall i :: 0 <= i < |g| ==> g[i].target == 0 || g[i].target == 1
  }

  /** With 0/1 targets the target sum counts the events: between 0 and the size. */
  lemma {:induction false} EventsAtMostSize(g: seq<Row>)
    requires BinaryTargets(g)
    ensures 0 <= SumTargets(g) <= |g|
  {
    if g != [] {
      assert BinaryTargets(g[1..]) by {
        assert forall i :: 0 <= i < |g| - 1 ==> g[1..][i] == g[i + 1];
      }
      EventsAtMostSize(g[1..]);
    }
  }

  /** `score_min`: a score of the group no other score of it undercuts. */
  function MinScore(g: seq<Row>): (m: real)
    requires g != []
    ensures forall i :: 0 <= i < |g| ==> m <= g[i].score
    ensures exists i :: 0 <= i < |g| && g[i].score == m
  {
    if |g| == 1 then g[0].score
    else
      var m := MinScore(g[1..]);
      assert forall i :: 1 <= i < |g| ==> g[i] == g[1..][i - 1];
      if g[0].score <= m then g[0].score else m
  }

  /** `score_max`: a score of the group no other score of it exceeds. */
  function MaxScore(g: seq<Row>): (m: real)
    requires g != []
    ensures forall i :: 0 <= i < |g| ==> g[i].score <= m
    ensures exists i :: 0 <= i < |g| && g[i].score == m
  {
    if |g| == 1 then g[0].score
    else
      var m := MaxScore(g[1..]);
      assert forall i :: 1 <= i < |g| ==> g[i] == g[1..][i - 1];
      if g[0].score >= m then g[0].score else m
  }

  /** The members of a group are exactly the rows carrying its label. */
  lemma {:induction false} GroupMembers(rows: seq<Row>, b: string)
    ensures forall r :: r in Group(rows, b) <==> r in rows && r.bucket == b
    decreases |rows|
  {
    if rows != [] {
      var n := |rows| - 1;
      assert rows == rows[..n] + [rows[n]];
      GroupMembers(rows[..n], b);
    }
  }

  /** `event_rate`: the mean target of a non-empty group. */
  function Mean(g: seq<Row>): (m: real)
    requires g != []
    ensures m * |g| as real == SumTargets(g) as real
    ensures BinaryTargets(g) ==> 0.0 <= m <= 1.0
  {
    var m := SumTargets(g) as real / |g| as real;
    assert BinaryTargets(g) ==> 0.0 <= m <= 1.0 by {
      if BinaryTargets(g) {
        EventsAtMostSize(g);
        FractionInUnit(SumTargets(g), |g|);
      }
    }
    m
  }

  /** A group of rows with 0/1 targets has 0/1 targets. */
  lemma GroupKeepsBinary(rows: seq<Row>, b: string)
    requires BinaryTargets(rows)
    ensures BinaryTargets(Group(rows, b))
  {
    var g := Group(rows, b);
    GroupMembers(rows, b);
    forall i | 0 <= i < |g| ensures g[i].target == 0 || g[i].target == 1 {
      assert g[i] in rows;
    }
  }

  /** The aggregate of one group: size, mean target, minimum and maximum score. */
  function Summarize(rows: seq<Row>, b: string, ordered: seq<string>): (t: TableRow)
    requires b in Buckets(rows)
    ensures t.bucket == (if b in ordered then Some(b) else None)
    ensures t.volume == Count(Buckets(rows), b) > 0
    ensures |Group(rows, b)| == t.volume && t.eventRate == Mean(Group(rows, b))
    ensures forall r :: r in rows && r.bucket == b ==> t.scoreMin <= r.score <= t.scoreMax
    ensures exists r :: r in rows && r.bucket == b && r.score == t.scoreMin
    ensures exists r :: r in rows && r.bucket == b && r.score == t.scoreMax
    ensures BinaryTargets(rows) ==> 0.0 <= t.eventRate <= 1.0
  {
    var g := Group(rows, b);
    GroupSize(rows, b);
    GroupOfPresentLabel(rows, b);
    GroupMembers(rows, b);
    assert BinaryTargets(rows) ==> BinaryTargets(g) by {
      if BinaryTargets(rows) { GroupKeepsBinary(rows, b); }
    }
    var lo, hi := MinScore(g), MaxScore(g);
    assert exists i :: 0 <= i < |g| && g[i].score == lo;
    assert exists i :: 0 <= i < |g| && g[i].score == hi;
    TableRow(if b in ordered then Some(b) else None, |g|, Mean(g), lo, hi)
  }

  /* ---------- ordering by the list of labels ---------- */

  /** The sort key of a label: labels earlier in the list come first in a
      descending sort; labels outside the list never reach this sort. */
  function Rank(ordered: seq<string>): string -> real {
    k => if k in ordered then -(IndexOf(ordered, k) as real) else 0.0
  }

  /** The group labels that are in the list, sorted by their position in it. */
  function KnownKeys(keys: seq<string>, ordered: seq<string>): seq<string> {
    Sorting.SortDesc(Filter(keys, k => k in ordered), Rank(ordered))
  }

  /** The group labels that are not in the list, in groupby order. */
  function UnknownKeys(keys: seq<string>, ordered: seq<string>): seq<string> {
    Filter(keys, k => k !in ordered)
  }

  /** Labels of the table's rows, in output order. */
  function TableKeys(rows: seq<Row>, ordered: seq<string>): (ks: seq<string>)
    ensures forall k :: k in ks <==> k in Buckets(rows)
  {
    var keys := GroupKeys(rows);
    KnownKeysMembers(keys, ordered);
    KnownKeys(keys, ordered) + UnknownKeys(keys, ordered)
  }

  lemma KnownKeysFacts(keys: seq<string>, ordered: seq<string>)
    requires Ascending(keys) && Distinct(ordered)
    ensures var s := KnownKeys(keys, ordered);
      && Distinct(s)
      && (forall x :: x in s <==> x in keys && x in ordered)
      && (forall i, j :: 0 <= i < j < |s| ==> s[i] in ordered && s[j] in ordered && IndexOf(ordered, s[i]) < IndexOf(ordered, s[j]))
  {
    KnownKeysMembers(keys, ordered);
    RankedOrder(KnownKeys(keys, ordered), ordered);
  }

  lemma KnownKeysMembers(keys: seq<string>, ordered: seq<string>)
    requires Ascending(keys)
    ensures Distinct(KnownKeys(keys, ordered))
    ensures forall x :: x in KnownKeys(keys, ordered) <==> x in keys && x in ordered
  {
    var f := Filter(keys, k => k in ordered);
    var s := KnownKeys(keys, ordered);
    assert multiset(s) == multiset(f);
    FilterKeepsAscending(keys, k => k in ordered);
    AscendingIsDistinct(f);
    DistinctPermutation(f, s);
    assert forall x :: x in s <==> x in multiset(f);
  }

  /** Distinct labels of the list, sorted by Rank, follow the list's order. */
  lemma RankedOrder(s: seq<string>, ordered: seq<string>)
    requires Distinct(s) && Sorting.SortedDesc(s, Rank(ordered))
    requires forall x :: x in s ==> x in ordered
    ensures forall i, j :: 0 <= i < j < |s| ==> s[i] in ordered && s[j] in ordered && IndexOf(ordered, s[i]) < IndexOf(ordered, s[j])
  {
    forall i, j | 0 <= i < j < |s|
      ensures s[i] in ordered && s[j] in ordered && IndexOf(ordered, s[i]) < IndexOf(ordered, s[j])
    {
      var a, c := s[i], s[j];
      assert a in ordered && c in ordered;
      var ia, ic := IndexOf(ordered, a), IndexOf(ordered, c);
      assert Rank(ordered)(a) == -(ia as real) && Rank(ordered)(c) == -(ic as real);
      assert Rank(ordered)(a) >= Rank(ordered)(c);
      assert ia != ic by {
        assert a != c;
        assert ordered[ia] == a && ordered[ic] == c;
      }
    }
  }

  lemma UnknownKeysFacts(keys: seq<string>, ordered: seq<string>)
    requires Ascending(keys)
    ensures var u := UnknownKeys(keys, ordered);
      && Ascending(u) && Distinct(u)
      && (forall x :: x in u <==> x in keys && x !in ordered)
  {
    FilterKeepsAscending(keys, k => k !in ordered);
    AscendingIsDistinct(UnknownKeys(keys, ordered));
  }

  /** The table has one row per label present in the input, and no other. */
  lemma {:induction false} TableKeysAreGroups(rows: seq<Row>, ordered: seq<string>)
    requires Distinct(ordered)
    ensures Distinct(TableKeys(rows, ordered))
    ensures forall b :: b in TableKeys(rows, ordered) <==> b in Buckets(rows)
  {
    var keys := GroupKeys(rows);
    var s, u := KnownKeys(keys, ordered), UnknownKeys(keys, ordered);
    KnownKeysFacts(keys, ordered);
    UnknownKeysFacts(keys, ordered);
    forall i, j | 0 <= i < |s| && 0 <= j < |u| ensures s[i] != u[j] {
      assert s[i] in s && u[j] in u;
    }
    DistinctConcat(s, u);
  }

  /** Known labels in list order followed by unknown labels in ascending order. */
  lemma {:induction false} ConcatOrder(s: seq<string>, u: seq<string>, ordered: seq<string>)
    requires forall i :: 0 <= i < |s| ==> s[i] in ordered
    requires forall i, j :: 0 <= i < j < |s| ==> s[i] in ordered && s[j] in ordered && IndexOf(ordered, s[i]) < IndexOf(ordered, s[j])
    requires forall i :: 0 <= i < |u| ==> u[i] !in ordered
    requires Ascending(u)
    ensures var t := s + u;
      && (forall i, j :: 0 <= i < j < |t| && t[j] in ordered ==> t[i] in ordered)
      && (forall i, j :: 0 <= i < j < |t| && t[i] in ordered && t[j] in ordered ==> IndexOf(ordered, t[i]) < IndexOf(ordered, t[j]))
      && (forall i, j :: 0 <= i < j < |t| && t[i] !in ordered ==> t[j] !in ordered && StrLess(t[i], t[j]))
  {
    var t := s + u;
    assert forall i :: 0 <= i < |t| ==> (t[i] in ordered <==> i < |s|) by {
      forall i | 0 <= i < |t| ensures t[i] in ordered <==> i < |s| {
        if i < |s| { assert t[i] == s[i]; } else { assert t[i] == u[i - |s|]; }
      }
    }
    forall i, j | 0 <= i < j < |t| && t[i] in ordered && t[j] in ordered
      ensures IndexOf(ordered, t[i]) < IndexOf(ordered, t[j])
    {
      assert t[i] == s[i] && t[j] == s[j];
    }
    forall i, j | 0 <= i < j < |t| && t[i] !in ordered ensures t[j] !in ordered && StrLess(t[i], t[j]) {
      var i', j' := i - |s|, j - |s|;
      assert t[i] == u[i'] && t[j] == u[j'];
    }
  }

  /** Rows whose label is in the list come first, in the list's order; the
      others follow in ascending order of their (now missing) label. */
  lemma TableKeysOrder(rows: seq<Row>, ordered: seq<string>)
    requires Distinct(ordered)
    ensures var t := TableKeys(rows, ordered);
      && (forall i, j :: 0 <= i < j < |t| && t[j] in ordered ==> t[i] in ordered)
      && (forall i, j :: 0 <= i < j < |t| && t[i] in ordered && t[j] in ordered ==> IndexOf(ordered, t[i]) < IndexOf(ordered, t[j]))
      && (forall i, j :: 0 <= i < j < |t| && t[i] !in ordered ==> t[j] !in ordered && StrLess(t[i], t[j]))
  {
    var keys := GroupKeys(rows);
    var s, u := KnownKeys(keys, ordered), UnknownKeys(keys, ordered);
    KnownKeysFacts(keys, ordered);
    UnknownKeysFacts(keys, ordered);
    assert forall i :: 0 <= i < |s| ==> s[i] in ordered by {
      forall i | 0 <= i < |s| ensures s[i] in ordered { assert s[i] in s; }
    }
    assert forall i :: 0 <= i < |u| ==> u[i] !in ordered by {
      forall i | 0 <= i < |u| ensures u[i] !in ordered { assert u[i] in u; }
    }
    ConcatOrder(s, u, ordered);
  }

  /** construct_metrics_table(df, quantil_col, score_col, target_col, ordered_labels). */
  function ConstructMetricsTable(rows: seq<Row>, ordered: seq<string>): (r: Result<seq<TableRow>, TableError>)
    ensures r.Err? <==> !Distinct(ordered)
    ensures r.Ok? ==> |r.value| == |TableKeys(rows, ordered)|
    ensures r.Ok? ==> forall i :: 0 <= i < |r.value| ==>
      TableKeys(rows, ordered)[i] in Buckets(rows) &&
      r.value[i] == Summarize(rows, TableKeys(rows, ordered)[i], ordered)
    ensures r.Ok? ==> var t := r.value;
      && (forall i :: 0 <= i < |t| ==> t[i].volume > 0 && t[i].scoreMin <= t[i].scoreMax)
      && (forall i :: 0 <= i < |t| && BinaryTargets(rows) ==> 0.0 <= t[i].eventRate <= 1.0)
      && (forall i :: 0 <= i < |t| && t[i].bucket.Some? ==> t[i].bucket.value in ordered && t[i].bucket.value in Buckets(rows))
      && (forall i, j :: 0 <= i < j < |t| && t[j].bucket.Some? ==> t[i].bucket.Some?)
      && (forall i, j :: 0 <= i < j < |t| && t[i].bucket.Some? && t[j].bucket.Some? ==>
            IndexOf(ordered, t[i].bucket.value) < IndexOf(ordered, t[j].bucket.value))
  {
    if !Distinct(ordered) then Err(DuplicateLabels)
    else
      var keys := TableKeys(rows, ordered);
      TableKeysAreGroups(rows, ordered);
      var t := seq(|keys|, i requires 0 <= i < |keys| => Summarize(rows, keys[i], ordered));
      SummaryFacts(rows, ordered, keys, t);
      SummaryOrder(rows, ordered, keys, t);
      Ok(t)
  }

  /** Each summary row has rows behind it and labels a group of the input. */
  lemma SummaryFacts(rows: seq<Row>, ordered: seq<string>, keys: seq<string>, t: seq<TableRow>)
    requires |t| == |keys|
    requires forall i :: 0 <= i < |t| ==> keys[i] in Buckets(rows) && t[i] == Summarize(rows, keys[i], ordered)
    ensures forall i :: 0 <= i < |t| ==> t[i].volume > 0 && t[i].scoreMin <= t[i].scoreMax
    ensures forall i :: 0 <= i < |t| && BinaryTargets(rows) ==> 0.0 <= t[i].eventRate <= 1.0
    ensures forall i :: 0 <= i < |t| && t[i].bucket.Some? ==> t[i].bucket.value in ordered && t[i].bucket.value in Buckets(rows)
  {
    forall i | 0 <= i < |t|
      ensures t[i].volume > 0 && t[i].scoreMin <= t[i].scoreMax
      ensures BinaryTargets(rows) ==> 0.0 <= t[i].eventRate <= 1.0
      ensures t[i].bucket.Some? ==> t[i].bucket.value in ordered && t[i].bucket.value in Buckets(rows)
    {
      assert t[i] == Summarize(rows, keys[i], ordered);
    }
  }

  /** The summary rows follow the order of the table's labels. */
  lemma SummaryOrder(rows: seq<Row>, ordered: seq<string>, keys: seq<string>, t: seq<TableRow>)
    requires Distinct(ordered) && keys == TableKeys(rows, ordered) && |t| == |keys|
    requires forall i :: 0 <= i < |t| ==> t[i].bucket == if keys[i] in ordered then Some(keys[i]) else None
    ensures forall i, j :: 0 <= i < j < |t| && t[j].bucket.Some? ==> t[i].bucket.Some?
    ensures forall i, j :: 0 <= i < j < |t| && t[i].bucket.Some? && t[j].bucket.Some? ==>
      t[i].bucket.value in ordered && t[j].bucket.value in ordered &&
      IndexOf(ordered, t[i].bucket.value) < IndexOf(ordered, t[j].bucket.value)
  {
    TableKeysOrder(rows, ordered);
    forall i, j | 0 <= i < j < |t| && t[j].bucket.Some? ensures t[i].bucket.Some? {
      assert keys[j] in ordered;
    }
    forall i, j | 0 <= i < j < |t| && t[i].bucket.Some? && t[j].bucket.Some?
      ensures t[i].bucket.value in ordered && t[j].bucket.value in ordered
      ensures IndexOf(ordered, t[i].bucket.value) < IndexOf(ordered, t[j].bucket.value)
    {
      assert keys[i] in ordered && keys[j] in ordered;
    }
  }

  function TotalVolume(t: seq<TableRow>): nat {
    if t == [] then 0 else TotalVolume(t[..|t| - 1]) + t[|t| - 1].volume
  }

  lemma {:induction false} TotalVolumeIsSumCounts(t: seq<TableRow>, xs: seq<string>, ks: seq<string>)
    requires |t| == |ks|
    requires forall i :: 0 <= i < |t| ==> t[i].volume == Count(xs, ks[i])
    ensures TotalVolume(t) == SumCounts(xs, ks)
    decreases |t|
  {
    if t != [] {
      var m := |t| - 1;
      TotalVolumeIsSumCounts(t[..m], xs, ks[..m]);
    }
  }

  /** Every input row is counted in exactly one bucket: the volumes add up to the number of rows. */
  lemma VolumesSumToRowCount(rows: seq<Row>, ordered: seq<string>)
    requires Distinct(ordered)
    ensures ConstructMetricsTable(rows, ordered).Ok?
    ensures TotalVolume(ConstructMetricsTable(rows, ordered).value) == |rows|
  {
    var keys := TableKeys(rows, ordered);
    TableKeysAreGroups(rows, ordered);
    var xs := Buckets(rows);
    assert forall i :: 0 <= i < |xs| ==> xs[i] in keys by {
      forall i | 0 <= i < |xs| ensures xs[i] in keys { assert xs[i] in xs; }
    }
    SumCountsCoversAll(xs, keys);
    var t := ConstructMetricsTable(rows, ordered).value;
    assert forall i :: 0 <= i < |t| ==> t[i].volume == Count(xs, keys[i]) by {
      forall i | 0 <= i < |t| ensures t[i].volume == Count(xs, keys[i]) {
        assert t[i] == Summarize(rows, keys[i], ordered);
      }
    }
    TotalVolumeIsSumCounts(t, xs, keys);
  }

  /** Buckets Q1 (targets 0, 0, 1) and Q2 (targets 1, 1), listed as ["Q1", "Q2"]:
      the table is Q1 with volume 3 and event rate 1/3, then Q2 with volume 2
      and event rate 1. */
  lemma TwoBucketExample(rows: seq<Row>, ordered: seq<string>)
    requires rows == [Row("Q1", 0.1, 0), Row("Q2", 0.8, 1), Row("Q1", 0.3, 1), Row("Q2", 0.9, 1), Row("Q1", 0.2, 0)]
    requires ordered == ["Q1", "Q2"]
    ensures var r := ConstructMetricsTable(rows, ordered);
      && r.Ok? && |r.value| == 2
      && r.value[0] == TableRow(Some("Q1"), 3, 1.0 / 3.0, 0.1, 0.3)
      && r.value[1] == TableRow(Some("Q2"), 2, 1.0, 0.8, 0.9)
  {
    ExampleTableShape(rows, ordered);
    ExampleSummaries(rows, ordered);
  }

  lemma ExampleTableShape(rows: seq<Row>, ordered: seq<string>)
    requires rows == [Row("Q1", 0.1, 0), Row("Q2", 0.8, 1), Row("Q1", 0.3, 1), Row("Q2", 0.9, 1), Row("Q1", 0.2, 0)]
    requires ordered == ["Q1", "Q2"]
    ensures "Q1" in Buckets(rows) && "Q2" in Buckets(rows)
    ensures var r := ConstructMetricsTable(rows, ordered);
      r.Ok? && |r.value| == 2 && r.value[0] == Summarize(rows, "Q1", ordered) && r.value[1] == Summarize(rows, "Q2", ordered)
  {
    assert Buckets(rows)[0] == "Q1" && Buckets(rows)[1] == "Q2";
    assert Distinct(ordered);
    var keys := TableKeys(rows, ordered);
    assert keys == ["Q1", "Q2"] by {
      ExampleTableKeys(rows, ordered);
    }
    var r := ConstructMetricsTable(rows, ordered);
    assert r.value[0] == Summarize(rows, keys[0], ordered);
    assert r.value[1] == Summarize(rows, keys[1], ordered);
  }

  lemma ExampleSummaries(rows: seq<Row>, ordered: seq<string>)
    requires rows == [Row("Q1", 0.1, 0), Row("Q2", 0.8, 1), Row("Q1", 0.3, 1), Row("Q2", 0.9, 1), Row("Q1", 0.2, 0)]
    requires ordered == ["Q1", "Q2"]
    ensures "Q1" in Buckets(rows) && Summarize(rows, "Q1", ordered) == TableRow(Some("Q1"), 3, 1.0 / 3.0, 0.1, 0.3)
    ensures "Q2" in Buckets(rows) && Summarize(rows, "Q2", ordered) == TableRow(Some("Q2"), 2, 1.0, 0.8, 0.9)
  {
    ExampleGroups(rows);
    assert Buckets(rows)[0] == "Q1" && Buckets(rows)[1] == "Q2";
    ExampleMeans(rows[0], rows[1], rows[2], rows[3], rows[4]);
    SummaryFromGroup(rows, ordered, "Q1", [rows[0], rows[2], rows[4]], TableRow(Some("Q1"), 3, 1.0 / 3.0, 0.1, 0.3), 0, 1);
    SummaryFromGroup(rows, ordered, "Q2", [rows[1], rows[3]], TableRow(Some("Q2"), 2, 1.0, 0.8, 0.9), 0, 1);
  }

  lemma ExampleMeans(r0: Row, r1: Row, r2: Row, r3: Row, r4: Row)
    requires r0.target == 0 && r2.target == 1 && r4.target == 0 && r1.target == 1 && r3.target == 1
    ensures Mean([r0, r2, r4]) == 1.0 / 3.0 && Mean([r1, r3]) == 1.0
  {
    assert [r0, r2, r4][1..] == [r2, r4] && [r2, r4][1..] == [r4] && [r4][1..] == [];
    assert SumTargets([r4]) == 0;
    assert SumTargets([r2, r4]) == 1;
    assert SumTargets([r0, r2, r4]) == 1;
    assert [r1, r3][1..] == [r3] && [r3][1..] == [];
    assert SumTargets([r3]) == 1;
    assert SumTargets([r1, r3]) == 2;
  }

  lemma ExampleTableKeys(rows: seq<Row>, ordered: seq<string>)
    requires rows == [Row("Q1", 0.1, 0), Row("Q2", 0.8, 1), Row("Q1", 0.3, 1), Row("Q2", 0.9, 1), Row("Q1", 0.2, 0)]
    requires ordered == ["Q1", "Q2"]
    ensures TableKeys(rows, ordered) == ["Q1", "Q2"]
  {
    ExampleKeys(rows);
    ExampleKnownKeys(ordered);
    ExampleUnknownKeys(ordered);
  }

  lemma ExampleKnownKeys(ordered: seq<string>)
    requires ordered == ["Q1", "Q2"]
    ensures KnownKeys(["Q1", "Q2"], ordered) == ["Q1", "Q2"]
  {
    var keys := ["Q1", "Q2"];
    assert [keys[0]][..0] == [];
    assert keys[..1] == [keys[0]];
    assert Filter(keys, k => k in ordered) == keys;
    assert Sorting.SortDesc(keys, Rank(ordered)) == keys by {
      assert Rank(ordered)("Q1") == 0.0 && Rank(ordered)("Q2") == -1.0;
    }
  }

  lemma ExampleUnknownKeys(ordered: seq<string>)
    requires ordered == ["Q1", "Q2"]
    ensures UnknownKeys(["Q1", "Q2"], ordered) == []
  {
    var keys := ["Q1", "Q2"];
    assert keys[..1] == [keys[0]];
    assert Filter(keys, k => k !in ordered) == [];
  }

  /** The summary of a group, read off the group itself. */
  lemma SummaryFromGroup(rows: seq<Row>, ordered: seq<string>, b: string, g: seq<Row>, expected: TableRow, lo: nat, hi: nat)
    requires b in Buckets(rows) && Group(rows, b) == g
    requires b in ordered && expected.bucket == Some(b) && expected.volume == |g|
    requires g != [] && expected.eventRate == Mean(g)
    requires forall i :: 0 <= i < |g| ==> expected.scoreMin <= g[i].score <= expected.scoreMax
    requires lo < |g| && hi < |g| && g[lo].score == expected.scoreMin && g[hi].score == expected.scoreMax
    ensures Summarize(rows, b, ordered) == expected
  {
    GroupSize(rows, b);
    var t := Summarize(rows, b, ordered);
    assert t.scoreMin == expected.scoreMin by {
      GroupMembers(rows, b);
      assert g[lo] in rows;
      var a :| a in rows && a.bucket == b && a.score == t.scoreMin;
      assert a in g;
    }
    assert t.scoreMax == expected.scoreMax by {
      GroupMembers(rows, b);
      assert g[hi] in rows;
      var c :| c in rows && c.bucket == b && c.score == t.scoreMax;
      assert c in g;
    }
  }

  lemma ExampleKeys(rows: seq<Row>)
    requires rows == [Row("Q1", 0.1, 0), Row("Q2", 0.8, 1), Row("Q1", 0.3, 1), Row("Q2", 0.9, 1), Row("Q1", 0.2, 0)]
    ensures GroupKeys(rows) == ["Q1", "Q2"]
  {
    assert StrLess("Q1", "Q2") && !StrLess("Q2", "Q1");
    forall k | 1 <= k <= 5 ensures rows[..k][..k - 1] == rows[..k - 1] && rows[..k][k - 1] == rows[k - 1] { }
    assert rows[..5] == rows;
    assert GroupKeys(rows[..1]) == ["Q1"];
    assert InsertKey("Q2", ["Q1"]) == ["Q1", "Q2"];
    assert GroupKeys(rows[..2]) == ["Q1", "Q2"];
    assert GroupKeys(rows[..3]) == ["Q1", "Q2"];
    assert ["Q1", "Q2"][1..] == ["Q2"];
    assert InsertKey("Q2", ["Q1", "Q2"]) == ["Q1", "Q2"];
    assert GroupKeys(rows[..4]) == ["Q1", "Q2"];
  }

  /** Adding a row at the end adds it to its own group only. */
  lemma GroupSnoc(rows: seq<Row>, r: Row, b: string)
    ensures Group(rows + [r], b) == Group(rows, b) + (if r.bucket == b then [r] else [])
  {
    assert (rows + [r])[..|rows|] == rows;
  }

  lemma ExampleGroups(rows: seq<Row>)
    requires rows == [Row("Q1", 0.1, 0), Row("Q2", 0.8, 1), Row("Q1", 0.3, 1), Row("Q2", 0.9, 1), Row("Q1", 0.2, 0)]
    ensures Group(rows, "Q1") == [rows[0], rows[2], rows[4]]
    ensures Group(rows, "Q2") == [rows[1], rows[3]]
  {
    var p1 := [rows[0]];
    var p2 := p1 + [rows[1]];
    var p3 := p2 + [rows[2]];
    var p4 := p3 + [rows[3]];
    assert rows == p4 + [rows[4]];
    assert p1 == [] + [rows[0]];
    GroupSnoc([], rows[0], "Q1");
    GroupSnoc(p1, rows[1], "Q1");
    GroupSnoc(p2, rows[2], "Q1");
    GroupSnoc(p3, rows[3], "Q1");
    GroupSnoc(p4, rows[4], "Q1");
    GroupSnoc([], rows[0], "Q2");
    GroupSnoc(p1, rows[1], "Q2");
    GroupSnoc(p2, rows[2], "Q2");
    GroupSnoc(p3, rows[3], "Q2");
    GroupSnoc(p4, rows[4], "Q2");
  }
}
