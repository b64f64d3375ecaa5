/** Descending sort by a real-valued key, as pandas' `sort_values(ascending=False)`.
    The sort pandas uses is not stable, so the model never relies on the order
    it gives to equal keys: callers either take the sorted sequence as an input
    constrained by IsSortedDescBy, or use SortDesc only where the promise made
    about the result holds for every tie order. */
module Sorting {

  predicate SortedDesc<T>(s: seq<T>, key: T -> real) {
    forall i, j :: 0 <= i < j < |s| ==> key(s[i]) >= key(s[j])
  }

  /** `sorted` is one of the sequences a descending sort of `s` may return. */
  ghost predicate IsSortedDescBy<T>(s: seq<T>, sorted: seq<T>, key: T -> real) {
    multiset(sorted) == multiset(s) && SortedDesc(sorted, key)
  }

  function InsertDesc<T>(x: T, s: seq<T>, key: T -> real): (r: seq<T>)
    requires SortedDesc(s, key)
    ensures SortedDesc(r, key)
    ensures multiset(r) == multiset(s) + multiset{x}
    ensures s != [] ==> r[0] == x || r[0] == s[0]
    ensures s == [] ==> r == [x]
  {
    if s == [] || key(x) >= key(s[0]) then
      [x] + s
    else
      TailSorted(s, key);
      var r := InsertDesc(x, s[1..], key);
      InsertBehind(x, s, key, r);
      [s[0]] + r
  }

  lemma TailSorted<T>(s: seq<T>, key: T -> real)
    requires s != [] && SortedDesc(s, key)
    ensures SortedDesc(s[1..], key)
  {
    var t := s[1..];
    forall i, j | 0 <= i < j < |t| ensures key(t[i]) >= key(t[j]) {
      assert t[i] == s[i + 1] && t[j] == s[j + 1];
    }
  }

  /** Inserting x behind the head of s, where x ranks below the head. */
  lemma InsertBehind<T>(x: T, s: seq<T>, key: T -> real, r: seq<T>)
    requires s != [] && SortedDesc(s, key) && key(x) < key(s[0])
    requires SortedDesc(r, key) && multiset(r) == multiset(s[1..]) + multiset{x}
    ensures SortedDesc([s[0]] + r, key)
    ensures multiset([s[0]] + r) == multiset(s) + multiset{x}
  {
    var t := s[1..];
    assert s == [s[0]] + t;
    forall j | 0 <= j < |r| ensures key(s[0]) >= key(r[j]) {
      assert r[j] in multiset(r);
      if r[j] != x {
        assert r[j] in multiset(t);
        var k :| 0 <= k < |t| && t[k] == r[j];
        assert s[k + 1] == r[j];
      }
    }
    var u := [s[0]] + r;
    forall i, j | 0 <= i < j < |u| ensures key(u[i]) >= key(u[j]) {
      if i > 0 { assert u[i] == r[i - 1] && u[j] == r[j - 1]; }
      else { assert u[j] == r[j - 1]; }
    }
  }

  /** An insertion sort: for every input some descending order exists. */
  function SortDesc<T>(s: seq<T>, key: T -> real): (r: seq<T>)
    ensures IsSortedDescBy(s, r, key)
  {
    if s == [] then []
    else
      assert s == [s[0]] + s[1..];
      InsertDesc(s[0], SortDesc(s[1..], key), key)
  }
}
