/** Data points, sorted sequences, and the standard-library algorithms the container calls. */
module SortedData {

  /** A double that is not used as a sort key. */
  datatype Num = NaN | Inf(positive: bool) | Fin(r: real)

  /** A point of a plottable: its two keys, its main value and the value range it spans. */
  datatype DataPoint = DataPoint(sortKey: real, mainKey: real, mainValue: Num, lower: Num, upper: Num)

  /** qcpLessThanSortKey */
  predicate LessThan(a: DataPoint, b: DataPoint) {
    a.sortKey < b.sortKey
  }

  predicate Sorted(s: seq<DataPoint>) {
    forall i, j | 0 <= i < j < |s| :: s[i].sortKey <= s[j].sortKey
  }

  lemma SortedJoin(a: seq<DataPoint>, b: seq<DataPoint>)
    requires Sorted(a) && Sorted(b)
    requires a == [] || b == [] || a[|a| - 1].sortKey <= b[0].sortKey
    ensures Sorted(a + b)
  {
    forall i, j | 0 <= i < j < |a + b| ensures (a + b)[i].sortKey <= (a + b)[j].sortKey {
      if i < |a| <= j {
        assert a[i].sortKey <= a[|a| - 1].sortKey && b[0].sortKey <= b[j - |a|].sortKey;
      }
    }
  }

  // ---- std::lower_bound and std::upper_bound ----

  /** i splits s into the points below the key and the others. */
  predicate IsLowerBound(s: seq<DataPoint>, key: real, i: int) {
    && 0 <= i <= |s|
    && (forall j | 0 <= j < i :: s[j].sortKey < key)
    && (forall j | i <= j < |s| :: key <= s[j].sortKey)
  }

  /** i splits s into the points not above the key and the others. */
  predicate IsUpperBound(s: seq<DataPoint>, key: real, i: int) {
    && 0 <= i <= |s|
    && (forall j | 0 <= j < i :: s[j].sortKey <= key)
    && (forall j | i <= j < |s| :: key < s[j].sortKey)
  }

  method LowerBound(s: seq<DataPoint>, key: real) returns (first: int)
    requires Sorted(s)
    ensures IsLowerBound(s, key, first)
  {
    first := 0;
    var len := |s|;
    while len > 0
      invariant 0 <= first <= first + len <= |s|
      invariant forall j | 0 <= j < first :: s[j].sortKey < key
      invariant forall j | first + len <= j < |s| :: key <= s[j].sortKey
    {
      var half := len / 2;
      var middle := first + half;
      if s[middle].sortKey < key {
        first := middle + 1;
        len := len - half - 1;
      } else {
        len := half;
      }
    }
  }

  method UpperBound(s: seq<DataPoint>, key: real) returns (first: int)
    requires Sorted(s)
    ensures IsUpperBound(s, key, first)
  {
    first := 0;
    var len := |s|;
    while len > 0
      invariant 0 <= first <= first + len <= |s|
      invariant forall j | 0 <= j < first :: s[j].sortKey <= key
      invariant forall j | first + len <= j < |s| :: key < s[j].sortKey
    {
      var half := len / 2;
      var middle := first + half;
      if key < s[middle].sortKey {
        len := half;
      } else {
        first := middle + 1;
        len := len - half - 1;
      }
    }
  }

  // ---- std::inplace_merge and std::sort ----

  /** The stable merge of two sorted sequences. */
  function Merged(a: seq<DataPoint>, b: seq<DataPoint>): seq<DataPoint>
    decreases |a| + |b|
  {
    if a == [] then b
    else if b == [] then a
    else if LessThan(b[0], a[0]) then [b[0]] + Merged(a, b[1..])
    else [a[0]] + Merged(a[1..], b)
  }

  /** A merge is sorted and keeps exactly the points of both sides. */
  lemma MergedSortsBoth(a: seq<DataPoint>, b: seq<DataPoint>)
    requires Sorted(a) && Sorted(b)
    ensures Sorted(Merged(a, b))
    ensures multiset(Merged(a, b)) == multiset(a) + multiset(b)
    ensures |Merged(a, b)| == |a| + |b|
  {
    hide Merged, Sorted;
    MergedSorted(a, b);
    MergedKeeps(a, b);
  }

  lemma BagCons(s: seq<DataPoint>)
    requires s != []
    ensures multiset(s) == multiset{s[0]} + multiset(s[1..])
  {
    assert s == [s[0]] + s[1..];
  }

  lemma BagPush(p: DataPoint, s: seq<DataPoint>)
    ensures multiset([p] + s) == multiset{p} + multiset(s)
  {}

  lemma {:induction false} MergedKeeps(a: seq<DataPoint>, b: seq<DataPoint>)
    ensures multiset(Merged(a, b)) == multiset(a) + multiset(b)
    ensures |Merged(a, b)| == |a| + |b|
    decreases |a| + |b|
  {
    hide LessThan;
    if a != [] && b != [] {
      if LessThan(b[0], a[0]) {
        var rest := Merged(a, b[1..]);
        MergedKeeps(a, b[1..]);
        assert Merged(a, b) == [b[0]] + rest;
        BagCons(b);
        BagPush(b[0], rest);
      } else {
        var rest := Merged(a[1..], b);
        MergedKeeps(a[1..], b);
        assert Merged(a, b) == [a[0]] + rest;
        BagCons(a);
        BagPush(a[0], rest);
      }
    }
  }

  lemma {:induction false} MergedSorted(a: seq<DataPoint>, b: seq<DataPoint>)
    requires Sorted(a) && Sorted(b)
    ensures Sorted(Merged(a, b))
    decreases |a| + |b|
  {
    if a != [] && b != [] {
      if LessThan(b[0], a[0]) {
        MergedSorted(a, b[1..]);
        MergedAtLeast(a, b[1..], b[0].sortKey);
        SortedCons(b[0], Merged(a, b[1..]));
      } else {
        MergedSorted(a[1..], b);
        MergedAtLeast(a[1..], b, a[0].sortKey);
        SortedCons(a[0], Merged(a[1..], b));
      }
    }
  }

  predicate AtLeast(s: seq<DataPoint>, key: real) {
    forall i | 0 <= i < |s| :: key <= s[i].sortKey
  }

  lemma SortedCons(p: DataPoint, s: seq<DataPoint>)
    requires Sorted(s) && AtLeast(s, p.sortKey)
    ensures Sorted([p] + s)
  {}

  lemma {:induction false} MergedAtLeast(a: seq<DataPoint>, b: seq<DataPoint>, key: real)
    requires AtLeast(a, key) && AtLeast(b, key)
    ensures AtLeast(Merged(a, b), key)
    decreases |a| + |b|
  {
    if a != [] && b != [] {
      if LessThan(b[0], a[0]) {
        MergedAtLeast(a, b[1..], key);
      } else {
        MergedAtLeast(a[1..], b, key);
      }
    }
  }

  /** The points with one key, in order. */
  function WithKey(s: seq<DataPoint>, key: real): seq<DataPoint> {
    if s == [] then [] else (if s[0].sortKey == key then [s[0]] else []) + WithKey(s[1..], key)
  }

  lemma {:induction false} WithoutKey(s: seq<DataPoint>, key: real)
    requires forall i | 0 <= i < |s| :: s[i].sortKey != key
    ensures WithKey(s, key) == []
  {
    if s != [] { WithoutKey(s[1..], key); }
  }

  /** The merge is stable: of the points with one key, those of the first side come first, each side in its order. */
  lemma {:induction false} MergedStable(a: seq<DataPoint>, b: seq<DataPoint>, key: real)
    requires Sorted(a) && Sorted(b)
    ensures WithKey(Merged(a, b), key) == WithKey(a, key) + WithKey(b, key)
    decreases |a| + |b|
  {
    if a != [] && b != [] {
      if LessThan(b[0], a[0]) {
        MergedStable(a, b[1..], key);
        assert Merged(a, b)[1..] == Merged(a, b[1..]);
        if b[0].sortKey == key { WithoutKey(a, key); }
      } else {
        MergedStable(a[1..], b, key);
        assert Merged(a, b)[1..] == Merged(a[1..], b);
      }
    }
  }

  /** std::sort: some sorted arrangement of the points. */
  method Sort(s: seq<DataPoint>) returns (r: seq<DataPoint>)
    ensures Sorted(r) && multiset(r) == multiset(s) && |r| == |s|
  {
    r := [];
    for i := 0 to |s|
      invariant Sorted(r) && |r| == i
      invariant multiset(r) == multiset(s[..i])
    {
      assert s[..i + 1] == s[..i] + [s[i]];
      MergedSortsBoth(r, [s[i]]);
      r := Merged(r, [s[i]]);
    }
    assert s[..|s|] == s;
  }
}
