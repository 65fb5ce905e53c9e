/** What the queries of a data container mean, and their loops. */
module DataQueries {
  import opened SortedData

  datatype Range = Range(lower: real, upper: real)

  predicate Normalized(r: Range) {
    r.lower <= r.upper
  }

  datatype SignDomain = Both | Negative | Positive

  predicate SignOk(d: SignDomain, x: real) {
    match d
    case Both => true
    case Negative => x < 0.0
    case Positive => x > 0.0
  }

  // ---- Windows ----

  /** Where an expanded search begins: at the last point below the key, or at the first point. */
  predicate IsExpandedBegin(s: seq<DataPoint>, key: real, i: int) {
    && 0 <= i <= |s|
    && (forall j | 0 <= j < i :: s[j].sortKey < key)
    && (forall j | i < j < |s| :: key <= s[j].sortKey)
    && (i == 0 || (i < |s| && s[i].sortKey < key))
  }

  /** Where an expanded search ends: after the first point above the key, or after the last point. */
  predicate IsExpandedEnd(s: seq<DataPoint>, key: real, i: int) {
    && 0 <= i <= |s|
    && (forall j | 0 <= j < i - 1 :: s[j].sortKey <= key)
    && (forall j | i <= j < |s| :: key < s[j].sortKey)
    && (i == |s| || (i > 0 && key < s[i - 1].sortKey))
  }

  /** The window between the two bounds holds exactly the points with lo <= key <= hi. */
  lemma WindowIsScan(s: seq<DataPoint>, lo: real, hi: real, i: int, j: int)
    requires IsLowerBound(s, lo, i) && IsUpperBound(s, hi, j)
    ensures forall k | 0 <= k < |s| :: i <= k < j <==> lo <= s[k].sortKey <= hi
    ensures lo <= hi ==> i <= j
  {
    if j < i { assert hi < s[j].sortKey < lo; }
  }

  /** The expanded window adds at most one neighbour on each side. */
  lemma ExpandedWindow(s: seq<DataPoint>, lo: real, hi: real, i: int, j: int, i': int, j': int)
    requires IsLowerBound(s, lo, i) && IsUpperBound(s, hi, j)
    requires IsExpandedBegin(s, lo, i') && IsExpandedEnd(s, hi, j')
    ensures i' == (if i == 0 then 0 else i - 1)
    ensures j' == (if j == |s| then j else j + 1)
  {
    if 0 < i { assert s[i - 1].sortKey < lo; }
    if j < |s| { assert hi < s[j].sortKey; }
  }

  /** The type of the points says that the sort key is the main key. */
  predicate KeysAgree(s: seq<DataPoint>) {
    forall i | 0 <= i < |s| :: s[i].sortKey == s[i].mainKey
  }

  // ---- Key ranges ----

  /** A point counts for the key range when its value is not NaN and its key has the sign asked for. */
  predicate KeyCounts(d: SignDomain, p: DataPoint) {
    p.mainValue != NaN && SignOk(d, p.mainKey)
  }

  /** x is the least main key among the counting points of s; without a counting point, have is false. */
  predicate LeastKey(d: SignDomain, s: seq<DataPoint>, have: bool, x: real) {
    && (have <==> exists i :: 0 <= i < |s| && KeyCounts(d, s[i]))
    && (have ==> exists i :: 0 <= i < |s| && KeyCounts(d, s[i]) && s[i].mainKey == x)
    && (have ==> forall i | 0 <= i < |s| && KeyCounts(d, s[i]) :: x <= s[i].mainKey)
  }

  predicate GreatestKey(d: SignDomain, s: seq<DataPoint>, have: bool, x: real) {
    && (have <==> exists i :: 0 <= i < |s| && KeyCounts(d, s[i]))
    && (have ==> exists i :: 0 <= i < |s| && KeyCounts(d, s[i]) && s[i].mainKey == x)
    && (have ==> forall i | 0 <= i < |s| && KeyCounts(d, s[i]) :: s[i].mainKey <= x)
  }

  /** The result of a full scan for keys. */
  predicate IsKeyRange(d: SignDomain, s: seq<DataPoint>, found: bool, r: Range) {
    LeastKey(d, s, found, r.lower) && GreatestKey(d, s, found, r.upper)
  }

  /** What a key range says: it is found exactly when some point without NaN has a key of the sign asked for, and its
      bounds are the least and the greatest of those keys. */
  lemma KeyRangeMeans(d: SignDomain, s: seq<DataPoint>, found: bool, r: Range)
    requires IsKeyRange(d, s, found, r)
    ensures found <==>
              exists i :: 0 <= i < |s| && s[i].mainValue != NaN
                && (d == Negative ==> s[i].mainKey < 0.0) && (d == Positive ==> s[i].mainKey > 0.0)
    ensures found ==> exists i :: 0 <= i < |s| && s[i].mainValue != NaN && s[i].mainKey == r.lower
    ensures found ==> exists i :: 0 <= i < |s| && s[i].mainValue != NaN && s[i].mainKey == r.upper
    ensures found ==> forall i | 0 <= i < |s| && s[i].mainValue != NaN
                      && (d == Negative ==> s[i].mainKey < 0.0) && (d == Positive ==> s[i].mainKey > 0.0) ::
                        r.lower <= s[i].mainKey <= r.upper
    ensures found ==> r.lower <= r.upper
    ensures found && d == Negative ==> r.upper < 0.0
    ensures found && d == Positive ==> r.lower > 0.0
  {
    if found {
      var i :| 0 <= i < |s| && KeyCounts(d, s[i]) && s[i].mainKey == r.lower;
      var j :| 0 <= j < |s| && KeyCounts(d, s[j]) && s[j].mainKey == r.upper;
    }
    assert forall i | 0 <= i < |s| :: KeyCounts(d, s[i]) <==>
        s[i].mainValue != NaN && (d == Negative ==> s[i].mainKey < 0.0) && (d == Positive ==> s[i].mainKey > 0.0);
  }

  /** First and last point whose value is not NaN. */
  method KeyRangeFromEnds(s: seq<DataPoint>) returns (foundRange: bool, range: Range)
    requires Sorted(s) && KeysAgree(s)
    ensures IsKeyRange(Both, s, foundRange, range)
  {
    range := Range(0.0, 0.0);
    var haveLower, haveUpper := false, false;
    var it := 0;
    while it != |s|
      invariant 0 <= it <= |s|
      invariant forall i | 0 <= i < it :: s[i].mainValue == NaN
    {
      if s[it].mainValue != NaN {
        range := range.(lower := s[it].mainKey);
        haveLower := true;
        break;
      }
      it := it + 1;
    }
    ghost var first := it;
    it := |s|;
    while it != 0
      invariant 0 <= it <= |s|
      invariant forall i | it <= i < |s| :: s[i].mainValue == NaN
    {
      it := it - 1;
      if s[it].mainValue != NaN {
        range := range.(upper := s[it].mainKey);
        haveUpper := true;
        break;
      }
    }
    foundRange := haveLower && haveUpper;
    EndsAreRange(s, first, it, foundRange, range);
  }

  lemma EndsAreRange(s: seq<DataPoint>, first: int, last: int, found: bool, r: Range)
    requires Sorted(s) && KeysAgree(s)
    requires 0 <= first <= |s| && forall i | 0 <= i < first :: s[i].mainValue == NaN
    requires found ==> 0 <= last < |s| && forall i | last < i < |s| :: s[i].mainValue == NaN
    requires if found then first < |s| && s[first].mainValue != NaN && s[last].mainValue != NaN else first == |s|
    requires found ==> r == Range(s[first].mainKey, s[last].mainKey)
    ensures IsKeyRange(Both, s, found, r)
  {
    if found {
      assert KeyCounts(Both, s[first]) && KeyCounts(Both, s[last]);
      forall i | 0 <= i < |s| && KeyCounts(Both, s[i]) ensures r.lower <= s[i].mainKey <= r.upper {
        assert first <= i <= last;
        assert s[first].sortKey <= s[i].sortKey <= s[last].sortKey;
      }
    }
  }

  /** The scan over all points. */
  method KeyRangeScan(d: SignDomain, s: seq<DataPoint>) returns (foundRange: bool, range: Range)
    ensures IsKeyRange(d, s, foundRange, range)
  {
    hide SignOk, LeastKey, GreatestKey;
    var lower, upper := 0.0, 0.0;
    var haveLower, haveUpper := false, false;
    NoKeyYet(d);
    for it := 0 to |s|
      invariant haveLower == haveUpper
      invariant LeastKey(d, s[..it], haveLower, lower)
      invariant GreatestKey(d, s[..it], haveUpper, upper)
    {
      LeastKeyStep(d, s[..it], haveLower, lower, s[it]);
      GreatestKeyStep(d, s[..it], haveUpper, upper, s[it]);
      assert s[..it + 1] == s[..it] + [s[it]];
      var current := s[it].mainKey;
      if s[it].mainValue != NaN {
        if (current < lower || !haveLower) && SignOk(d, current) {
          lower := current;
          haveLower := true;
        }
        if (current > upper || !haveUpper) && SignOk(d, current) {
          upper := current;
          haveUpper := true;
        }
      }
    }
    assert s[..|s|] == s;
    foundRange := haveLower && haveUpper;
    range := Range(lower, upper);
  }

  lemma NoKeyYet(d: SignDomain)
    ensures LeastKey(d, [], false, 0.0) && GreatestKey(d, [], false, 0.0)
  {}

  lemma LeastKeyStep(d: SignDomain, s: seq<DataPoint>, have: bool, x: real, p: DataPoint)
    requires LeastKey(d, s, have, x)
    ensures LeastKey(d, s + [p], have || KeyCounts(d, p),
                     if KeyCounts(d, p) && (p.mainKey < x || !have) then p.mainKey else x)
  {
    hide SignOk, KeyCounts;
    var t := s + [p];
    assert t[|s|] == p;
    assert forall i | 0 <= i < |s| :: t[i] == s[i];
  }

  lemma GreatestKeyStep(d: SignDomain, s: seq<DataPoint>, have: bool, x: real, p: DataPoint)
    requires GreatestKey(d, s, have, x)
    ensures GreatestKey(d, s + [p], have || KeyCounts(d, p),
                        if KeyCounts(d, p) && (p.mainKey > x || !have) then p.mainKey else x)
  {
    hide SignOk, KeyCounts;
    var t := s + [p];
    assert t[|s|] == p;
    assert forall i | 0 <= i < |s| :: t[i] == s[i];
  }

  // ---- Value ranges ----

  /** The window Range(0, 0) stands for no restriction. */
  predicate InWindow(window: Range, p: DataPoint) {
    window == Range(0.0, 0.0) || window.lower <= p.mainKey <= window.upper
  }

  /** A bound counts when it is finite, has the sign asked for, and its point lies in the key window. */
  predicate LowerCounts(d: SignDomain, window: Range, p: DataPoint) {
    p.lower.Fin? && SignOk(d, p.lower.r) && InWindow(window, p)
  }

  predicate UpperCounts(d: SignDomain, window: Range, p: DataPoint) {
    p.upper.Fin? && SignOk(d, p.upper.r) && InWindow(window, p)
  }

  predicate LeastValue(d: SignDomain, window: Range, s: seq<DataPoint>, have: bool, x: real) {
    && (have <==> exists i :: 0 <= i < |s| && LowerCounts(d, window, s[i]))
    && (have ==> exists i :: 0 <= i < |s| && LowerCounts(d, window, s[i]) && s[i].lower == Fin(x))
    && (have ==> forall i | 0 <= i < |s| && LowerCounts(d, window, s[i]) :: x <= s[i].lower.r)
  }

  predicate GreatestValue(d: SignDomain, window: Range, s: seq<DataPoint>, have: bool, x: real) {
    && (have <==> exists i :: 0 <= i < |s| && UpperCounts(d, window, s[i]))
    && (have ==> exists i :: 0 <= i < |s| && UpperCounts(d, window, s[i]) && s[i].upper == Fin(x))
    && (have ==> forall i | 0 <= i < |s| && UpperCounts(d, window, s[i]) :: s[i].upper.r <= x)
  }

  /** The result of a full scan for values: found needs a lower and an upper bound. */
  ghost predicate IsValueRange(d: SignDomain, window: Range, s: seq<DataPoint>, found: bool, r: Range) {
    exists haveLower, haveUpper ::
      && LeastValue(d, window, s, haveLower, r.lower)
      && GreatestValue(d, window, s, haveUpper, r.upper)
      && found == (haveLower && haveUpper)
  }

  /** What a value range says: it is found exactly when some point in the key range has a finite lower bound of the sign
      asked for, and some point such an upper bound; it spans from the least of the former to the greatest of the
      latter. The key range from 0 to 0 stands for all points. */
  lemma ValueRangeMeans(d: SignDomain, window: Range, s: seq<DataPoint>, found: bool, r: Range)
    requires IsValueRange(d, window, s, found, r)
    ensures found <==>
            && (exists i :: 0 <= i < |s| && s[i].lower.Fin?
                  && (d == Negative ==> s[i].lower.r < 0.0) && (d == Positive ==> s[i].lower.r > 0.0)
                  && (window == Range(0.0, 0.0) || window.lower <= s[i].mainKey <= window.upper))
            && (exists i :: 0 <= i < |s| && s[i].upper.Fin?
                  && (d == Negative ==> s[i].upper.r < 0.0) && (d == Positive ==> s[i].upper.r > 0.0)
                  && (window == Range(0.0, 0.0) || window.lower <= s[i].mainKey <= window.upper))
    ensures found ==> exists i :: 0 <= i < |s| && s[i].lower == Fin(r.lower)
    ensures found ==> exists i :: 0 <= i < |s| && s[i].upper == Fin(r.upper)
    ensures found ==> forall i | 0 <= i < |s| && s[i].lower.Fin?
                      && (d == Negative ==> s[i].lower.r < 0.0) && (d == Positive ==> s[i].lower.r > 0.0)
                      && (window == Range(0.0, 0.0) || window.lower <= s[i].mainKey <= window.upper) ::
                        r.lower <= s[i].lower.r
    ensures found ==> forall i | 0 <= i < |s| && s[i].upper.Fin?
                      && (d == Negative ==> s[i].upper.r < 0.0) && (d == Positive ==> s[i].upper.r > 0.0)
                      && (window == Range(0.0, 0.0) || window.lower <= s[i].mainKey <= window.upper) ::
                        s[i].upper.r <= r.upper
    ensures found && d == Negative ==> r.lower < 0.0 && r.upper < 0.0
    ensures found && d == Positive ==> r.lower > 0.0 && r.upper > 0.0
  {
    forall i | 0 <= i < |s|
      ensures LowerCounts(d, window, s[i]) <==>
                s[i].lower.Fin? && (d == Negative ==> s[i].lower.r < 0.0) && (d == Positive ==> s[i].lower.r > 0.0)
                && (window == Range(0.0, 0.0) || window.lower <= s[i].mainKey <= window.upper)
      ensures UpperCounts(d, window, s[i]) <==>
                s[i].upper.Fin? && (d == Negative ==> s[i].upper.r < 0.0) && (d == Positive ==> s[i].upper.r > 0.0)
                && (window == Range(0.0, 0.0) || window.lower <= s[i].mainKey <= window.upper)
    {
      CountsMean(d, window, s[i]);
    }
    hide LowerCounts, UpperCounts;
  }

  lemma CountsMean(d: SignDomain, window: Range, p: DataPoint)
    ensures LowerCounts(d, window, p) <==>
              p.lower.Fin? && (d == Negative ==> p.lower.r < 0.0) && (d == Positive ==> p.lower.r > 0.0)
              && (window == Range(0.0, 0.0) || window.lower <= p.mainKey <= window.upper)
    ensures UpperCounts(d, window, p) <==>
              p.upper.Fin? && (d == Negative ==> p.upper.r < 0.0) && (d == Positive ==> p.upper.r > 0.0)
              && (window == Range(0.0, 0.0) || window.lower <= p.mainKey <= window.upper)
  {}

  /** The scan over [itBegin, itEnd), outside of which no point is in the key window. */
  method ValueRangeScan(d: SignDomain, window: Range, s: seq<DataPoint>, itBegin: int, itEnd: int)
    returns (foundRange: bool, range: Range)
    requires 0 <= itBegin <= itEnd <= |s|
    requires forall i | 0 <= i < |s| && !(itBegin <= i < itEnd) :: !InWindow(window, s[i])
    ensures IsValueRange(d, window, s, foundRange, range)
  {
    hide SignOk, LeastValue, GreatestValue;
    var lower, upper := 0.0, 0.0;
    var haveLower, haveUpper := false, false;
    NoValueBefore(d, window, s, itBegin);
    var it := itBegin;
    while it != itEnd
      invariant itBegin <= it <= itEnd
      invariant LeastValue(d, window, s[..it], haveLower, lower)
      invariant GreatestValue(d, window, s[..it], haveUpper, upper)
    {
      LeastValueStep(d, window, s[..it], haveLower, lower, s[it]);
      GreatestValueStep(d, window, s[..it], haveUpper, upper, s[it]);
      assert s[..it + 1] == s[..it] + [s[it]];
      var p := s[it];
      it := it + 1;
      if window != Range(0.0, 0.0) && (p.mainKey < window.lower || p.mainKey > window.upper) {
        continue;
      }
      if p.lower.Fin? && (p.lower.r < lower || !haveLower) && SignOk(d, p.lower.r) {
        lower := p.lower.r;
        haveLower := true;
      }
      if p.upper.Fin? && (p.upper.r > upper || !haveUpper) && SignOk(d, p.upper.r) {
        upper := p.upper.r;
        haveUpper := true;
      }
    }
    NoValueAfter(d, window, s, itEnd, haveLower, lower, haveUpper, upper);
    foundRange := haveLower && haveUpper;
    range := Range(lower, upper);
  }

  lemma NoValueBefore(d: SignDomain, window: Range, s: seq<DataPoint>, n: nat)
    requires n <= |s| && forall i | 0 <= i < n :: !InWindow(window, s[i])
    ensures LeastValue(d, window, s[..n], false, 0.0) && GreatestValue(d, window, s[..n], false, 0.0)
  {}

  lemma NoValueAfter(d: SignDomain, window: Range, s: seq<DataPoint>, n: nat,
                     haveLower: bool, lower: real, haveUpper: bool, upper: real)
    requires n <= |s| && forall i | n <= i < |s| :: !InWindow(window, s[i])
    requires LeastValue(d, window, s[..n], haveLower, lower)
    requires GreatestValue(d, window, s[..n], haveUpper, upper)
    ensures LeastValue(d, window, s, haveLower, lower)
    ensures GreatestValue(d, window, s, haveUpper, upper)
  {
    hide InWindow, SignOk;
    assert forall i | 0 <= i < n :: s[..n][i] == s[i];
  }

  lemma LeastValueStep(d: SignDomain, window: Range, s: seq<DataPoint>, have: bool, x: real, p: DataPoint)
    requires LeastValue(d, window, s, have, x)
    ensures LeastValue(d, window, s + [p], have || LowerCounts(d, window, p),
                       if LowerCounts(d, window, p) && (p.lower.r < x || !have) then p.lower.r else x)
  {
    hide InWindow, SignOk;
    var t := s + [p];
    assert t[|s|] == p;
    assert forall i | 0 <= i < |s| :: t[i] == s[i];
  }

  lemma GreatestValueStep(d: SignDomain, window: Range, s: seq<DataPoint>, have: bool, x: real, p: DataPoint)
    requires GreatestValue(d, window, s, have, x)
    ensures GreatestValue(d, window, s + [p], have || UpperCounts(d, window, p),
                          if UpperCounts(d, window, p) && (p.upper.r > x || !have) then p.upper.r else x)
  {
    hide InWindow, SignOk;
    var t := s + [p];
    assert t[|s|] == p;
    assert forall i | 0 <= i < |s| :: t[i] == s[i];
  }
}
