/** QCPDataRange and QCPDataSelection: a set of data point indices held as a list of ranges. */
module DataSelection {

  datatype DataRange = DataRange(begin: int, end: int)

  predicate IsValid(r: DataRange) {
    r.end >= r.begin && r.begin >= 0
  }

  predicate IsEmpty(r: DataRange) {
    r.end - r.begin == 0
  }

  predicate Within(r: DataRange, x: int) {
    r.begin <= x < r.end
  }

  function Max(a: int, b: int): int {
    if a < b then b else a
  }

  function Min(a: int, b: int): int {
    if b < a then b else a
  }

  function Intersection(r: DataRange, other: DataRange): DataRange {
    var both := DataRange(Max(r.begin, other.begin), Min(r.end, other.end));
    if IsValid(both) then both else DataRange(0, 0)
  }

  function Bounded(r: DataRange, other: DataRange): DataRange {
    var both := Intersection(r, other);
    if !IsEmpty(both) then both
    else if r.end <= other.begin then DataRange(other.begin, other.begin)
    else DataRange(other.end, other.end)
  }

  function Expanded(r: DataRange, other: DataRange): DataRange {
    DataRange(Min(r.begin, other.begin), Max(r.end, other.end))
  }

  /** An intersection of valid ranges is valid and holds what both hold. */
  lemma IntersectionHolds(r: DataRange, other: DataRange)
    requires IsValid(r) && IsValid(other)
    ensures IsValid(Intersection(r, other))
    ensures forall x :: Within(Intersection(r, other), x) <==> Within(r, x) && Within(other, x)
  {}

  /** A bounded range stays inside the bounds, holds the same points there, and when nothing is left
      it is empty at the side of the bounds where the range was. */
  lemma BoundedStaysInside(r: DataRange, other: DataRange)
    requires IsValid(r) && IsValid(other)
    ensures IsValid(Bounded(r, other))
    ensures other.begin <= Bounded(r, other).begin && Bounded(r, other).end <= other.end
    ensures forall x :: Within(Bounded(r, other), x) <==> Within(r, x) && Within(other, x)
    ensures r.end <= other.begin ==> Bounded(r, other) == DataRange(other.begin, other.begin)
    ensures r.begin >= other.end > other.begin ==> Bounded(r, other) == DataRange(other.end, other.end)
  {
    hide Intersection, Min, Max;
    IntersectionHolds(r, other);
    IntersectionInside(r, other);
  }

  lemma IntersectionInside(r: DataRange, other: DataRange)
    requires IsValid(r) && IsValid(other)
    ensures var both := Intersection(r, other);
            both.begin < both.end ==> r.begin < r.end && other.begin <= both.begin && both.end <= other.end
                                      && r.begin < other.end && other.begin < r.end
    ensures var both := Intersection(r, other); both.begin <= both.end
  {}

  // ---- Lists of ranges as sets of indices ----

  predicate Covers(s: seq<DataRange>, x: int) {
    exists i :: 0 <= i < |s| && Within(s[i], x)
  }

  ghost predicate SameCover(s: seq<DataRange>, t: seq<DataRange>) {
    forall x :: Covers(s, x) <==> Covers(t, x)
  }

  predicate AllValid(s: seq<DataRange>) {
    forall i | 0 <= i < |s| :: IsValid(s[i])
  }

  /** The first n ranges are non-empty, ascending, and neither touch nor overlap. */
  predicate SimpleUpTo(s: seq<DataRange>, n: int) {
    && (forall i | 0 <= i < n <= |s| :: s[i].begin < s[i].end)
    && (forall i, j | 0 <= i < j < n <= |s| :: s[i].end < s[j].begin)
  }

  /** The ranges come in order and do not overlap; they may touch or be empty. */
  predicate Ascending(s: seq<DataRange>) {
    && (forall i | 0 <= i < |s| :: s[i].begin <= s[i].end)
    && (forall i, j | 0 <= i < j < |s| :: s[i].end <= s[j].begin)
  }

  predicate Simple(s: seq<DataRange>) {
    SimpleUpTo(s, |s|)
  }

  lemma CoversJoin(s: seq<DataRange>, t: seq<DataRange>, x: int)
    ensures Covers(s + t, x) <==> Covers(s, x) || Covers(t, x)
  {
    var u := s + t;
    if i :| 0 <= i < |s| && Within(s[i], x) { assert u[i] == s[i]; }
    if i :| 0 <= i < |t| && Within(t[i], x) { assert u[|s| + i] == t[i]; }
    if i :| 0 <= i < |u| && Within(u[i], x) {
      assert u[i] == if i < |s| then s[i] else t[i - |s|];
    }
  }

  lemma CoversOne(r: DataRange, x: int)
    ensures Covers([r], x) <==> Within(r, x)
  {
    assert [r][0] == r;
  }

  /** A list in simplified state is determined by the indices it holds. */
  lemma {:induction false} SimpleUnique(s: seq<DataRange>, t: seq<DataRange>)
    requires Simple(s) && Simple(t) && SameCover(s, t)
    ensures s == t
  {
    if s == [] {
      if t != [] { SimpleFirst(t); }
    } else {
      SimpleFirst(s);
      if t != [] {
        SimpleFirst(t);
        assert s[0] == t[0];
        SimpleTail(s);
        SimpleTail(t);
        SimpleUnique(s[1..], t[1..]);
        assert s == [s[0]] + s[1..] && t == [t[0]] + t[1..];
      }
    }
  }

  lemma SimpleFirst(s: seq<DataRange>)
    requires Simple(s) && s != []
    ensures Covers(s, s[0].begin) && forall x | x < s[0].begin :: !Covers(s, x)
    ensures !Covers(s, s[0].end) && forall x | s[0].begin <= x < s[0].end :: Covers(s, x)
  {
    assert Within(s[0], s[0].begin);
    forall x | s[0].begin <= x < s[0].end ensures Covers(s, x) { assert Within(s[0], x); }
  }

  lemma SimpleTail(s: seq<DataRange>)
    requires Simple(s) && s != []
    ensures Simple(s[1..])
    ensures forall x :: Covers(s[1..], x) <==> Covers(s, x) && x >= s[0].end
  {
    forall x ensures Covers(s[1..], x) <==> Covers(s, x) && x >= s[0].end {
      CoversJoin([s[0]], s[1..], x);
      CoversOne(s[0], x);
      assert s == [s[0]] + s[1..];
      if i :| 0 <= i < |s[1..]| && Within(s[1..][i], x) { assert s[0].end < s[i + 1].begin; }
    }
  }

  // ---- Steps of simplify ----

  lemma DropEmpty(s: seq<DataRange>, i: nat)
    requires i < |s| && IsEmpty(s[i])
    ensures SameCover(s[..i] + s[i + 1..], s)
  {
    forall x ensures Covers(s[..i] + s[i + 1..], x) <==> Covers(s, x) {
      CoversAround(s, i, x);
      CoversJoin(s[..i], s[i + 1..], x);
    }
  }

  lemma CoversAround(s: seq<DataRange>, i: nat, x: int)
    requires i < |s|
    ensures Covers(s, x) <==> Covers(s[..i], x) || Within(s[i], x) || Covers(s[i + 1..], x)
  {
    CoversJoin(s[..i] + [s[i]], s[i + 1..], x);
    CoversJoin(s[..i], [s[i]], x);
    CoversOne(s[i], x);
    assert s == s[..i] + [s[i]] + s[i + 1..];
  }

  predicate ByBegin(s: seq<DataRange>) {
    forall i, j | 0 <= i < j < |s| :: s[i].begin <= s[j].begin
  }

  predicate NoneEmpty(s: seq<DataRange>) {
    forall i | 0 <= i < |s| :: s[i].begin < s[i].end
  }

  /** std::sort with lessThanDataRangeBegin: some arrangement by begin. */
  method SortByBegin(s: seq<DataRange>) returns (r: seq<DataRange>)
    ensures multiset(r) == multiset(s) && ByBegin(r)
  {
    hide ByBegin;
    r := [];
    NothingByBegin();
    for k := 0 to |s|
      invariant multiset(r) == multiset(s[..k]) && ByBegin(r)
    {
      var i := InsertionPoint(r, s[k]);
      assert s[..k + 1] == s[..k] + [s[k]];
      Inserted(r, s[k], i);
      r := r[..i] + [s[k]] + r[i..];
    }
    assert s[..|s|] == s;
  }

  method InsertionPoint(s: seq<DataRange>, r: DataRange) returns (i: nat)
    ensures i <= |s| && (i == 0 || s[i - 1].begin <= r.begin)
    ensures forall j | i <= j < |s| :: r.begin < s[j].begin
  {
    i := |s|;
    while i > 0 && r.begin < s[i - 1].begin
      invariant i <= |s|
      invariant forall j | i <= j < |s| :: r.begin < s[j].begin
    {
      i := i - 1;
    }
  }

  lemma NothingByBegin()
    ensures ByBegin([])
  {}

  lemma Inserted(s: seq<DataRange>, r: DataRange, i: nat)
    requires i <= |s| && ByBegin(s)
    requires i == 0 || s[i - 1].begin <= r.begin
    requires forall j | i <= j < |s| :: r.begin < s[j].begin
    ensures ByBegin(s[..i] + [r] + s[i..])
    ensures multiset(s[..i] + [r] + s[i..]) == multiset(s) + multiset{r}
  {
    InsertedByBegin(s, r, i);
    hide ByBegin;
    assert s == s[..i] + s[i..];
  }

  lemma InsertedByBegin(s: seq<DataRange>, r: DataRange, i: nat)
    requires i <= |s| && ByBegin(s)
    requires i == 0 || s[i - 1].begin <= r.begin
    requires forall j | i <= j < |s| :: r.begin < s[j].begin
    ensures ByBegin(s[..i] + [r] + s[i..])
  {
    var t := s[..i] + [r] + s[i..];
    assert forall j | 0 <= j < |t| :: t[j] == if j < i then s[j] else if j == i then r else s[j - 1];
    assert forall j | 0 <= j < i :: s[j].begin <= s[i - 1].begin;
  }

  lemma RearrangedCovers(s: seq<DataRange>, t: seq<DataRange>)
    requires multiset(s) == multiset(t)
    ensures SameCover(s, t)
    ensures AllValid(s) ==> AllValid(t)
    ensures NoneEmpty(s) ==> NoneEmpty(t)
  {
    SameMembers(s, t);
    forall x ensures Covers(s, x) <==> Covers(t, x) {
      if i :| 0 <= i < |s| && Within(s[i], x) { assert s[i] in t; }
      if i :| 0 <= i < |t| && Within(t[i], x) { assert t[i] in s; }
    }
    forall i | 0 <= i < |t| ensures t[i] in s { assert t[i] in t; }
  }

  lemma SameMembers(s: seq<DataRange>, t: seq<DataRange>)
    requires multiset(s) == multiset(t)
    ensures forall r :: r in s <==> r in t
  {
    forall r ensures r in s <==> r in t {
      assert r in s <==> r in multiset(s);
      assert r in t <==> r in multiset(t);
    }
  }

  /** Range i joined to range i - 1. */
  function Joined(s: seq<DataRange>, i: nat): seq<DataRange>
    requires 1 <= i < |s|
  {
    s[..i - 1] + [DataRange(s[i - 1].begin, Max(s[i - 1].end, s[i].end))] + s[i + 1..]
  }

  lemma JoinKeeps(s: seq<DataRange>, i: nat)
    requires 1 <= i < |s| && s[i - 1].end >= s[i].begin
    requires AllValid(s) && NoneEmpty(s) && ByBegin(s) && SimpleUpTo(s, i)
    ensures AllValid(Joined(s, i)) && NoneEmpty(Joined(s, i)) && ByBegin(Joined(s, i))
    ensures SimpleUpTo(Joined(s, i), i)
    ensures SameCover(Joined(s, i), s)
  {
    JoinCovers(s, i);
    hide SameCover;
    var t := Joined(s, i);
    assert forall k | 0 <= k < |t| && k != i - 1 :: t[k] == if k < i then s[k] else s[k + 1];
    assert t[i - 1] == DataRange(s[i - 1].begin, Max(s[i - 1].end, s[i].end));
  }

  lemma JoinCovers(s: seq<DataRange>, i: nat)
    requires 1 <= i < |s| && s[i - 1].end >= s[i].begin && s[i - 1].begin <= s[i].begin
    ensures SameCover(Joined(s, i), s)
  {
    var a, b := s[..i - 1], s[i + 1..];
    var r := DataRange(s[i - 1].begin, Max(s[i - 1].end, s[i].end));
    forall x ensures Covers(Joined(s, i), x) <==> Covers(s, x) {
      CoversAround(s, i, x);
      CoversAround(s[..i], i - 1, x);
      assert s[..i][..i - 1] == a && s[..i][i..] == [];
      CoversJoin(a + [r], b, x);
      CoversJoin(a, [r], x);
      CoversOne(r, x);
    }
  }

  // ---- The class ----

  class QCPDataSelection {
    var mDataRanges: seq<DataRange>

    ghost predicate Valid()
      reads this
    {
      AllValid(mDataRanges)
    }

    constructor ()
      ensures mDataRanges == []
    {
      mDataRanges := [];
    }

    constructor OfRange(range: DataRange)
      ensures mDataRanges == [range]
    {
      mDataRanges := [range];
    }

    method Simplify()
      requires Valid()
      modifies this
      ensures Valid() && Simple(mDataRanges) && SameCover(mDataRanges, old(mDataRanges))
    {
      hide Covers, SimpleUpTo, Joined, ByBegin;
      var i := |mDataRanges| - 1;
      while i >= 0
        invariant -1 <= i < |mDataRanges|
        invariant Valid() && SameCover(mDataRanges, old(mDataRanges))
        invariant forall j | i < j < |mDataRanges| :: !IsEmpty(mDataRanges[j])
      {
        if IsEmpty(mDataRanges[i]) {
          DropEmpty(mDataRanges, i);
          mDataRanges := mDataRanges[..i] + mDataRanges[i + 1..];
        }
        i := i - 1;
      }
      if mDataRanges == [] {
        SimpleStart(mDataRanges, 0);
        return;
      }
      var sorted := SortByBegin(mDataRanges);
      RearrangedCovers(mDataRanges, sorted);
      mDataRanges := sorted;
      i := 1;
      SimpleStart(mDataRanges, 1);
      while i < |mDataRanges|
        invariant 1 <= i <= |mDataRanges|
        invariant Valid() && NoneEmpty(mDataRanges) && ByBegin(mDataRanges) && SimpleUpTo(mDataRanges, i)
        invariant SameCover(mDataRanges, old(mDataRanges))
        decreases |mDataRanges| - i
      {
        if mDataRanges[i - 1].end >= mDataRanges[i].begin {
          JoinKeeps(mDataRanges, i);
          JoinedIs(mDataRanges, i);
          var end := Max(mDataRanges[i - 1].end, mDataRanges[i].end);
          mDataRanges := mDataRanges[i - 1 := DataRange(mDataRanges[i - 1].begin, end)];
          mDataRanges := mDataRanges[..i] + mDataRanges[i + 1..];
        } else {
          SimpleNext(mDataRanges, i);
          i := i + 1;
        }
      }
    }

    method AddDataRange(dataRange: DataRange, simplify: bool)
      requires Valid() && IsValid(dataRange)
      modifies this
      ensures Valid()
      ensures !simplify ==> mDataRanges == old(mDataRanges) + [dataRange]
      ensures simplify ==> Simple(mDataRanges)
      ensures forall x :: Covers(mDataRanges, x) <==> Covers(old(mDataRanges), x) || Within(dataRange, x)
    {
      forall x ensures Covers(mDataRanges + [dataRange], x) <==> Covers(mDataRanges, x) || Within(dataRange, x) {
        CoversJoin(mDataRanges, [dataRange], x);
        CoversOne(dataRange, x);
      }
      hide Covers;
      mDataRanges := mDataRanges + [dataRange];
      if simplify {
        Simplify();
      }
    }

    /** operator+= with a selection: the union. */
    method Add(other: QCPDataSelection)
      requires Valid() && other.Valid()
      modifies this
      ensures Valid() && Simple(mDataRanges)
      ensures forall x ::
                Covers(mDataRanges, x) <==> Covers(old(mDataRanges), x) || Covers(old(other.mDataRanges), x)
    {
      forall x ensures Covers(mDataRanges + other.mDataRanges, x)
                       <==> Covers(mDataRanges, x) || Covers(other.mDataRanges, x) {
        CoversJoin(mDataRanges, other.mDataRanges, x);
      }
      hide Covers;
      mDataRanges := mDataRanges + other.mDataRanges;
      Simplify();
    }

    /** operator-= with a range: the difference. */
    method Subtract(other: DataRange)
      requires Valid() && IsValid(other)
      modifies this
      ensures Valid()
      ensures forall x :: Covers(mDataRanges, x) <==> Covers(old(mDataRanges), x) && !Within(other, x)
      ensures if IsEmpty(other) || old(mDataRanges) == [] then mDataRanges == old(mDataRanges) else Simple(mDataRanges)
    {
      hide Covers, SimpleUpTo, IsValid, LessRange, CutAt;
      if IsEmpty(other) || mDataRanges == [] {
        NothingToSubtract(mDataRanges, other);
        return;
      }
      Simplify();
      ghost var s := mDataRanges;
      LessNothing(s, other);
      var i := 0;
      while i < |mDataRanges|
        invariant 0 <= i <= |mDataRanges|
        invariant Simple(mDataRanges) && AllValid(mDataRanges) && LessRange(mDataRanges, s, other)
        invariant forall j | 0 <= j < i :: Apart(mDataRanges[j], other)
        decreases |mDataRanges| - i
      {
        var thisBegin, thisEnd := mDataRanges[i].begin, mDataRanges[i].end;
        if thisBegin >= other.end {
          break;
        }
        if thisEnd > other.begin {
          CutRange(mDataRanges, s, i, other);
          CutIs(mDataRanges, i, other);
          if thisBegin >= other.begin {
            if thisEnd <= other.end {
              mDataRanges := mDataRanges[..i] + mDataRanges[i + 1..];
              continue;
            } else {
              mDataRanges := mDataRanges[i := mDataRanges[i].(begin := other.end)];
            }
          } else {
            if thisEnd <= other.end {
              mDataRanges := mDataRanges[i := mDataRanges[i].(end := other.begin)];
            } else {
              mDataRanges := mDataRanges[i := mDataRanges[i].(end := other.begin)];
              mDataRanges := mDataRanges[..i + 1] + [DataRange(other.end, thisEnd)] + mDataRanges[i + 1..];
              i := i + 1;
              break;
            }
          }
        }
        i := i + 1;
      }
      AllApart(mDataRanges, s, i, other);
    }

    /** operator-= with a selection: the difference. When the selection is subtracted from itself, the loop runs over
        the list that it shrinks: the first non-empty range goes, and of what is left after as many ranges as stand up to
        that one, every other range stays. */
    method SubtractAll(other: QCPDataSelection)
      requires Valid() && other.Valid()
      modifies this
      ensures Valid()
      ensures other != this ==> forall x ::
                Covers(mDataRanges, x) <==> Covers(old(mDataRanges), x) && !Covers(other.mDataRanges, x)
      ensures other == this ==> SelfSubtracted(old(mDataRanges), mDataRanges)
    {
      hide Covers, SimpleUpTo, IsValid, EveryOther, Thinned;
      ghost var s, t := mDataRanges, other.mDataRanges;
      ghost var p, m := -1, s;   // the first non-empty range, and what its removal leaves
      NothingCovered();
      var i := 0;
      while i < |other.mDataRanges|
        invariant 0 <= i && Valid() && other.Valid()
        invariant other != this ==> other.mDataRanges == t && i <= |t|
        invariant other != this ==> forall x :: Covers(mDataRanges, x) <==> Covers(s, x) && !Covers(t[..i], x)
        invariant other == this && p == -1 ==> mDataRanges == s && i <= |s| && forall j | 0 <= j < i :: IsEmpty(s[j])
        invariant other == this && p != -1 ==> 0 <= p < i && First(s, p) && LeavesOut(m, s, p)
        invariant other == this && p != -1 ==> Simple(mDataRanges) && ThinnedFrom(m, p + 1, i, mDataRanges)
        decreases if p == -1 then 1 else 0, |other.mDataRanges| - i
      {
        ghost var before := mDataRanges;
        ghost var own := other == this && p != -1;
        if own {
          ThinnedFromStep(m, p + 1, i, before);
          OwnRange(before, i);
        } else if other != this {
          CoversMore(t, i);
        }
        Subtract(other.mDataRanges[i]);
        if own {
          SimpleUnique(mDataRanges, before[..i] + before[i + 1..]);
        } else if other == this && !IsEmpty(s[i]) {
          p, m := i, mDataRanges;
          ThinnedFromStart(m, p + 1);
        }
        i := i + 1;
      }
      if other != this {
        assert t[..i] == t;
      } else if p == -1 {
        AllEmpty(s);
      } else {
        ThinnedFromEnd(m, p + 1, i, mDataRanges);
        assert SelfLeft(s, mDataRanges, p, m);
      }
    }

    /** intersection with a range. */
    method IntersectionWith(other: DataRange) returns (result: QCPDataSelection)
      requires Valid() && IsValid(other)
      ensures fresh(result) && result.Valid() && Simple(result.mDataRanges)
      ensures forall x :: Covers(result.mDataRanges, x) <==> Covers(mDataRanges, x) && Within(other, x)
    {
      hide Covers, SimpleUpTo, Intersection;
      result := new QCPDataSelection();
      NothingCovered();
      for i := 0 to |mDataRanges|
        invariant fresh(result) && result.Valid()
        invariant forall x :: Covers(result.mDataRanges, x) <==> Covers(mDataRanges[..i], x) && Within(other, x)
      {
        CoversMore(mDataRanges, i);
        IntersectionHolds(mDataRanges[i], other);
        result.AddDataRange(Intersection(mDataRanges[i], other), false);
      }
      assert mDataRanges[..|mDataRanges|] == mDataRanges;
      result.Simplify();
    }

    /** inverse: the indices of the outer range, widened to the span of the selection, that are not selected. */
    method Inverse(outerRange: DataRange) returns (result: QCPDataSelection)
      requires Valid() && Ascending(mDataRanges) && IsValid(outerRange)
      ensures fresh(result) && result.Valid()
      ensures mDataRanges != [] || !IsEmpty(outerRange) ==> Simple(result.mDataRanges)
      ensures forall x :: Covers(result.mDataRanges, x)
                          <==> Within(FullRange(mDataRanges, outerRange), x) && !Covers(mDataRanges, x)
      ensures forall x :: Covers(result.mDataRanges, x) <==>
                && !Covers(mDataRanges, x)
                && (outerRange.begin <= x || (mDataRanges != [] && mDataRanges[0].begin <= x))
                && (x < outerRange.end || (mDataRanges != [] && x < mDataRanges[|mDataRanges| - 1].end))
    {
      FullRangeHolds(mDataRanges, outerRange);
      hide Covers, Min, Max;
      var s := mDataRanges;
      if s == [] {
        result := new QCPDataSelection.OfRange(outerRange);
        OneCovered(outerRange);
        NothingCovered();
        return;
      }
      var fullRange := FullRange(s, outerRange);
      FullRangeBounds(s, outerRange);
      result := new QCPDataSelection();
      NothingCovered();
      Gaps(s, 0);
      if s[0].begin != fullRange.begin {
        result.AddDataRange(DataRange(fullRange.begin, s[0].begin), false);
      }
      var i := 1;
      while i < |s|
        invariant 1 <= i <= |s|
        invariant fresh(result) && result.Valid() && mDataRanges == s
        invariant forall x ::
                    Covers(result.mDataRanges, x) <==> fullRange.begin <= x < s[i - 1].begin && !Covers(s, x)
      {
        Gaps(s, i);
        result.AddDataRange(DataRange(s[i - 1].end, s[i].begin), false);
        i := i + 1;
      }
      Gaps(s, |s|);
      if s[|s| - 1].end != fullRange.end {
        result.AddDataRange(DataRange(s[|s| - 1].end, fullRange.end), false);
      }
      hide SimpleUpTo;
      result.Simplify();
    }

    /** contains: whether every selected index of the other selection is selected here. */
    method Contains(other: QCPDataSelection) returns (all: bool)
      requires Valid() && other.Valid()
      ensures other.mDataRanges == [] ==> !all
      ensures all ==> forall x | Covers(other.mDataRanges, x) :: Covers(mDataRanges, x)
      ensures other.mDataRanges != [] && Simple(mDataRanges) && Simple(other.mDataRanges)
              ==> (all <==> forall x | Covers(other.mDataRanges, x) :: Covers(mDataRanges, x))
    {
      hide Covers;
      var s, t := mDataRanges, other.mDataRanges;
      if t == [] {
        return false;
      }
      var thisIndex, otherIndex := 0, 0;
      NothingCovered();
      FirstInside(s, t, 0, 0);
      while thisIndex < |s| && otherIndex < |t|
        invariant 0 <= thisIndex <= |s| && 0 <= otherIndex <= |t|
        invariant otherIndex == |t| ==> thisIndex < |s|
        invariant forall x | Covers(t[..otherIndex], x) :: Covers(s, x)
        invariant otherIndex < |t| ==> Ahead(s, t, thisIndex, otherIndex)
        decreases |s| - thisIndex + |t| - otherIndex
      {
        if s[thisIndex].begin <= t[otherIndex].begin && s[thisIndex].end >= t[otherIndex].end {
          CoversMore(t, otherIndex);
          RangeCovered(s, thisIndex);
          FirstInside(s, t, thisIndex, otherIndex + 1);
          otherIndex := otherIndex + 1;
        } else {
          thisIndex := thisIndex + 1;
        }
      }
      assert t[..|t|] == t;
      all := thisIndex < |s|;
    }

    /** operator==: on simplified lists it decides whether the same indices are held. */
    method Equals(other: QCPDataSelection) returns (same: bool)
      ensures same <==> mDataRanges == other.mDataRanges
      ensures Simple(mDataRanges) && Simple(other.mDataRanges)
              ==> (same <==> SameCover(mDataRanges, other.mDataRanges))
    {
      hide Covers, Simple;
      if Simple(mDataRanges) && Simple(other.mDataRanges) && SameCover(mDataRanges, other.mDataRanges) {
        SimpleUnique(mDataRanges, other.mDataRanges);
      }
      if |mDataRanges| != |other.mDataRanges| {
        return false;
      }
      for i := 0 to |mDataRanges|
        invariant mDataRanges[..i] == other.mDataRanges[..i]
      {
        if mDataRanges[i] != other.mDataRanges[i] {
          return false;
        }
      }
      assert mDataRanges == mDataRanges[..|mDataRanges|];
      same := true;
    }
  }

  // ---- Steps of operator-= ----

  /** s is t without some indices of r. */
  ghost predicate LessRange(s: seq<DataRange>, t: seq<DataRange>, r: DataRange) {
    && (forall x :: Covers(s, x) ==> Covers(t, x))
    && (forall x :: Covers(t, x) ==> Covers(s, x) || Within(r, x))
  }

  predicate Apart(r: DataRange, other: DataRange) {
    r.end <= other.begin || other.end <= r.begin
  }

  lemma LessNothing(s: seq<DataRange>, r: DataRange)
    ensures LessRange(s, s, r)
  {}

  lemma NothingToSubtract(s: seq<DataRange>, r: DataRange)
    requires IsEmpty(r) || s == []
    ensures forall x :: Covers(s, x) <==> Covers(s, x) && !Within(r, x)
  {}

  /** What is left of a range. */
  function Left(r: DataRange, other: DataRange): seq<DataRange> {
    (if r.begin < other.begin then [DataRange(r.begin, other.begin)] else [])
    + if other.end < r.end then [DataRange(other.end, r.end)] else []
  }

  lemma LeftCovers(r: DataRange, other: DataRange, x: int)
    requires IsValid(other) && !IsEmpty(other) && r.begin < other.end && r.end > other.begin
    ensures Covers(Left(r, other), x) <==> Within(r, x) && !Within(other, x)
  {
    var below := if r.begin < other.begin then [DataRange(r.begin, other.begin)] else [];
    var above := if other.end < r.end then [DataRange(other.end, r.end)] else [];
    CoversJoin(below, above, x);
    CoversOne(DataRange(r.begin, other.begin), x);
    CoversOne(DataRange(other.end, r.end), x);
  }

  /** Range i replaced by what is left of it. */
  function CutAt(s: seq<DataRange>, i: nat, other: DataRange): seq<DataRange>
    requires i < |s|
  {
    s[..i] + Left(s[i], other) + s[i + 1..]
  }

  lemma CutCovers(s: seq<DataRange>, i: nat, other: DataRange, x: int)
    requires i < |s| && IsValid(other) && !IsEmpty(other) && s[i].begin < other.end && s[i].end > other.begin
    ensures Covers(CutAt(s, i, other), x)
            <==> Covers(s[..i], x) || (Within(s[i], x) && !Within(other, x)) || Covers(s[i + 1..], x)
  {
    hide Covers, Left;
    CoversJoin(s[..i] + Left(s[i], other), s[i + 1..], x);
    CoversJoin(s[..i], Left(s[i], other), x);
    LeftCovers(s[i], other, x);
  }

  lemma CutRange(s: seq<DataRange>, t: seq<DataRange>, i: nat, other: DataRange)
    requires i < |s| && IsValid(other) && !IsEmpty(other) && s[i].begin < other.end && s[i].end > other.begin
    requires Simple(s) && AllValid(s) && LessRange(s, t, other)
    ensures Simple(CutAt(s, i, other)) && AllValid(CutAt(s, i, other)) && LessRange(CutAt(s, i, other), t, other)
  {
    CutSimple(s, i, other);
    hide SimpleUpTo, Covers, CutAt;
    forall x ensures Covers(CutAt(s, i, other), x) ==> Covers(s, x)
             ensures Covers(s, x) ==> Covers(CutAt(s, i, other), x) || Within(other, x) {
      CutCovers(s, i, other, x);
      CoversAround(s, i, x);
    }
  }

  lemma CutSimple(s: seq<DataRange>, i: nat, other: DataRange)
    requires i < |s| && IsValid(other) && !IsEmpty(other) && s[i].begin < other.end && s[i].end > other.begin
    requires Simple(s) && AllValid(s)
    ensures Simple(CutAt(s, i, other)) && AllValid(CutAt(s, i, other))
  {
    SpliceSimple(s, i, Left(s[i], other));
  }

  lemma SpliceSimple(s: seq<DataRange>, i: nat, r: seq<DataRange>)
    requires i < |s| && Simple(s) && AllValid(s) && Simple(r) && AllValid(r)
    requires forall j | 0 <= j < |r| :: s[i].begin <= r[j].begin && r[j].end <= s[i].end
    ensures Simple(s[..i] + r + s[i + 1..]) && AllValid(s[..i] + r + s[i + 1..])
  {
    var a, b := s[..i], s[i + 1..];
    assert forall j, k | 0 <= j < i && 0 <= k < |r| :: a[j].end < r[k].begin;
    SimpleJoin(a, r);
    assert forall j, k | 0 <= j < |a + r| && 0 <= k < |b| :: (a + r)[j].end < b[k].begin;
    SimpleJoin(a + r, b);
  }

  lemma SimpleJoin(s: seq<DataRange>, t: seq<DataRange>)
    requires Simple(s) && Simple(t) && AllValid(s) && AllValid(t)
    requires forall j, k | 0 <= j < |s| && 0 <= k < |t| :: s[j].end < t[k].begin
    ensures Simple(s + t) && AllValid(s + t)
  {}

  /** The four ways of cutting a range. */
  lemma CutIs(s: seq<DataRange>, i: nat, other: DataRange)
    requires i < |s|
    ensures var r := s[i];
            CutAt(s, i, other) ==
            if r.begin >= other.begin then
              if r.end <= other.end then s[..i] + s[i + 1..] else s[i := DataRange(other.end, r.end)]
            else
              var t := s[i := DataRange(r.begin, other.begin)];
              if r.end <= other.end then t else t[..i + 1] + [DataRange(other.end, r.end)] + t[i + 1..]
  {}

  lemma AllApart(s: seq<DataRange>, t: seq<DataRange>, i: nat, other: DataRange)
    requires i <= |s| && Simple(s) && LessRange(s, t, other)
    requires forall j | 0 <= j < i :: Apart(s[j], other)
    requires i < |s| ==> other.end <= s[i].begin
    ensures forall x :: Covers(s, x) <==> Covers(t, x) && !Within(other, x)
  {
    forall j | 0 <= j < |s| ensures Apart(s[j], other) {
      if i < j { assert s[i].end < s[j].begin; }
    }
    forall x | Covers(s, x) ensures !Within(other, x) {
      var j :| 0 <= j < |s| && Within(s[j], x);
      assert Apart(s[j], other);
    }
  }

  // ---- A selection subtracted from itself ----

  /** The second range, the fourth, and so on. */
  function EveryOther(s: seq<DataRange>): seq<DataRange> {
    if |s| < 2 then [] else [s[1]] + EveryOther(s[2..])
  }

  lemma {:induction false} EveryOtherAt(s: seq<DataRange>, k: nat)
    requires 2 * k + 1 < |s|
    ensures |EveryOther(s)| == |s| / 2 && EveryOther(s)[k] == s[2 * k + 1]
    decreases |s|
  {
    EveryOtherSize(s);
    if k > 0 { EveryOtherAt(s[2..], k - 1); }
  }

  /** Every other of the first 2i ranges, and all the others. */
  function Thinned(s: seq<DataRange>, i: nat): seq<DataRange> {
    if 2 * i <= |s| then EveryOther(s[..2 * i]) + s[2 * i..] else EveryOther(s)
  }

  /** Range i is the first non-empty one. */
  predicate First(s: seq<DataRange>, i: int) {
    0 <= i < |s| && !IsEmpty(s[i]) && forall j | 0 <= j < i :: IsEmpty(s[j])
  }

  /** m is the simplified list of the indices of s outside its range p. */
  ghost predicate LeavesOut(m: seq<DataRange>, s: seq<DataRange>, p: nat)
    requires p < |s|
  {
    Simple(m) && forall x :: Covers(m, x) <==> Covers(s, x) && !Within(s[p], x)
  }

  /** The first n ranges, and every other one after them. */
  function KeptFrom(m: seq<DataRange>, n: nat): seq<DataRange> {
    if |m| <= n then m else m[..n] + EveryOther(m[n..])
  }

  ghost predicate SelfLeft(s: seq<DataRange>, s': seq<DataRange>, p: int, m: seq<DataRange>) {
    First(s, p) && LeavesOut(m, s, p) && s' == KeptFrom(m, p + 1)
  }

  /** s' is what is left when s is subtracted from itself. */
  ghost predicate SelfSubtracted(s: seq<DataRange>, s': seq<DataRange>) {
    if forall i | 0 <= i < |s| :: IsEmpty(s[i]) then s' == s
    else exists p, m :: SelfLeft(s, s', p, m)
  }

  /** Nothing is left, as it should be, exactly when the first non-empty range holds every selected index. */
  lemma SelfSubtractedExactly(s: seq<DataRange>, s': seq<DataRange>)
    requires SelfSubtracted(s, s')
    ensures (forall x :: !Covers(s', x)) <==> forall i, x | First(s, i) && Covers(s, x) :: Within(s[i], x)
  {
    if forall i | 0 <= i < |s| :: IsEmpty(s[i]) {
      AllEmpty(s);
    } else {
      var p: int, m: seq<DataRange> :| SelfLeft(s, s', p, m);
      assert m == [] ==> KeptFrom(m, p + 1) == [];
      if m != [] {
        SimpleFirst(m);
        assert s'[0] == m[0];
        assert Within(s'[0], m[0].begin);
        assert Covers(s', m[0].begin);
      } else {
        NothingCovered();
      }
    }
  }

  /** In simplified state, every other range is left. */
  lemma SelfSubtractedSimple(s: seq<DataRange>, s': seq<DataRange>)
    requires Simple(s) && AllValid(s) && SelfSubtracted(s, s')
    ensures s' == EveryOther(s)
  {
    if s != [] {
      assert !IsEmpty(s[0]);
      var p: int, m: seq<DataRange> :| SelfLeft(s, s', p, m);
      OnlyFirstGone(s, p, m);
      KeptOfTail(s);
    }
  }

  lemma OnlyFirstGone(s: seq<DataRange>, p: int, m: seq<DataRange>)
    requires Simple(s) && AllValid(s) && s != [] && First(s, p) && LeavesOut(m, s, p)
    ensures p == 0 && m == s[1..]
  {
    assert !IsEmpty(s[0]);
    OwnRange(s, 0);
    assert s[..0] + s[1..] == s[1..];
    hide Covers;
    SimpleUnique(m, s[1..]);
  }

  lemma KeptOfTail(s: seq<DataRange>)
    requires s != []
    ensures KeptFrom(s[1..], 1) == EveryOther(s)
  {
    if |s| > 1 {
      assert s[1..][..1] == [s[1]] && s[1..][1..] == s[2..];
      assert |s| == 2 ==> s[2..] == [];
    }
  }

  /** [0, 1) and [2, 3) subtracted from themselves leave index 2. */
  lemma SelfSubtractedFails(s': seq<DataRange>)
    requires SelfSubtracted([DataRange(0, 1), DataRange(2, 3)], s')
    ensures Covers(s', 2)
  {
    var s := [DataRange(0, 1), DataRange(2, 3)];
    SelfSubtractedSimple(s, s');
    assert EveryOther(s) == [s[1]];
    assert Within(s'[0], 2);
  }

  lemma AllEmpty(s: seq<DataRange>)
    requires forall i | 0 <= i < |s| :: IsEmpty(s[i])
    ensures forall x :: !Covers(s, x)
  {}

  /** The list r that is left of m after i subtractions, n of which came before m. */
  predicate ThinnedFrom(m: seq<DataRange>, n: nat, i: nat, r: seq<DataRange>) {
    if |m| <= n then i == n && r == m
    else i >= n && 2 * (i - n) <= |m| - n + 1 && r == m[..n] + Thinned(m[n..], i - n)
  }

  lemma ThinnedFromStart(m: seq<DataRange>, n: nat)
    ensures ThinnedFrom(m, n, n, m)
  {
    hide Thinned;
    if |m| > n { ThinnedNone(m[n..]); }
  }

  lemma ThinnedNone(s: seq<DataRange>)
    ensures Thinned(s, 0) == s
  {}

  lemma ThinnedFromStep(m: seq<DataRange>, n: nat, i: nat, r: seq<DataRange>)
    requires ThinnedFrom(m, n, i, r) && i < |r|
    ensures ThinnedFrom(m, n, i + 1, r[..i] + r[i + 1..])
  {
    hide EveryOther, Thinned;
    var k := i - n;
    var rest := m[n..];
    ThinnedStep(rest, k);
    var now := Thinned(rest, k);
    assert r[..i] + r[i + 1..] == m[..n] + (now[..k] + now[k + 1..]);
  }

  lemma ThinnedFromEnd(m: seq<DataRange>, n: nat, i: nat, r: seq<DataRange>)
    requires ThinnedFrom(m, n, i, r) && i >= |r|
    ensures r == KeptFrom(m, n)
  {
    hide EveryOther, Thinned;
    if |m| > n { ThinnedEnd(m[n..], i - n); }
  }

  lemma {:induction false} EveryOtherSize(s: seq<DataRange>)
    ensures |EveryOther(s)| == |s| / 2
    ensures |s| % 2 == 1 ==> EveryOther(s) == EveryOther(s[..|s| - 1])
    decreases |s|
  {
    if |s| >= 2 {
      EveryOtherSize(s[2..]);
      if |s| % 2 == 1 { assert s[..|s| - 1][2..] == s[2..][..|s| - 3]; }
    }
  }

  lemma {:induction false} EveryOtherMore(s: seq<DataRange>, a: DataRange, b: DataRange)
    requires |s| % 2 == 0
    ensures EveryOther(s + [a, b]) == EveryOther(s) + [b]
    decreases |s|
  {
    if s != [] {
      EveryOtherMore(s[2..], a, b);
      assert (s + [a, b])[2..] == s[2..] + [a, b];
    }
  }

  /** Dropping range i of the thinned list thins it further. */
  lemma ThinnedStep(s: seq<DataRange>, i: nat)
    requires 2 * i <= |s| + 1 && i < |Thinned(s, i)|
    ensures 2 * i < |s|
    ensures Thinned(s, i)[..i] + Thinned(s, i)[i + 1..] == Thinned(s, i + 1)
  {
    hide EveryOther;
    EveryOtherSize(s);
    if 2 * i <= |s| {
      EveryOtherSize(s[..2 * i]);
      DropMiddle(EveryOther(s[..2 * i]), s[2 * i..], i);
      ThinnedRest(s, i);
    }
  }

  lemma DropMiddle(done: seq<DataRange>, rest: seq<DataRange>, i: nat)
    requires i == |done| && (rest != [] || i < |done + rest|)
    ensures (done + rest)[..i] + (done + rest)[i + 1..] == done + rest[1..]
  {}

  lemma ThinnedRest(s: seq<DataRange>, i: nat)
    requires 2 * i < |s|
    ensures EveryOther(s[..2 * i]) + s[2 * i..][1..] == Thinned(s, i + 1)
  {
    hide EveryOther;
    var done, rest := s[..2 * i], s[2 * i..];
    if |rest| >= 2 {
      EveryOtherMore(done, s[2 * i], s[2 * i + 1]);
      assert s[..2 * (i + 1)] == done + [s[2 * i], s[2 * i + 1]];
      assert rest[1..] == [s[2 * i + 1]] + s[2 * (i + 1)..];
    } else {
      EveryOtherSize(s);
      assert rest[1..] == [] && s[..|s| - 1] == done;
    }
  }

  lemma ThinnedEnd(s: seq<DataRange>, i: nat)
    requires 2 * i <= |s| + 1 && i >= |Thinned(s, i)|
    ensures Thinned(s, i) == EveryOther(s)
  {
    hide EveryOther;
    if 2 * i <= |s| {
      EveryOtherSize(s[..2 * i]);
      assert s[2 * i..] == [];
      assert s[..2 * i] == s;
    }
  }

  /** A range of a simplified list is all that is lost when it is subtracted. */
  lemma OwnRange(s: seq<DataRange>, i: nat)
    requires i < |s| && Simple(s) && AllValid(s)
    ensures !IsEmpty(s[i]) && Simple(s[..i] + s[i + 1..])
    ensures forall x :: Covers(s[..i] + s[i + 1..], x) <==> Covers(s, x) && !Within(s[i], x)
  {
    var a, b := s[..i], s[i + 1..];
    SimpleJoin(a, b);
    forall x ensures Covers(a + b, x) <==> Covers(s, x) && !Within(s[i], x) {
      CoversAround(s, i, x);
      CoversJoin(a, b, x);
      if Within(s[i], x) {
        assert forall j | 0 <= j < i :: a[j].end < s[i].begin;
        assert forall j | 0 <= j < |b| :: s[i].end < b[j].begin;
      }
    }
  }

  lemma NothingCovered()
    ensures forall x :: !Covers([], x)
    ensures forall s: seq<DataRange>, x :: !Covers(s[..0], x)
  {}

  lemma OneCovered(r: DataRange)
    ensures forall x :: Covers([r], x) <==> Within(r, x)
  {
    forall x ensures Covers([r], x) <==> Within(r, x) { CoversOne(r, x); }
  }

  lemma CoversMore(s: seq<DataRange>, i: nat)
    requires i < |s|
    ensures forall x :: Covers(s[..i + 1], x) <==> Covers(s[..i], x) || Within(s[i], x)
  {
    forall x ensures Covers(s[..i + 1], x) <==> Covers(s[..i], x) || Within(s[i], x) {
      CoversJoin(s[..i], [s[i]], x);
      CoversOne(s[i], x);
      assert s[..i + 1] == s[..i] + [s[i]];
    }
  }

  lemma RangeCovered(s: seq<DataRange>, i: nat)
    requires i < |s|
    ensures forall x | Within(s[i], x) :: Covers(s, x)
  {}

  // ---- Steps of inverse ----

  /** The outer range, widened to the span of the selection. */
  function FullRange(s: seq<DataRange>, outer: DataRange): DataRange {
    if s == [] then outer else Expanded(outer, DataRange(s[0].begin, s[|s| - 1].end))
  }

  lemma FullRangeHolds(s: seq<DataRange>, outer: DataRange)
    ensures forall x :: Within(FullRange(s, outer), x) <==>
              && (outer.begin <= x || (s != [] && s[0].begin <= x))
              && (x < outer.end || (s != [] && x < s[|s| - 1].end))
  {}

  lemma FullRangeBounds(s: seq<DataRange>, outer: DataRange)
    requires s != [] && AllValid(s) && IsValid(outer)
    ensures var full := FullRange(s, outer); 0 <= full.begin <= s[0].begin && s[|s| - 1].end <= full.end
  {}

  /** Around range i nothing is covered but the ranges themselves. */
  lemma Gaps(s: seq<DataRange>, i: nat)
    requires s != [] && Ascending(s) && i <= |s|
    ensures i == 0 ==> forall x | x < s[0].begin :: !Covers(s, x)
    ensures i > 0 ==> forall x | s[i - 1].begin <= x < s[i - 1].end :: Covers(s, x)
    ensures 0 < i < |s| ==> forall x | s[i - 1].end <= x < s[i].begin :: !Covers(s, x)
    ensures i == |s| ==> forall x | s[i - 1].end <= x :: !Covers(s, x)
  {
    if i > 0 {
      forall x | s[i - 1].begin <= x < s[i - 1].end ensures Covers(s, x) { assert Within(s[i - 1], x); }
    }
  }

  // ---- Steps of contains ----

  /** If s holds all of t, some range of s from k on holds range j of t. */
  ghost predicate Ahead(s: seq<DataRange>, t: seq<DataRange>, k: nat, j: nat)
    requires j < |t|
  {
    Simple(s) && Simple(t) && (forall x | Covers(t, x) :: Covers(s, x))
    ==> exists i :: k <= i < |s| && s[i].begin <= t[j].begin && s[i].end >= t[j].end
  }

  lemma FirstInside(s: seq<DataRange>, t: seq<DataRange>, k: nat, j: nat)
    requires j == 0 ==> k == 0
    requires 0 < j <= |t| ==> k < |s| && s[k].begin <= t[j - 1].begin
    ensures j < |t| ==> Ahead(s, t, k, j)
  {
    if j < |t| && Simple(s) && Simple(t) && (forall x | Covers(t, x) :: Covers(s, x)) {
      forall x | Within(t[j], x) ensures Covers(s, x) { assert Covers(t, x); }
      var i := OneRangeHolds(s, t[j]);
    }
  }

  /** A stretch of indices held by a simplified list lies in one of its ranges. */
  lemma OneRangeHolds(s: seq<DataRange>, r: DataRange) returns (i: nat)
    requires Simple(s) && r.begin < r.end
    requires forall x | Within(r, x) :: Covers(s, x)
    ensures i < |s| && s[i].begin <= r.begin && s[i].end >= r.end
  {
    assert Within(r, r.begin);
    i :| 0 <= i < |s| && Within(s[i], r.begin);
    if s[i].end < r.end {
      Gaps(s, i + 1);
      assert Within(r, s[i].end);
    }
  }

  lemma SimpleStart(s: seq<DataRange>, n: nat)
    requires n <= 1 && NoneEmpty(s)
    ensures SimpleUpTo(s, n)
  {}

  lemma SimpleIsAscending(s: seq<DataRange>)
    requires Simple(s)
    ensures Ascending(s)
  {}

  lemma SimpleNext(s: seq<DataRange>, i: nat)
    requires 1 <= i < |s| && SimpleUpTo(s, i) && NoneEmpty(s) && s[i - 1].end < s[i].begin
    ensures SimpleUpTo(s, i + 1)
  {}

  lemma JoinedIs(s: seq<DataRange>, i: nat)
    requires 1 <= i < |s|
    ensures var t := s[i - 1 := DataRange(s[i - 1].begin, Max(s[i - 1].end, s[i].end))];
            t[..i] + t[i + 1..] == Joined(s, i)
  {}
}
