/** QCPDataContainer: a sorted vector with a preallocated gap at the front. */
module DataContainer {
  import opened SortedData
  import opened DataQueries
  import opened DataModel
  import DataSelection

  // ---- The container ----

  /** The growth of the preallocation pool: 4, 20, 52, ... up to 32756 beyond what is asked for. */
  function PoolGrowth(iteration: nat): nat {
    Power2(if iteration + 4 > 15 then 15 else iteration + 4) - 12
  }

  /** 4 the first time, each later growth 12 more than twice the one before, and 32756 from the twelfth on. */
  lemma PoolGrowths(iteration: nat)
    ensures PoolGrowth(0) == 4
    ensures iteration < 11 ==> PoolGrowth(iteration + 1) == 2 * PoolGrowth(iteration) + 12
    ensures iteration >= 11 ==> PoolGrowth(iteration) == 32756
  {
    assert Power2(15) == 32768 by { PowersUpTo15(); }
  }

  lemma PowersUpTo15()
    ensures Power2(15) == 32768
  {
    assert Power2(7) == 128;
    assert Power2(10) == 1024;
    assert Power2(13) == 8192;
  }

  function Power2(n: nat): (p: nat)
    requires n >= 4
    ensures p >= 16
  {
    if n == 4 then 16 else 2 * Power2(n - 1)
  }

  /** The largest preallocation pool that is left alone, for the capacity and the number of visible points:
      a tenth of them above 650000, one and a half times as many above 1000, anything below. */
  predicate PreallocTooLarge(capacity: int, preallocSize: int, usedSize: int) {
    capacity > 1000 && (if capacity > 650000 then 10 * preallocSize > usedSize else 2 * preallocSize > 3 * usedSize)
  }

  /** The same for the space behind the last element. */
  predicate PostallocTooLarge(capacity: int, size: int, usedSize: int) {
    var postAllocSize := capacity - size;
    capacity > 1000
    && (if capacity > 650000 then 2 * postAllocSize > 3 * usedSize else postAllocSize > 5 * usedSize)
  }

  /** The thresholds in the terms of the source: fractions of the number of visible points. */
  lemma PoolThresholds(capacity: int, preallocSize: int, size: int, usedSize: int)
    ensures capacity <= 1000 ==>
              !PreallocTooLarge(capacity, preallocSize, usedSize) && !PostallocTooLarge(capacity, size, usedSize)
    ensures 1000 < capacity <= 650000 ==>
              && (PreallocTooLarge(capacity, preallocSize, usedSize) <==> preallocSize as real > usedSize as real * 1.5)
              && (PostallocTooLarge(capacity, size, usedSize) <==> capacity - size > usedSize * 5)
    ensures capacity > 650000 ==>
              && (PreallocTooLarge(capacity, preallocSize, usedSize) <==> preallocSize * 10 > usedSize)
              && (PostallocTooLarge(capacity, size, usedSize) <==> (capacity - size) as real > usedSize as real * 1.5)
  {}

  /** A vector of which both pools are left alone is at most 2.6 times as large as its visible points above 650000,
      and at most 7.5 times as large above 1000. */
  lemma PoolsBounded(capacity: int, preallocSize: int, size: int)
    requires 0 <= preallocSize <= size <= capacity
    requires !PreallocTooLarge(capacity, preallocSize, size - preallocSize)
    requires !PostallocTooLarge(capacity, size, size - preallocSize)
    ensures capacity > 650000 ==> 10 * capacity <= 26 * (size - preallocSize)
    ensures 1000 < capacity <= 650000 ==> 2 * capacity <= 15 * (size - preallocSize)
  {}

  class QCPDataContainer {
    const blank: DataPoint
    var mAutoSqueeze: bool
    var mData: seq<DataPoint>
    var mPreallocSize: int
    var mPreallocIteration: nat
    var capacity: int   // mData.capacity()

    constructor (blank: DataPoint)
      ensures Valid() && Contents() == [] && mAutoSqueeze
    {
      this.blank := blank;
      mAutoSqueeze := true;
      mData := [];
      capacity := 0;
      mPreallocSize := 0;
      mPreallocIteration := 0;
    }

    predicate InBounds()
      reads this
    {
      0 <= mPreallocSize <= |mData| <= capacity
    }

    /** The visible points. */
    function Contents(): seq<DataPoint>
      requires InBounds()
      reads this
    {
      mData[mPreallocSize..]
    }

    ghost predicate Valid()
      reads this
    {
      InBounds() && Sorted(Contents())
    }

    /** The visible points as a bag. */
    ghost function Points(): Bag
      requires InBounds()
      reads this
    {
      multiset(Contents())
    }

    function Size(): int
      reads this
    {
      |mData| - mPreallocSize
    }

    function IsEmpty(): bool
      reads this
    {
      Size() == 0
    }

    method SetAutoSqueeze(enabled: bool)
      requires Valid()
      modifies this
      ensures Valid() && Contents() == old(Contents()) && mAutoSqueeze == enabled
      ensures !enabled || old(mAutoSqueeze) ==>
                mData == old(mData) && mPreallocSize == old(mPreallocSize) && capacity == old(capacity)
      ensures enabled && !old(mAutoSqueeze) ==>
                mPreallocSize == if PreallocTooLarge(old(capacity), old(mPreallocSize), Size()) then 0
                                 else old(mPreallocSize)
    {
      if mAutoSqueeze != enabled {
        mAutoSqueeze := enabled;
        if mAutoSqueeze {
          PerformAutoSqueeze();
        }
      }
    }

    /** A vector operation that may reallocate: the new capacity is anything that holds the elements. */
    method Store(data: seq<DataPoint>)
      modifies this`mData, this`capacity
      ensures mData == data && |mData| <= capacity
    {
      mData := data;
      var now: int :| |data| <= now;
      capacity := now;
    }

    method Set(data: seq<DataPoint>, alreadySorted: bool)
      requires alreadySorted ==> Sorted(data)
      modifies this
      ensures Valid() && Points() == multiset(data) && mPreallocSize == 0
      ensures alreadySorted ==> Contents() == data
      ensures mAutoSqueeze == old(mAutoSqueeze)
    {
      Store(data);
      mPreallocSize := 0;
      mPreallocIteration := 0;
      if !alreadySorted {
        Sort();
      }
    }

    /** The prepending branch shared by the two bulk additions. */
    method Prepend(data: seq<DataPoint>)
      requires InBounds()
      modifies this
      ensures InBounds() && Contents() == data + old(Contents())
      ensures mAutoSqueeze == old(mAutoSqueeze)
    {
      var n := |data|;
      if mPreallocSize < n {
        PreallocateGrow(n);
      }
      mPreallocSize := mPreallocSize - n;
      mData := mData[..mPreallocSize] + data + mData[mPreallocSize + n..];
    }

    /** The appending branch shared by the two bulk additions, `data` sorted. */
    method AppendAndMerge(data: seq<DataPoint>)
      requires Valid() && Sorted(data) && data != []
      modifies this
      ensures Valid() && Contents() == Merged(old(Contents()), data)
      ensures mAutoSqueeze == old(mAutoSqueeze)
    {
      hide Sorted, Merged;
      var n := |data|;
      var oldSize := Size();
      ghost var before := Contents();
      MergedSortsBoth(before, data);
      Store(mData + data);
      assert Contents() == before + data;
      if oldSize > 0 && !LessThan(mData[|mData| - n - 1], mData[|mData| - n]) {
        mData := mData[..mPreallocSize] + Merged(mData[mPreallocSize..|mData| - n], mData[|mData| - n..]);
        assert Contents() == Merged(before, data);
      } else {
        MergedIsJoin(before, data);
      }
    }

    /** add(const QCPDataContainer &): from itself a container can take points only when it has none; otherwise the
        source copies a range onto itself or past the end of the vector. */
    method AddContainer(data: QCPDataContainer)
      requires Valid() && data.Valid() && (data != this || data.IsEmpty())
      modifies this
      ensures Valid() && Points() == old(Points()) + old(data.Points())
      ensures Contents() == Joined(old(Contents()), old(data.Contents()))
      ensures mAutoSqueeze == old(mAutoSqueeze)
    {
      hide Sorted, Merged;
      JoinedKeeps(Contents(), data.Contents());
      NothingJoined(Contents());
      if data.IsEmpty() {
        return;
      }
      var added := data.Contents();
      if Size() > 0 && !LessThan(mData[mPreallocSize], data.mData[|data.mData| - 1]) {
        MergedIsJoin(added, Contents());
        Prepend(added);
      } else {
        AppendAndMerge(added);
      }
    }

    /** add(const QVector &, bool) */
    method AddData(data: seq<DataPoint>, alreadySorted: bool)
      requires Valid() && (alreadySorted ==> Sorted(data))
      modifies this
      ensures Valid() && Points() == old(Points()) + multiset(data)
      ensures ListStep(Op.AddData(data, alreadySorted), old(Contents()), Contents())
      ensures mAutoSqueeze == old(mAutoSqueeze)
    {
      hide Sorted, Merged;
      NothingJoined(Contents());
      if data == [] {
        assert Arranged(data, []) by { NothingSorted(); }
        return;
      }
      if IsEmpty() {
        Set(data, alreadySorted);
        NothingMerged(Contents());
        return;
      }
      if alreadySorted && Size() > 0 && !LessThan(mData[mPreallocSize], data[|data| - 1]) {
        JoinedKeeps(Contents(), data);
        MergedIsJoin(data, Contents());
        Prepend(data);
      } else {
        var added := data;
        if !alreadySorted {
          added := SortedData.Sort(data);
        }
        MergedSortsBoth(Contents(), added);
        AppendAndMerge(added);
        assert Arranged(data, added);
      }
    }

    /** add(const DataType &) */
    method AddPoint(data: DataPoint)
      requires Valid()
      modifies this
      ensures Valid() && Points() == old(Points()) + multiset{data}
      ensures Contents() == Inserted(old(Contents()), data)
      ensures forall key :: WithKey(Contents(), key) ==
                if key != data.sortKey then WithKey(old(Contents()), key)
                else if old(IsEmpty()) || data.sortKey >= old(Contents()[Size() - 1].sortKey)
                then WithKey(old(Contents()), key) + [data]
                else [data] + WithKey(old(Contents()), key)
      ensures mAutoSqueeze == old(mAutoSqueeze)
    {
      hide Sorted, Below;
      InsertedKeeps(Contents(), data);
      forall key { InsertedStable(Contents(), data, key); }
      hide WithKey;
      if IsEmpty() || !LessThan(data, mData[|mData| - 1]) {
        Append(data);
      } else if LessThan(data, mData[mPreallocSize]) {
        NoneBelow(Contents(), data);
        PrependOne(data);
      } else {
        var at := LowerBound(Contents(), data.sortKey);
        BelowIs(Contents(), data.sortKey, at);
        InsertAt(at, data);
      }
    }

    method Append(data: DataPoint)
      requires InBounds()
      modifies this`mData, this`capacity
      ensures InBounds() && Contents() == old(Contents()) + [data]
    {
      Store(mData + [data]);
    }

    method PrependOne(data: DataPoint)
      requires InBounds()
      modifies this
      ensures InBounds() && Contents() == [data] + old(Contents())
      ensures mAutoSqueeze == old(mAutoSqueeze)
    {
      if mPreallocSize < 1 {
        PreallocateGrow(1);
      }
      mPreallocSize := mPreallocSize - 1;
      mData := mData[mPreallocSize := data];
    }

    method InsertAt(at: int, data: DataPoint)
      requires InBounds() && 0 <= at <= Size()
      modifies this`mData, this`capacity
      ensures InBounds() && Contents() == old(Contents())[..at] + [data] + old(Contents())[at..]
    {
      var insertionPoint := mPreallocSize + at;
      Store(mData[..insertionPoint] + [data] + mData[insertionPoint..]);
    }

    /** mData.erase on visible points. */
    method Erase(at: int, end: int)
      requires InBounds() && 0 <= at <= end <= Size()
      modifies this`mData, this`capacity
      ensures InBounds() && Contents() == old(Contents())[..at] + old(Contents())[end..]
    {
      Store(mData[..mPreallocSize + at] + mData[mPreallocSize + end..]);
    }

    /** Leaves the first points behind in the preallocation pool. */
    method Forget(end: int)
      requires InBounds() && 0 <= end <= Size()
      modifies this`mPreallocSize
      ensures InBounds() && Contents() == old(Contents())[..0] + old(Contents())[end..]
    {
      mPreallocSize := mPreallocSize + end;
    }

    method AutoSqueezeIfEnabled()
      requires InBounds()
      modifies this
      ensures InBounds() && Contents() == old(Contents()) && mAutoSqueeze == old(mAutoSqueeze)
      ensures mPreallocSize == if mAutoSqueeze && PreallocTooLarge(old(capacity), old(mPreallocSize), Size()) then 0
                               else old(mPreallocSize)
      ensures mAutoSqueeze && PostallocTooLarge(old(capacity), old(|mData|), Size()) ==> capacity == |mData|
      ensures !mAutoSqueeze ==>
                mData == old(mData) && capacity == old(capacity) && mPreallocIteration == old(mPreallocIteration)
    {
      if mAutoSqueeze {
        PerformAutoSqueeze();
      }
    }

    /** The documentation says "smaller than or equal"; points at the key itself stay. */
    method RemoveBefore(sortKey: real)
      requires Valid()
      modifies this
      ensures Valid() && BagStep(Op.RemoveBefore(sortKey), old(Points()), Points())
      ensures Contents() == old(Contents())[Below(old(Contents()), sortKey)..]
      ensures AsDocumented(Op.RemoveBefore(sortKey), old(Points()), Points()) <==> !HasKey(old(Points()), sortKey)
      ensures !mAutoSqueeze ==>
                mData == old(mData) && mPreallocSize == old(mPreallocSize) + Below(old(Contents()), sortKey)
      ensures mAutoSqueeze == old(mAutoSqueeze)
    {
      hide Sorted, BagStep, AsDocumented, HasKey, Below;
      ghost var before := Contents();
      var end := LowerBound(Contents(), sortKey);
      BelowIs(before, sortKey, end);
      Forget(end);
      AutoSqueezeIfEnabled();
      ListStepIsBagStep(Op.RemoveBefore(sortKey), before, Contents());
      RemovedAsDocumented(Op.RemoveBefore(sortKey), multiset(before), Points());
    }

    /** The documentation says "greater than or equal"; points at the key itself stay. */
    method RemoveAfter(sortKey: real)
      requires Valid()
      modifies this
      ensures Valid() && BagStep(Op.RemoveAfter(sortKey), old(Points()), Points())
      ensures Contents() == old(Contents())[..NotAbove(old(Contents()), sortKey)]
      ensures AsDocumented(Op.RemoveAfter(sortKey), old(Points()), Points()) <==> !HasKey(old(Points()), sortKey)
      ensures !mAutoSqueeze ==> mPreallocSize == old(mPreallocSize)
      ensures mAutoSqueeze == old(mAutoSqueeze)
    {
      hide Sorted, BagStep, AsDocumented, HasKey, NotAbove;
      ghost var before := Contents();
      var at := UpperBound(Contents(), sortKey);
      NotAboveIs(before, sortKey, at);
      Erase(at, Size());
      AutoSqueezeIfEnabled();
      ListStepIsBagStep(Op.RemoveAfter(sortKey), before, Contents());
      RemovedAsDocumented(Op.RemoveAfter(sortKey), multiset(before), Points());
    }

    /** remove(double, double) */
    method RemoveRange(sortKeyFrom: real, sortKeyTo: real)
      requires Valid()
      modifies this
      ensures Valid() && BagStep(Op.RemoveRange(sortKeyFrom, sortKeyTo), old(Points()), Points())
      ensures Contents() == WithoutRange(old(Contents()), sortKeyFrom, sortKeyTo)
      ensures forall key :: WithKey(Contents(), key) ==
                if sortKeyFrom < sortKeyTo && sortKeyFrom <= key <= sortKeyTo then []
                else WithKey(old(Contents()), key)
      ensures mAutoSqueeze == old(mAutoSqueeze)
    {
      hide Sorted, BagStep, WithoutRange;
      ghost var before := Contents();
      WithoutRangeKeeps(before, sortKeyFrom, sortKeyTo);
      forall key { WithoutRangeStable(before, sortKeyFrom, sortKeyTo, key); }
      hide WithKey;
      if sortKeyFrom >= sortKeyTo || IsEmpty() {
        NothingWithout(before, sortKeyFrom, sortKeyTo);
        return;
      }
      var at := LowerBound(Contents(), sortKeyFrom);
      SortedTail(before, at);
      var n := UpperBound(Contents()[at..], sortKeyTo);
      WindowIs(before, sortKeyFrom, sortKeyTo, at, n);
      Erase(at, at + n);
      AutoSqueezeIfEnabled();
    }

    /** remove(double): the first point with the key. */
    method RemoveKey(sortKey: real)
      requires Valid()
      modifies this
      ensures Valid() && BagStep(Op.RemoveKey(sortKey), old(Points()), Points())
      ensures Contents() == WithoutFirst(old(Contents()), sortKey)
      ensures !mAutoSqueeze ==>
                mPreallocSize == old(mPreallocSize)
                                 + if old(!IsEmpty() && Contents()[0].sortKey == sortKey) then 1 else 0
      ensures forall key :: WithKey(Contents(), key) ==
                if key == sortKey && WithKey(old(Contents()), key) != [] then WithKey(old(Contents()), key)[1..]
                else WithKey(old(Contents()), key)
      ensures mAutoSqueeze == old(mAutoSqueeze)
    {
      hide Sorted, BagStep, Below;
      ghost var before := Contents();
      WithoutFirstKeeps(before, sortKey);
      forall key { WithoutFirstStable(before, sortKey, key); }
      hide WithKey;
      var at := LowerBound(Contents(), sortKey);
      BelowIs(before, sortKey, at);
      if at < Size() && Contents()[at].sortKey == sortKey {
        if at == 0 {
          Forget(1);
        } else {
          Erase(at, at + 1);
        }
      }
      AutoSqueezeIfEnabled();
    }

    method Clear()
      modifies this
      ensures Valid() && Contents() == [] && mAutoSqueeze == old(mAutoSqueeze)
    {
      Store([]);
      mPreallocIteration := 0;
      mPreallocSize := 0;
    }

    method Sort()
      requires InBounds()
      modifies this`mData
      ensures Valid() && Points() == old(Points())
    {
      var sorted := SortedData.Sort(Contents());
      mData := mData[..mPreallocSize] + sorted;
      assert Contents() == sorted;
    }

    method Squeeze(preAllocation: bool, postAllocation: bool)
      requires InBounds()
      modifies this
      ensures InBounds() && Contents() == old(Contents()) && mAutoSqueeze == old(mAutoSqueeze)
      ensures mPreallocSize == if preAllocation then 0 else old(mPreallocSize)
      ensures mPreallocIteration == if preAllocation then 0 else old(mPreallocIteration)
      ensures postAllocation ==> capacity == |mData|
      ensures !preAllocation ==> mData == old(mData)
      ensures !preAllocation && !postAllocation ==> capacity == old(capacity)
    {
      if preAllocation {
        if mPreallocSize > 0 {
          ghost var before := Contents();
          var n := Size();
          mData := mData[mPreallocSize..] + mData[n..];
          Store(mData[..n]);
          mPreallocSize := 0;
          assert Contents() == before;
        }
        mPreallocIteration := 0;
      }
      if postAllocation {
        capacity := |mData|;
      }
    }

    method PreallocateGrow(minimumPreallocSize: int)
      requires InBounds()
      modifies this
      ensures InBounds() && Contents() == old(Contents()) && mAutoSqueeze == old(mAutoSqueeze)
      ensures mPreallocSize >= minimumPreallocSize
      ensures if minimumPreallocSize <= old(mPreallocSize)
              then mPreallocSize == old(mPreallocSize) && mPreallocIteration == old(mPreallocIteration)
              else mPreallocSize == minimumPreallocSize + PoolGrowth(old(mPreallocIteration))
                   && mPreallocIteration == old(mPreallocIteration) + 1
    {
      if minimumPreallocSize <= mPreallocSize {
        return;
      }
      ghost var before := Contents();
      var newPreallocSize := minimumPreallocSize + PoolGrowth(mPreallocIteration);
      mPreallocIteration := mPreallocIteration + 1;
      var sizeDifference := newPreallocSize - mPreallocSize;
      var moved := mData[mPreallocSize..];
      Store(mData + seq(sizeDifference, _ => blank));
      mData := mData[..mPreallocSize + sizeDifference] + moved;
      mPreallocSize := newPreallocSize;
      assert Contents() == before;
    }

    /** Each pool is freed exactly when it is too large, and nothing happens when neither is. */
    method PerformAutoSqueeze()
      requires InBounds()
      modifies this
      ensures InBounds() && Contents() == old(Contents()) && mAutoSqueeze == old(mAutoSqueeze)
      ensures var pre := PreallocTooLarge(old(capacity), old(mPreallocSize), Size());
              var post := PostallocTooLarge(old(capacity), old(|mData|), Size());
              && mPreallocSize == (if pre then 0 else old(mPreallocSize))
              && (post ==> capacity == |mData|)
              && (!pre ==> mData == old(mData) && mPreallocIteration == old(mPreallocIteration))
              && (!pre && !post ==> capacity == old(capacity))
    {
      var totalAlloc := capacity;
      var postAllocSize := totalAlloc - |mData|;
      var usedSize := Size();
      var shrinkPostAllocation := false;
      var shrinkPreAllocation := false;
      if totalAlloc > 650000 {
        shrinkPostAllocation := 2 * postAllocSize > 3 * usedSize;
        shrinkPreAllocation := mPreallocSize * 10 > usedSize;
      } else if totalAlloc > 1000 {
        shrinkPostAllocation := postAllocSize > usedSize * 5;
        shrinkPreAllocation := 2 * mPreallocSize > 3 * usedSize;
      }
      if shrinkPreAllocation || shrinkPostAllocation {
        Squeeze(shrinkPreAllocation, shrinkPostAllocation);
      }
    }

    /** An index relative to constBegin. */
    method FindBegin(sortKey: real, expandedRange: bool) returns (it: int)
      requires Valid()
      ensures if expandedRange then IsExpandedBegin(Contents(), sortKey, it) else IsLowerBound(Contents(), sortKey, it)
    {
      if IsEmpty() {
        return Size();
      }
      it := LowerBound(Contents(), sortKey);
      if expandedRange && it != 0 {
        it := it - 1;
      }
    }

    method FindEnd(sortKey: real, expandedRange: bool) returns (it: int)
      requires Valid()
      ensures if expandedRange then IsExpandedEnd(Contents(), sortKey, it) else IsUpperBound(Contents(), sortKey, it)
    {
      if IsEmpty() {
        return Size();
      }
      it := UpperBound(Contents(), sortKey);
      if expandedRange && it != Size() {
        it := it + 1;
      }
    }

    /** keyRange: the fast path looks from both ends when the sort key is the main key. */
    method KeyRange(signDomain: SignDomain, sortKeyIsMainKey: bool) returns (foundRange: bool, range: Range)
      requires Valid() && (sortKeyIsMainKey ==> KeysAgree(Contents()))
      ensures IsKeyRange(signDomain, Contents(), foundRange, range)
      ensures foundRange <==>
                exists i :: 0 <= i < Size() && Contents()[i].mainValue != NaN
                  && (signDomain == Negative ==> Contents()[i].mainKey < 0.0)
                  && (signDomain == Positive ==> Contents()[i].mainKey > 0.0)
      ensures foundRange ==>
                forall i | 0 <= i < Size() && Contents()[i].mainValue != NaN
                  && (signDomain == Negative ==> Contents()[i].mainKey < 0.0)
                  && (signDomain == Positive ==> Contents()[i].mainKey > 0.0) ::
                  range.lower <= Contents()[i].mainKey <= range.upper
      ensures foundRange && signDomain == Negative ==> range.lower <= range.upper < 0.0
      ensures foundRange && signDomain == Positive ==> 0.0 < range.lower <= range.upper
    {
      if IsEmpty() {
        return false, Range(0.0, 0.0);
      }
      var s := Contents();
      if signDomain == Both && sortKeyIsMainKey {
        foundRange, range := KeyRangeFromEnds(s);
      } else {
        foundRange, range := KeyRangeScan(signDomain, s);
      }
      KeyRangeMeans(signDomain, s, foundRange, range);
    }

    /** valueRange: the scan is narrowed by binary search when the sort key is the main key. */
    method ValueRange(signDomain: SignDomain, inKeyRange: Range, sortKeyIsMainKey: bool)
      returns (foundRange: bool, range: Range)
      requires Valid() && Normalized(inKeyRange) && (sortKeyIsMainKey ==> KeysAgree(Contents()))
      ensures IsValueRange(signDomain, inKeyRange, Contents(), foundRange, range)
      ensures foundRange <==>
                && (exists i :: 0 <= i < Size() && Contents()[i].lower.Fin?
                      && (signDomain == Negative ==> Contents()[i].lower.r < 0.0)
                      && (signDomain == Positive ==> Contents()[i].lower.r > 0.0)
                      && (inKeyRange == Range(0.0, 0.0)
                          || inKeyRange.lower <= Contents()[i].mainKey <= inKeyRange.upper))
                && (exists i :: 0 <= i < Size() && Contents()[i].upper.Fin?
                      && (signDomain == Negative ==> Contents()[i].upper.r < 0.0)
                      && (signDomain == Positive ==> Contents()[i].upper.r > 0.0)
                      && (inKeyRange == Range(0.0, 0.0)
                          || inKeyRange.lower <= Contents()[i].mainKey <= inKeyRange.upper))
      ensures foundRange && signDomain == Negative ==> range.lower < 0.0 && range.upper < 0.0
      ensures foundRange && signDomain == Positive ==> range.lower > 0.0 && range.upper > 0.0
    {
      if IsEmpty() {
        NoValueBefore(signDomain, inKeyRange, Contents(), 0);
        return false, Range(0.0, 0.0);
      }
      var s := Contents();
      var restrictKeyRange := inKeyRange != Range(0.0, 0.0);
      var itBegin, itEnd := 0, Size();
      if sortKeyIsMainKey && restrictKeyRange {
        itBegin := FindBegin(inKeyRange.lower, false);
        itEnd := FindEnd(inKeyRange.upper, false);
        WindowIsScan(s, inKeyRange.lower, inKeyRange.upper, itBegin, itEnd);
      }
      foundRange, range := ValueRangeScan(signDomain, inKeyRange, s, itBegin, itEnd);
      ValueRangeMeans(signDomain, inKeyRange, s, foundRange, range);
    }

    /** limitIteratorsToDataRange: what is left of [begin, end) within the given range and the data. */
    method LimitIteratorsToDataRange(begin: int, end: int, dataRange: DataSelection.DataRange)
      returns (newBegin: int, newEnd: int)
      requires InBounds() && 0 <= begin <= end <= Size() && DataSelection.IsValid(dataRange)
      ensures 0 <= newBegin <= newEnd <= Size()
      ensures forall x :: newBegin <= x < newEnd <==> begin <= x < end && DataSelection.Within(dataRange, x)
    {
      hide DataSelection.Bounded;
      var all := DataSelection.DataRange(0, Size());
      var iteratorRange := DataSelection.DataRange(begin, end);
      DataSelection.BoundedStaysInside(dataRange, all);
      DataSelection.BoundedStaysInside(iteratorRange, DataSelection.Bounded(dataRange, all));
      var r := DataSelection.Bounded(iteratorRange, DataSelection.Bounded(dataRange, all));
      newBegin, newEnd := r.begin, r.end;
      forall x ensures newBegin <= x < newEnd <==> begin <= x < end && DataSelection.Within(dataRange, x) {
        assert DataSelection.Within(r, x) == (newBegin <= x < newEnd);
        assert DataSelection.Within(DataSelection.Bounded(dataRange, all), x) ==> DataSelection.Within(all, x);
        assert DataSelection.Within(iteratorRange, x) ==> DataSelection.Within(all, x);
      }
    }

    /** Any sequence of calls keeps the container valid and follows the list and the bag. */
    method ApplyAll(ops: seq<Op>)
      requires Valid() && forall i | 0 <= i < |ops| :: Allowed(ops[i])
      modifies this
      ensures Valid() && ListRun(ops, old(Contents()), Contents())
      ensures BagRun(ops, old(Points()), Points())
    {
      hide ListStep, ListRun, BagRun, Allowed, Sorted;
      ghost var before := Contents();
      ListRunNothing(before);
      for i := 0 to |ops|
        invariant Valid() && ListRun(ops[..i], before, Contents())
      {
        ghost var m := Contents();
        Apply(ops[i]);
        ListRunStep(ops[..i], ops[i], before, m, Contents());
        assert ops[..i + 1] == ops[..i] + [ops[i]];
      }
      assert ops[..|ops|] == ops;
      ListRunIsBagRun(ops, before, Contents());
    }

    /** One call of the interface. */
    method Apply(op: Op)
      requires Valid() && Allowed(op)
      modifies this
      ensures Valid() && ListStep(op, old(Contents()), Contents())
      ensures BagStep(op, old(Points()), Points())
    {
      hide Sorted, Joined, Inserted, WithoutFirst, WithoutRange, Below, NotAbove, BagStep, AsDocumented, Merged;
      ghost var before := Contents();
      match op {
      case SetData(data, alreadySorted) => Set(data, alreadySorted);
      case AddData(data, alreadySorted) => AddData(data, alreadySorted);
      case AddContainer(data) =>
        var other := new QCPDataContainer(blank);
        other.Set(data, true);
        AddContainer(other);
      case AddPoint(point) => AddPoint(point);
      case RemoveBefore(key) => RemoveBefore(key);
      case RemoveAfter(key) => RemoveAfter(key);
      case RemoveRange(from, to) => RemoveRange(from, to);
      case RemoveKey(key) => RemoveKey(key);
      case Clear => Clear();
      case Resort => Sort();
      case Squeeze(pre, post) => Squeeze(pre, post);
      case SetAutoSqueeze(enabled) => SetAutoSqueeze(enabled);
      }
      ListStepIsBagStep(op, before, Contents());
    }
  }
}
