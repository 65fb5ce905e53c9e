/** What a data container stands for: a sorted list of points, and the bag of those points. */
module DataModel {
  import opened SortedData
  import opened DataQueries

  // ---- The calls ----

  type Bag = multiset<DataPoint>

  datatype Op =
    | SetData(data: seq<DataPoint>, alreadySorted: bool)
    | AddData(data: seq<DataPoint>, alreadySorted: bool)
    | AddContainer(data: seq<DataPoint>)
    | AddPoint(point: DataPoint)
    | RemoveBefore(key: real)
    | RemoveAfter(key: real)
    | RemoveRange(from: real, to: real)
    | RemoveKey(key: real)
    | Clear
    | Resort
    | Squeeze(pre: bool, post: bool)
    | SetAutoSqueeze(enabled: bool)

  /** What the documentation asks of a caller: input flagged as sorted is sorted. */
  predicate Allowed(op: Op) {
    match op
    case SetData(data, alreadySorted) => alreadySorted ==> Sorted(data)
    case AddData(data, alreadySorted) => alreadySorted ==> Sorted(data)
    case AddContainer(data) => Sorted(data)
    case _ => true
  }

  /** The points that a call removes by their key. */
  predicate Gone(op: Op, p: DataPoint) {
    match op
    case RemoveBefore(key) => p.sortKey < key
    case RemoveAfter(key) => p.sortKey > key
    case RemoveRange(from, to) => from < to && from <= p.sortKey <= to
    case _ => false
  }

  /** The effect of one call on an unordered bag of points. */
  ghost predicate BagStep(op: Op, b: Bag, b': Bag) {
    match op
    case SetData(data, _) => b' == multiset(data)
    case AddData(data, _) => b' == b + multiset(data)
    case AddContainer(data) => b' == b + multiset(data)
    case AddPoint(point) => b' == b + multiset{point}
    case RemoveKey(key) =>
      if exists p :: p in b && p.sortKey == key
      then exists p :: p in b && p.sortKey == key && b' == b - multiset{p}
      else b' == b
    case Clear => b' == multiset{}
    case _ => forall p :: b'[p] == if Gone(op, p) then 0 else b[p]
  }

  // ---- What the documentation promises of removeBefore and removeAfter ----

  /** The points to be removed according to the documentation, which includes the key itself. */
  predicate DocumentedGone(op: Op, p: DataPoint) {
    match op
    case RemoveBefore(key) => p.sortKey <= key
    case RemoveAfter(key) => p.sortKey >= key
    case _ => Gone(op, p)
  }

  ghost predicate AsDocumented(op: Op, b: Bag, b': Bag) {
    forall p :: b'[p] == if DocumentedGone(op, p) then 0 else b[p]
  }

  ghost predicate HasKey(b: Bag, key: real) {
    exists p :: p in b && p.sortKey == key
  }

  /** The code does what the documentation says exactly when no point has the key itself. */
  lemma RemovedAsDocumented(op: Op, b: Bag, b': Bag)
    requires op.RemoveBefore? || op.RemoveAfter?
    requires BagStep(op, b, b')
    ensures AsDocumented(op, b, b') <==> !HasKey(b, op.key)
  {
    if p :| p in b && p.sortKey == op.key {
      assert b'[p] == b[p] && DocumentedGone(op, p);
    }
  }

  /** A point at the key stays, whichever of the two is called. */
  lemma KeyItselfStays(p: DataPoint)
    ensures BagStep(RemoveBefore(p.sortKey), multiset{p}, multiset{p})
    ensures !AsDocumented(RemoveBefore(p.sortKey), multiset{p}, multiset{p})
    ensures BagStep(RemoveAfter(p.sortKey), multiset{p}, multiset{p})
    ensures !AsDocumented(RemoveAfter(p.sortKey), multiset{p}, multiset{p})
  {
    assert HasKey(multiset{p}, p.sortKey) by { assert p in multiset{p}; }
    RemovedAsDocumented(RemoveBefore(p.sortKey), multiset{p}, multiset{p});
    RemovedAsDocumented(RemoveAfter(p.sortKey), multiset{p}, multiset{p});
  }

  lemma BagSplit(s: seq<DataPoint>, i: nat)
    requires i <= |s|
    ensures multiset(s) == multiset(s[..i]) + multiset(s[i..])
  {
    assert s == s[..i] + s[i..];
  }

  /** Cutting [i, j) out of s removes exactly the points of a class that fills it. */
  lemma CutOut(op: Op, s: seq<DataPoint>, i: nat, j: nat)
    requires op.RemoveBefore? || op.RemoveAfter? || op.RemoveRange?
    requires i <= j <= |s|
    requires forall k | 0 <= k < |s| :: Gone(op, s[k]) <==> i <= k < j
    ensures BagStep(op, multiset(s), multiset(s[..i] + s[j..]))
  {
    forall p ensures multiset(s[..i] + s[j..])[p] == if Gone(op, p) then 0 else multiset(s)[p] {
      CutOutPoint(op, s, i, j, p);
    }
  }

  lemma CutOutPoint(op: Op, s: seq<DataPoint>, i: nat, j: nat, p: DataPoint)
    requires i <= j <= |s|
    requires forall k | 0 <= k < |s| :: Gone(op, s[k]) <==> i <= k < j
    ensures multiset(s[..i] + s[j..])[p] == if Gone(op, p) then 0 else multiset(s)[p]
  {
    hide Gone;
    BagSplit(s, i);
    BagSplit(s[i..], j - i);
    assert s[i..][j - i..] == s[j..];
    if Gone(op, p) {
      assert p !in s[..i] && p !in s[j..];
    } else {
      assert p !in s[i..][..j - i];
    }
  }

  lemma SortedCut(s: seq<DataPoint>, i: nat, j: nat)
    requires Sorted(s) && i <= j <= |s|
    ensures Sorted(s[..i] + s[j..])
  {}

  /** A bag reached from b by the calls in order. */
  ghost predicate BagRun(ops: seq<Op>, b: Bag, b': Bag)
    decreases |ops|
  {
    if ops == [] then b' == b
    else
      var earlier, last := ops[..|ops| - 1], ops[|ops| - 1];
      exists m: Bag :: BagRun(earlier, b, m) && BagStep(last, m, b')
  }

  lemma BagRunStep(ops: seq<Op>, op: Op, b: Bag, m: Bag, b': Bag)
    requires BagRun(ops, b, m) && BagStep(op, m, b')
    ensures BagRun(ops + [op], b, b')
  {
    assert (ops + [op])[..|ops|] == ops;
  }

  /** The points a call brings in. */
  function Added(op: Op): Bag {
    match op
    case SetData(data, _) => multiset(data)
    case AddData(data, _) => multiset(data)
    case AddContainer(data) => multiset(data)
    case AddPoint(point) => multiset{point}
    case _ => multiset{}
  }

  function AllAdded(ops: seq<Op>): Bag {
    if ops == [] then multiset{} else AllAdded(ops[..|ops| - 1]) + Added(ops[|ops| - 1])
  }

  /** No run invents or duplicates a point. */
  lemma {:induction false} BagRunConserves(ops: seq<Op>, b: Bag, b': Bag)
    requires BagRun(ops, b, b')
    ensures b' <= b + AllAdded(ops)
    decreases |ops|
  {
    if ops != [] {
      var m: Bag :| BagRun(ops[..|ops| - 1], b, m) && BagStep(ops[|ops| - 1], m, b');
      BagRunConserves(ops[..|ops| - 1], b, m);
      BagStepConserves(ops[|ops| - 1], m, b');
    }
  }

  lemma BagStepConserves(op: Op, b: Bag, b': Bag)
    requires BagStep(op, b, b')
    ensures b' <= b + Added(op)
  {
    if op.RemoveBefore? || op.RemoveAfter? || op.RemoveRange? {
      forall p ensures b'[p] <= b[p] {}
    }
  }

  // ---- The list of points ----

  /** The number of leading points below the key. */
  function Below(s: seq<DataPoint>, key: real): (n: nat)
    ensures n <= |s|
  {
    if s == [] || s[0].sortKey >= key then 0 else 1 + Below(s[1..], key)
  }

  /** The number of leading points not above the key. */
  function NotAbove(s: seq<DataPoint>, key: real): (n: nat)
    ensures n <= |s|
  {
    if s == [] || s[0].sortKey > key then 0 else 1 + NotAbove(s[1..], key)
  }

  /** On a sorted list the two are the lower and the upper bound, and no other index is. */
  lemma {:induction false} BelowIs(s: seq<DataPoint>, key: real, i: int)
    requires Sorted(s)
    ensures IsLowerBound(s, key, i) <==> i == Below(s, key)
    decreases |s|
  {
    if s != [] && s[0].sortKey < key {
      BelowIs(s[1..], key, i - 1);
      assert forall j | 0 <= j < |s| - 1 :: s[1..][j] == s[j + 1];
    }
  }

  lemma {:induction false} NotAboveIs(s: seq<DataPoint>, key: real, i: int)
    requires Sorted(s)
    ensures IsUpperBound(s, key, i) <==> i == NotAbove(s, key)
    decreases |s|
  {
    if s != [] && s[0].sortKey <= key {
      NotAboveIs(s[1..], key, i - 1);
      assert forall j | 0 <= j < |s| - 1 :: s[1..][j] == s[j + 1];
    }
  }

  /** Sorted data added in bulk: before the list when none of it is above the first point, else after the points of
      the list with equal keys. */
  function Joined(s: seq<DataPoint>, data: seq<DataPoint>): seq<DataPoint> {
    if s != [] && data != [] && !LessThan(s[0], data[|data| - 1]) then Merged(data, s) else Merged(s, data)
  }

  /** A single point: behind all when it is not below the last point, else before the points with its key. */
  function Inserted(s: seq<DataPoint>, p: DataPoint): seq<DataPoint> {
    if s == [] || !LessThan(p, s[|s| - 1]) then s + [p]
    else s[..Below(s, p.sortKey)] + [p] + s[Below(s, p.sortKey)..]
  }

  /** The list without the first point that has the key. */
  function WithoutFirst(s: seq<DataPoint>, key: real): seq<DataPoint> {
    var i := Below(s, key);
    if i < |s| && s[i].sortKey == key then s[..i] + s[i + 1..] else s
  }

  function WithoutRange(s: seq<DataPoint>, from: real, to: real): seq<DataPoint> {
    if from < to then s[..Below(s, from)] + s[NotAbove(s, to)..] else s
  }

  /** What std::sort may make of the data. */
  predicate Arranged(data: seq<DataPoint>, s: seq<DataPoint>) {
    Sorted(s) && multiset(s) == multiset(data)
  }

  /** The effect of one call on a sorted list; only sorting leaves a choice, among points with equal keys. */
  ghost predicate ListStep(op: Op, s: seq<DataPoint>, s': seq<DataPoint>) {
    match op
    case SetData(data, alreadySorted) => if alreadySorted then s' == data else Arranged(data, s')
    case AddData(data, alreadySorted) =>
      if alreadySorted then s' == Joined(s, data) else exists d :: Arranged(data, d) && s' == Merged(s, d)
    case AddContainer(data) => s' == Joined(s, data)
    case AddPoint(point) => s' == Inserted(s, point)
    case RemoveBefore(key) => s' == s[Below(s, key)..]
    case RemoveAfter(key) => s' == s[..NotAbove(s, key)]
    case RemoveRange(from, to) => s' == WithoutRange(s, from, to)
    case RemoveKey(key) => s' == WithoutFirst(s, key)
    case Clear => s' == []
    case Resort => Arranged(s, s')
    case _ => s' == s
  }

  /** A list reached from s by the calls in order. */
  ghost predicate ListRun(ops: seq<Op>, s: seq<DataPoint>, s': seq<DataPoint>)
    decreases |ops|
  {
    if ops == [] then s' == s
    else
      var earlier, last := ops[..|ops| - 1], ops[|ops| - 1];
      exists m :: ListRun(earlier, s, m) && ListStep(last, m, s')
  }

  lemma ListRunStep(ops: seq<Op>, op: Op, s: seq<DataPoint>, m: seq<DataPoint>, s': seq<DataPoint>)
    requires ListRun(ops, s, m) && ListStep(op, m, s')
    ensures ListRun(ops + [op], s, s')
  {
    assert (ops + [op])[..|ops|] == ops;
  }

  /** The call sorts nothing. */
  predicate NothingToSort(op: Op) {
    match op
    case SetData(_, alreadySorted) => alreadySorted
    case AddData(_, alreadySorted) => alreadySorted
    case Resort => false
    case _ => true
  }

  /** As long as nothing has to be sorted, the calls determine the list, the order of equal keys included. */
  lemma {:induction false} ListRunDetermined(ops: seq<Op>, s: seq<DataPoint>, s1: seq<DataPoint>, s2: seq<DataPoint>)
    requires ListRun(ops, s, s1) && ListRun(ops, s, s2)
    requires forall i | 0 <= i < |ops| :: NothingToSort(ops[i])
    ensures s1 == s2
    decreases |ops|
  {
    if ops != [] {
      var earlier, last := ops[..|ops| - 1], ops[|ops| - 1];
      var m1: seq<DataPoint> :| ListRun(earlier, s, m1) && ListStep(last, m1, s1);
      var m2: seq<DataPoint> :| ListRun(earlier, s, m2) && ListStep(last, m2, s2);
      ListRunDetermined(earlier, s, m1, m2);
      StepDetermined(last, m1, s1, s2);
    }
  }

  lemma StepDetermined(op: Op, s: seq<DataPoint>, s1: seq<DataPoint>, s2: seq<DataPoint>)
    requires ListStep(op, s, s1) && ListStep(op, s, s2) && NothingToSort(op)
    ensures s1 == s2
  {
    hide Joined, Inserted, WithoutFirst, WithoutRange, Below, NotAbove;
  }

  // ---- Where points with equal keys stand ----

  lemma {:induction false} WithKeyJoin(a: seq<DataPoint>, b: seq<DataPoint>, key: real)
    ensures WithKey(a + b, key) == WithKey(a, key) + WithKey(b, key)
  {
    if a == [] {
      assert a + b == b;
    } else {
      WithKeyJoin(a[1..], b, key);
      assert (a + b)[1..] == a[1..] + b;
    }
  }

  lemma WithKeyOne(p: DataPoint, key: real)
    ensures WithKey([p], key) == if p.sortKey == key then [p] else []
  {
    assert [p][1..] == [];
  }

  /** A single point goes behind all points with its key when it is not below the last point, and otherwise in front of
      them; no other point moves. */
  lemma InsertedStable(s: seq<DataPoint>, p: DataPoint, key: real)
    requires Sorted(s)
    ensures WithKey(Inserted(s, p), key) ==
            if key != p.sortKey then WithKey(s, key)
            else if s == [] || p.sortKey >= s[|s| - 1].sortKey then WithKey(s, key) + [p]
            else [p] + WithKey(s, key)
  {
    hide WithKey, Below;
    var i := Below(s, p.sortKey);
    BelowIs(s, p.sortKey, i);
    WithKeyOne(p, key);
    WithKeyJoin(s, [p], key);
    WithKeyJoin(s[..i] + [p], s[i..], key);
    WithKeyJoin(s[..i], [p], key);
    WithKeyJoin(s[..i], s[i..], key);
    assert s[..i] + s[i..] == s;
    if key == p.sortKey { WithoutKey(s[..i], key); }
  }

  /** Removal by key takes the first point that has the key; no other point goes or moves. */
  lemma WithoutFirstStable(s: seq<DataPoint>, key: real, k: real)
    requires Sorted(s)
    ensures WithKey(WithoutFirst(s, key), k) ==
            if k == key && WithKey(s, k) != [] then WithKey(s, k)[1..] else WithKey(s, k)
  {
    hide WithKey, Below;
    var i := Below(s, key);
    BelowIs(s, key, i);
    WithKeyJoin(s[..i], s[i..], k);
    assert s[..i] + s[i..] == s;
    if k == key { WithoutKey(s[..i], k); }
    if i < |s| && s[i].sortKey == key {
      WithKeyJoin(s[..i], s[i + 1..], k);
      assert s[i..] == [s[i]] + s[i + 1..];
      WithKeyJoin([s[i]], s[i + 1..], k);
      WithKeyOne(s[i], k);
    } else if k == key {
      assert forall j | i <= j < |s| :: s[j].sortKey != key;
      WithoutKey(s, k);
    }
  }

  /** Removal by range takes all points with a key in the range and moves no other. */
  lemma WithoutRangeStable(s: seq<DataPoint>, from: real, to: real, k: real)
    requires Sorted(s)
    ensures WithKey(WithoutRange(s, from, to), k) == if from < to && from <= k <= to then [] else WithKey(s, k)
  {
    hide WithKey, Below, NotAbove;
    var i, j := Below(s, from), NotAbove(s, to);
    BelowIs(s, from, i);
    NotAboveIs(s, to, j);
    if from < to {
      WindowIsScan(s, from, to, i, j);
      hide Sorted, IsLowerBound, IsUpperBound;
      WithKeyJoin(s[..i], s[j..], k);
      WithKeyJoin(s[..i], s[i..j] + s[j..], k);
      WithKeyJoin(s[i..j], s[j..], k);
      assert s[..i] + (s[i..j] + s[j..]) == s;
      if from <= k <= to {
        WithoutKey(s[..i], k);
        WithoutKey(s[j..], k);
      } else {
        WithoutKey(s[i..j], k);
      }
    }
  }

  /** In 1, 2, 3 a second point with key 2 goes before the first. */
  lemma InsertedBefore(p: DataPoint, a: DataPoint, q: DataPoint, b: DataPoint)
    requires p.sortKey == 1.0 && a.sortKey == 2.0 && q.sortKey == 3.0 && b.sortKey == 2.0
    ensures Inserted([p, a, q], b) == [p, b, a, q]
  {
    var s := [p, a, q];
    BelowIs(s, 2.0, 1);
    hide Below;
    assert s[..1] + [b] + s[1..] == [p, b, a, q];
  }

  // ---- The list is sorted and holds the bag ----

  /** Every call keeps the list sorted and follows the bag. */
  lemma ListStepIsBagStep(op: Op, s: seq<DataPoint>, s': seq<DataPoint>)
    requires Sorted(s) && Allowed(op) && ListStep(op, s, s')
    ensures Sorted(s') && BagStep(op, multiset(s), multiset(s'))
  {
    hide Sorted, Joined, Inserted, WithoutFirst, WithoutRange, Below, NotAbove, Merged;
    match op
    case AddData(data, alreadySorted) =>
      if alreadySorted {
        JoinedKeeps(s, data);
      } else {
        var d :| Arranged(data, d) && s' == Merged(s, d);
        MergedSortsBoth(s, d);
      }
    case AddContainer(data) => JoinedKeeps(s, data);
    case AddPoint(point) => InsertedKeeps(s, point);
    case RemoveBefore(key) =>
      BelowIs(s, key, Below(s, key));
      CutBefore(s, key, Below(s, key));
      assert s[..0] + s[Below(s, key)..] == s[Below(s, key)..];
    case RemoveAfter(key) =>
      NotAboveIs(s, key, NotAbove(s, key));
      CutAfter(s, key, NotAbove(s, key));
      assert s[..NotAbove(s, key)] + s[|s|..] == s[..NotAbove(s, key)];
    case RemoveRange(from, to) => WithoutRangeKeeps(s, from, to);
    case RemoveKey(key) => WithoutFirstKeeps(s, key);
    case Clear => assert Sorted([]) by { NothingSorted(); }
    case _ =>
  }

  lemma NothingSorted()
    ensures Sorted([])
  {}

  lemma JoinedKeeps(s: seq<DataPoint>, data: seq<DataPoint>)
    requires Sorted(s) && Sorted(data)
    ensures Sorted(Joined(s, data)) && multiset(Joined(s, data)) == multiset(s) + multiset(data)
  {
    hide Sorted, Merged;
    MergedSortsBoth(s, data);
    MergedSortsBoth(data, s);
  }

  lemma InsertedKeeps(s: seq<DataPoint>, p: DataPoint)
    requires Sorted(s)
    ensures Sorted(Inserted(s, p)) && multiset(Inserted(s, p)) == multiset(s) + multiset{p}
  {
    hide Below;
    BelowIs(s, p.sortKey, Below(s, p.sortKey));
    SortedInsert(s, p, Below(s, p.sortKey));
    if s == [] || !LessThan(p, s[|s| - 1]) { SortedJoin(s, [p]); }
  }

  lemma WithoutRangeKeeps(s: seq<DataPoint>, from: real, to: real)
    requires Sorted(s)
    ensures Sorted(WithoutRange(s, from, to))
    ensures BagStep(RemoveRange(from, to), multiset(s), multiset(WithoutRange(s, from, to)))
  {
    hide Below, NotAbove, BagStep;
    if from < to {
      var i, j := Below(s, from), NotAbove(s, to);
      BelowIs(s, from, i);
      NotAboveIs(s, to, j);
      WindowIsScan(s, from, to, i, j);
      SortedCut(s, i, j);
      CutOut(RemoveRange(from, to), s, i, j);
    } else {
      CutNothing(s, from, to);
    }
  }

  lemma WithoutFirstKeeps(s: seq<DataPoint>, key: real)
    requires Sorted(s)
    ensures Sorted(WithoutFirst(s, key))
    ensures BagStep(RemoveKey(key), multiset(s), multiset(WithoutFirst(s, key)))
  {
    hide Below, BagStep, Sorted;
    var i := Below(s, key);
    BelowIs(s, key, i);
    if i < |s| && s[i].sortKey == key { CutOne(s, key, i); } else { CutNone(s, key, i); }
  }

  /** Every sequence of calls keeps the list sorted and follows the bag. */
  lemma {:induction false} ListRunIsBagRun(ops: seq<Op>, s: seq<DataPoint>, s': seq<DataPoint>)
    requires Sorted(s) && ListRun(ops, s, s')
    requires forall i | 0 <= i < |ops| :: Allowed(ops[i])
    ensures Sorted(s') && BagRun(ops, multiset(s), multiset(s'))
    decreases |ops|
  {
    hide Sorted, ListStep, BagStep, Allowed;
    if ops != [] {
      var earlier, last := ops[..|ops| - 1], ops[|ops| - 1];
      var m: seq<DataPoint> :| ListRun(earlier, s, m) && ListStep(last, m, s');
      ListRunIsBagRun(earlier, s, m);
      ListStepIsBagStep(last, m, s');
      BagRunStep(earlier, last, multiset(s), multiset(m), multiset(s'));
      assert ops == earlier + [last];
    }
  }

  // ---- Merging nothing across, and the order of equal keys ----

  /** A merge of two lists one of which ends before the other begins is their concatenation. */
  lemma {:induction false} MergedIsJoin(a: seq<DataPoint>, b: seq<DataPoint>)
    requires Sorted(a)
    requires a == [] || b == [] || a[|a| - 1].sortKey <= b[0].sortKey
    ensures Merged(a, b) == a + b
    decreases |a|
  {
    if a != [] && b != [] {
      assert a[0].sortKey <= a[|a| - 1].sortKey;
      MergedIsJoin(a[1..], b);
      assert a + b == [a[0]] + (a[1..] + b);
    }
  }

  /** Bulk addition keeps the order of points with one key: those of the list and those added stay together, each in
      their order, and only data that all comes first goes before. */
  lemma JoinedStable(s: seq<DataPoint>, data: seq<DataPoint>, key: real)
    requires Sorted(s) && Sorted(data)
    ensures WithKey(Joined(s, data), key) ==
            if s != [] && data != [] && data[|data| - 1].sortKey <= s[0].sortKey
            then WithKey(data, key) + WithKey(s, key)
            else WithKey(s, key) + WithKey(data, key)
  {
    hide Sorted, Merged, WithKey;
    MergedStable(s, data, key);
    MergedStable(data, s, key);
  }

  // ---- Steps ----

  lemma ListRunNothing(s: seq<DataPoint>)
    ensures ListRun([], s, s)
  {}

  lemma NothingJoined(s: seq<DataPoint>)
    ensures Joined(s, []) == s && Merged(s, []) == s
  {}

  lemma NothingMerged(s: seq<DataPoint>)
    ensures Merged([], s) == s
  {}

  lemma NoneBelow(s: seq<DataPoint>, p: DataPoint)
    requires s != [] && LessThan(p, s[0])
    ensures Below(s, p.sortKey) == 0 && s[..0] + [p] + s[0..] == [p] + s
  {}

  lemma NothingWithout(s: seq<DataPoint>, from: real, to: real)
    requires from >= to || s == []
    ensures WithoutRange(s, from, to) == s
  {}

  /** The two binary searches of remove find the range that goes. */
  lemma WindowIs(s: seq<DataPoint>, from: real, to: real, at: int, n: int)
    requires Sorted(s) && from < to && IsLowerBound(s, from, at) && IsUpperBound(s[at..], to, n)
    ensures at + n <= |s| && WithoutRange(s, from, to) == s[..at] + s[at + n..]
  {
    forall j | 0 <= j < |s| ensures j < at + n ==> s[j].sortKey <= to
                            ensures at + n <= j ==> to < s[j].sortKey {
      if at <= j { assert s[j] == s[at..][j - at]; }
    }
    hide Below, NotAbove;
    BelowIs(s, from, at);
    NotAboveIs(s, to, at + n);
  }

  lemma SortedInsert(s: seq<DataPoint>, p: DataPoint, i: nat)
    requires Sorted(s) && IsLowerBound(s, p.sortKey, i)
    ensures Sorted(s[..i] + [p] + s[i..])
    ensures multiset(s[..i] + [p] + s[i..]) == multiset(s) + multiset{p}
  {
    BagSplit(s, i);
  }

  lemma SortedTail(s: seq<DataPoint>, i: nat)
    requires Sorted(s) && i <= |s|
    ensures Sorted(s[i..])
  {}

  lemma CutBefore(s: seq<DataPoint>, key: real, end: int)
    requires Sorted(s) && IsLowerBound(s, key, end)
    ensures Sorted(s[..0] + s[end..])
    ensures BagStep(RemoveBefore(key), multiset(s), multiset(s[..0] + s[end..]))
  {
    SortedCut(s, 0, end);
    hide BagStep;
    CutOut(RemoveBefore(key), s, 0, end);
  }

  lemma CutAfter(s: seq<DataPoint>, key: real, at: int)
    requires Sorted(s) && IsUpperBound(s, key, at)
    ensures Sorted(s[..at] + s[|s|..])
    ensures BagStep(RemoveAfter(key), multiset(s), multiset(s[..at] + s[|s|..]))
  {
    SortedCut(s, at, |s|);
    hide BagStep;
    CutOut(RemoveAfter(key), s, at, |s|);
  }

  lemma CutNothing(s: seq<DataPoint>, from: real, to: real)
    requires from >= to || s == []
    ensures BagStep(RemoveRange(from, to), multiset(s), multiset(s))
  {}

  lemma CutOne(s: seq<DataPoint>, key: real, at: int)
    requires Sorted(s) && IsLowerBound(s, key, at) && at < |s| && s[at].sortKey == key
    ensures Sorted(s[..at] + s[at + 1..])
    ensures BagStep(RemoveKey(key), multiset(s), multiset(s[..at] + s[at + 1..]))
  {
    SortedCut(s, at, at + 1);
    OneOut(s, at);
  }

  lemma CutNone(s: seq<DataPoint>, key: real, at: int)
    requires Sorted(s) && IsLowerBound(s, key, at) && (at < |s| ==> s[at].sortKey != key)
    ensures BagStep(RemoveKey(key), multiset(s), multiset(s))
  {
    NoneWithKey(s, key, at);
  }

  lemma OneOut(s: seq<DataPoint>, i: nat)
    requires i < |s|
    ensures s[i] in multiset(s)
    ensures multiset(s[..i] + s[i + 1..]) == multiset(s) - multiset{s[i]}
  {
    assert s == s[..i] + [s[i]] + s[i + 1..];
  }

  lemma NoneWithKey(s: seq<DataPoint>, key: real, i: int)
    requires Sorted(s) && IsLowerBound(s, key, i) && (i < |s| ==> s[i].sortKey != key)
    ensures !exists p :: p in multiset(s) && p.sortKey == key
  {
    forall p | p in multiset(s) ensures p.sortKey != key {
      assert p in s;
      var j :| 0 <= j < |s| && s[j] == p;
      if i <= j { assert s[i].sortKey <= s[j].sortKey; }
    }
  }
}
