/** QCPAbstractPlottable1D: rectangular selection, data segments, and the two ways of drawing a line. */
module Plottable {
  import opened SortedData
  import opened DataQueries
  import opened DataContainer
  import opened DataSelection

  /** QCPRange normalizes its bounds. */
  function Normal(a: real, b: real): Range {
    if a <= b then Range(a, b) else Range(b, a)
  }

  /** QCPRange::contains: false for NaN and for infinite values. */
  predicate Contains(r: Range, v: Num) {
    v.Fin? && r.lower <= v.r <= r.upper
  }

  predicate InRect(keyRange: Range, valueRange: Range, p: DataPoint) {
    Contains(valueRange, p.mainValue) && Contains(keyRange, Fin(p.mainKey))
  }

  // ---- Rectangular selection ----

  /** The loop of selectTestRect: what it adds to the empty selection is already in simplified state. */
  method ScanSegments(s: seq<DataPoint>, begin: int, end: int, keyRange: Range, valueRange: Range,
                      result: QCPDataSelection)
    requires 0 <= begin <= end <= |s| && result.mDataRanges == []
    modifies result
    ensures AllValid(result.mDataRanges) && Simple(result.mDataRanges)
    ensures forall x :: Covers(result.mDataRanges, x) <==> begin <= x < end && InRect(keyRange, valueRange, s[x])
  {
    hide Covers, SimpleUpTo, Contains;
    var currentSegmentBegin := -1;
    NothingCovered();
    SimpleStart([], 0);
    var it := begin;
    while it != end
      invariant begin <= it <= end
      invariant AllValid(result.mDataRanges)
      invariant currentSegmentBegin == -1 || begin <= currentSegmentBegin < it
      invariant SimpleBelow(result.mDataRanges, if currentSegmentBegin == -1 then it else currentSegmentBegin)
      invariant forall x :: Covers(result.mDataRanges, x) <==>
                  begin <= x < (if currentSegmentBegin == -1 then it else currentSegmentBegin)
                  && InRect(keyRange, valueRange, s[x])
      invariant currentSegmentBegin != -1 ==>
                  forall x | currentSegmentBegin <= x < it :: InRect(keyRange, valueRange, s[x])
    {
      if currentSegmentBegin == -1 {
        if Contains(valueRange, s[it].mainValue) && Contains(keyRange, Fin(s[it].mainKey)) {
          currentSegmentBegin := it;
        }
      } else if !Contains(valueRange, s[it].mainValue) || !Contains(keyRange, Fin(s[it].mainKey)) {
        SegmentEnds(result.mDataRanges, currentSegmentBegin, it);
        result.AddDataRange(DataRange(currentSegmentBegin, it), false);
        currentSegmentBegin := -1;
      }
      it := it + 1;
    }
    if currentSegmentBegin != -1 {
      SegmentEnds(result.mDataRanges, currentSegmentBegin, end);
      result.AddDataRange(DataRange(currentSegmentBegin, end), false);
    }
  }

  /** In simplified state, with every range ending before n. */
  predicate SimpleBelow(s: seq<DataRange>, n: int) {
    Simple(s) && forall i | 0 <= i < |s| :: s[i].end < n
  }

  lemma SegmentEnds(s: seq<DataRange>, begin: int, end: int)
    requires SimpleBelow(s, begin) && begin < end
    ensures SimpleBelow(s + [DataRange(begin, end)], end + 1)
  {}

  /** What selectTestRect does not depend on the points: what may be selected, and the axes. */
  datatype Setting = Setting(onlySelectable: bool, selectableNone: bool, haveAxes: bool, sortKeyIsMainKey: bool)

  method SelectTestRect(mDataContainer: QCPDataContainer, setting: Setting,
                        key1: real, value1: real, key2: real, value2: real) returns (result: QCPDataSelection)
    requires mDataContainer.Valid()
    requires setting.sortKeyIsMainKey ==> KeysAgree(mDataContainer.Contents())
    ensures fresh(result) && result.Valid() && Simple(result.mDataRanges)
    ensures var s := mDataContainer.Contents();
            forall x :: Covers(result.mDataRanges, x) <==>
              && !(setting.onlySelectable && setting.selectableNone) && setting.haveAxes
              && 0 <= x < |s| && InRect(Normal(key1, key2), Normal(value1, value2), s[x])
    ensures var s := mDataContainer.Contents();
            forall x :: Covers(result.mDataRanges, x) <==>
              && !(setting.onlySelectable && setting.selectableNone) && setting.haveAxes
              && 0 <= x < |s| && s[x].mainValue.Fin?
              && (key1 <= s[x].mainKey <= key2 || key2 <= s[x].mainKey <= key1)
              && (value1 <= s[x].mainValue.r <= value2 || value2 <= s[x].mainValue.r <= value1)
  {
    InRectMeans(mDataContainer.Contents(), key1, value1, key2, value2);
    hide Covers, SimpleUpTo, Sorted, KeysAgree, InRect;
    result := new QCPDataSelection();
    NothingCovered();
    SimpleStart([], 0);
    if (setting.onlySelectable && setting.selectableNone) || mDataContainer.IsEmpty() {
      return;
    }
    if !setting.haveAxes {
      return;
    }
    var keyRange, valueRange := Normal(key1, key2), Normal(value1, value2);
    var s := mDataContainer.Contents();
    var begin, end := 0, mDataContainer.Size();
    if setting.sortKeyIsMainKey {
      begin := mDataContainer.FindBegin(keyRange.lower, false);
      end := mDataContainer.FindEnd(keyRange.upper, false);
      WindowIsScan(s, keyRange.lower, keyRange.upper, begin, end);
      OutsideWindow(s, keyRange, valueRange, begin, end);
    }
    if begin == end {
      return;
    }
    ScanSegments(s, begin, end, keyRange, valueRange, result);
    ghost var segments := result.mDataRanges;
    result.Simplify();
    SimpleUnique(segments, result.mDataRanges);
  }

  /** The corners may come in any order; a point on the edge is inside, a NaN or infinite value never is. */
  lemma InRectMeans(s: seq<DataPoint>, key1: real, value1: real, key2: real, value2: real)
    ensures forall x | 0 <= x < |s| ::
              InRect(Normal(key1, key2), Normal(value1, value2), s[x]) <==>
                && s[x].mainValue.Fin?
                && (key1 <= s[x].mainKey <= key2 || key2 <= s[x].mainKey <= key1)
                && (value1 <= s[x].mainValue.r <= value2 || value2 <= s[x].mainValue.r <= value1)
  {}

  lemma OutsideWindow(s: seq<DataPoint>, keyRange: Range, valueRange: Range, begin: int, end: int)
    requires KeysAgree(s) && keyRange.lower <= keyRange.upper
    requires forall k | 0 <= k < |s| :: begin <= k < end <==> keyRange.lower <= s[k].sortKey <= keyRange.upper
    ensures forall k | 0 <= k < |s| && InRect(keyRange, valueRange, s[k]) :: begin <= k < end
  {}

  /** getDataSegments: the selected and the unselected stretches of the data. */
  method GetDataSegments(selection: QCPDataSelection, selectableWhole: bool, dataCount: nat)
    returns (selectedSegments: seq<DataRange>, unselectedSegments: seq<DataRange>)
    requires selection.Valid()
    ensures forall x :: !(Covers(selectedSegments, x) && Covers(unselectedSegments, x))
    ensures forall x | 0 <= x < dataCount :: Covers(selectedSegments, x) || Covers(unselectedSegments, x)
    ensures forall x | Covers(unselectedSegments, x) ::
              0 <= x && (x < dataCount || exists y :: x < y && Covers(selectedSegments, y))
    ensures !selectableWhole ==> forall x :: Covers(selectedSegments, x) <==> Covers(selection.mDataRanges, x)
    ensures selectableWhole ==> forall x ::
              Covers(selectedSegments, x) <==> selection.mDataRanges != [] && 0 <= x < dataCount
    ensures selectableWhole && selection.mDataRanges != [] ==>
              selectedSegments == [DataRange(0, dataCount)] && unselectedSegments == []
    ensures selectableWhole && selection.mDataRanges == [] ==>
              selectedSegments == [] && unselectedSegments == [DataRange(0, dataCount)]
    ensures !selectableWhole ==> Simple(selectedSegments)
    ensures !selectableWhole && (dataCount > 0 || selectedSegments != []) ==> Simple(unselectedSegments)
  {
    hide Covers, SimpleUpTo;
    var whole := DataRange(0, dataCount);
    NothingCovered();
    OneCovered(whole);
    selectedSegments, unselectedSegments := [], [];
    if selectableWhole {
      if selection.mDataRanges != [] {
        selectedSegments := [whole];
      } else {
        unselectedSegments := [whole];
      }
    } else {
      var sel := new QCPDataSelection();
      sel.mDataRanges := selection.mDataRanges;
      sel.Simplify();
      selectedSegments := sel.mDataRanges;
      SimpleIsAscending(sel.mDataRanges);
      var rest := sel.Inverse(whole);
      unselectedSegments := rest.mDataRanges;
      WithinWhole(selectedSegments, dataCount);
    }
  }

  lemma WithinWhole(s: seq<DataRange>, n: nat)
    requires AllValid(s) && Simple(s)
    ensures forall x | 0 <= x < n :: Within(FullRange(s, DataRange(0, n)), x)
    ensures forall x | Within(FullRange(s, DataRange(0, n)), x) && !Covers(s, x) ::
              0 <= x && (x < n || exists y :: x < y && Covers(s, y))
  {
    if s != [] {
      var last := s[|s| - 1];
      assert Within(last, last.end - 1);
      assert Covers(s, last.end - 1);
      assert forall x | last.begin <= x < last.end :: Within(last, x) && Covers(s, x);
    }
  }

  // ---- Drawing a line ----

  datatype Point = Point(x: Num, y: Num)

  type Line = (Point, Point)

  /** A painter remembers the lines it has drawn. */
  class QCPPainter {
    var lines: seq<Line>

    constructor ()
      ensures lines == []
    {
      lines := [];
    }

    method DrawLine(a: Point, b: Point)
      modifies this
      ensures lines == old(lines) + [(a, b)]
    {
      lines := lines + [(a, b)];
    }

    method DrawPolyline(points: seq<Point>)
      modifies this
      ensures lines == old(lines) + Polyline(points)
    {
      lines := lines + Polyline(points);
    }
  }

  /** The lines between consecutive points. */
  function Polyline(points: seq<Point>): seq<Line> {
    if |points| < 2 then [] else Polyline(points[..|points| - 1]) + [(points[|points| - 2], points[|points| - 1])]
  }

  predicate IsNaN(p: Point) {
    p.y == NaN || p.x == NaN
  }

  /** A point at which the drawing has a gap; the second algorithm also leaves out infinite values. */
  predicate Gap(p: Point, skipInf: bool) {
    IsNaN(p) || (skipInf && p.y.Inf?)
  }

  /** The line from point i - 1 to point i is to be drawn. */
  predicate Edge(s: seq<Point>, skipInf: bool, i: int) {
    1 <= i < |s| && !Gap(s[i - 1], skipInf) && !Gap(s[i], skipInf)
  }

  /** The edges among the first n points, in order. */
  function Edges(s: seq<Point>, skipInf: bool, n: nat): (r: seq<nat>)
    requires n <= |s|
  {
    if n == 0 then [] else Edges(s, skipInf, n - 1) + if Edge(s, skipInf, n - 1) then [n - 1] else []
  }

  /** The lines drawn for the edges among the first n points. */
  function Drawn(s: seq<Point>, skipInf: bool, n: nat): seq<Line>
    requires n <= |s|
  {
    if n == 0 then []
    else Drawn(s, skipInf, n - 1) + if Edge(s, skipInf, n - 1) then [(s[n - 2], s[n - 1])] else []
  }

  /** The edges are listed once each, in order; they are the pairs of neighbours without NaN and, for the second algorithm,
      without infinite values. */
  lemma EdgesExactly(s: seq<Point>, skipInf: bool, n: nat)
    requires n <= |s|
    ensures forall i :: i in Edges(s, skipInf, n) <==>
              && 1 <= i < n
              && s[i - 1].x != NaN && s[i - 1].y != NaN && s[i].x != NaN && s[i].y != NaN
              && (skipInf ==> !s[i - 1].y.Inf? && !s[i].y.Inf?)
    ensures forall j, k | 0 <= j < k < |Edges(s, skipInf, n)| :: Edges(s, skipInf, n)[j] < Edges(s, skipInf, n)[k]
  {
    hide Edges;
    EdgesListed(s, skipInf, n);
  }

  lemma {:induction false} EdgesListed(s: seq<Point>, skipInf: bool, n: nat)
    requires n <= |s|
    ensures forall i :: i in Edges(s, skipInf, n) <==> i < n && Edge(s, skipInf, i)
    ensures forall j, k | 0 <= j < k < |Edges(s, skipInf, n)| :: Edges(s, skipInf, n)[j] < Edges(s, skipInf, n)[k]
  {
    hide Gap;
    if n > 0 {
      EdgesListed(s, skipInf, n - 1);
      var e := Edges(s, skipInf, n - 1);
      forall k | 0 <= k < |e| ensures e[k] < n - 1 { assert e[k] in e; }
    }
  }

  /** Each edge is drawn once, in order, and nothing else is drawn. */
  lemma {:induction false} DrawnExactly(s: seq<Point>, skipInf: bool, n: nat)
    requires n <= |s|
    ensures |Drawn(s, skipInf, n)| == |Edges(s, skipInf, n)|
    ensures forall k | 0 <= k < |Edges(s, skipInf, n)| :: var i := Edges(s, skipInf, n)[k];
              1 <= i < |s| && Drawn(s, skipInf, n)[k] == (s[i - 1], s[i])
  {
    hide Gap;
    if n > 0 {
      DrawnExactly(s, skipInf, n - 1);
    }
  }

  /** Both algorithms draw the same lines exactly when no line between two points without NaN has an end
      with an infinite value. */
  lemma SameDrawing(s: seq<Point>)
    ensures Drawn(s, true, |s|) == Drawn(s, false, |s|)
            <==> forall i | 1 <= i < |s| && s[i - 1].x != NaN && s[i - 1].y != NaN && s[i].x != NaN && s[i].y != NaN ::
                   !s[i - 1].y.Inf? && !s[i].y.Inf?
  {
    hide Edge, Drawn;
    DrawnCounts(s, |s|);
    EdgesAgree(s);
  }

  lemma EdgesAgree(s: seq<Point>)
    ensures (forall i | Edge(s, false, i) && i < |s| :: Edge(s, true, i))
            <==> forall i | 1 <= i < |s| && !IsNaN(s[i - 1]) && !IsNaN(s[i]) :: !s[i - 1].y.Inf? && !s[i].y.Inf?
  {
    assert forall i | 1 <= i < |s| && !IsNaN(s[i - 1]) && !IsNaN(s[i]) :: Edge(s, false, i);
  }

  lemma {:induction false} DrawnCounts(s: seq<Point>, n: nat)
    requires n <= |s|
    ensures |Drawn(s, true, n)| <= |Drawn(s, false, n)|
    ensures |Drawn(s, true, n)| == |Drawn(s, false, n)| <==> forall i | Edge(s, false, i) && i < n :: Edge(s, true, i)
    ensures (forall i | Edge(s, false, i) && i < n :: Edge(s, true, i)) ==> Drawn(s, true, n) == Drawn(s, false, n)
  {
    if n > 0 {
      DrawnCounts(s, n - 1);
    }
  }

  /** The segments between gaps, drawn as polylines, are the edges. */
  lemma {:induction false} SegmentDrawn(s: seq<Point>, skipInf: bool, start: nat, i: nat)
    requires start <= i <= |s| && (start == 0 || Gap(s[start - 1], skipInf))
    requires forall k | start <= k < i :: !Gap(s[k], skipInf)
    ensures Drawn(s, skipInf, i) == Drawn(s, skipInf, start) + Polyline(s[start..i])
  {
    if start < i {
      SegmentDrawn(s, skipInf, start, i - 1);
      assert s[start..i][..i - 1 - start] == s[start..i - 1];
      if start + 1 == i {
        assert !Edge(s, skipInf, start);
      }
    }
  }

  lemma GapDrawn(s: seq<Point>, skipInf: bool, i: nat)
    requires i < |s| && Gap(s[i], skipInf)
    ensures Drawn(s, skipInf, i + 1) == Drawn(s, skipInf, i)
  {}

  lemma {:induction false} GapsDrawn(s: seq<Point>, skipInf: bool, n: nat)
    requires n <= |s| && forall k | 0 <= k < n :: Gap(s[k], skipInf)
    ensures Drawn(s, skipInf, n) == []
  {
    if n > 0 { GapsDrawn(s, skipInf, n - 1); }
  }

  /** drawPolyline; fast stands for the plotting hint, a solid pen and a painter that allows single lines. */
  method DrawPolyline(painter: QCPPainter, lineData: seq<Point>, fast: bool)
    modifies painter
    ensures painter.lines == old(painter.lines) + Drawn(lineData, !fast, |lineData|)
  {
    if fast {
      DrawSingleLines(painter, lineData);
    } else {
      DrawSegments(painter, lineData);
    }
  }

  method DrawSingleLines(painter: QCPPainter, lineData: seq<Point>)
    modifies painter
    ensures painter.lines == old(painter.lines) + Drawn(lineData, false, |lineData|)
  {
    hide Edge, Drawn;
    var i := 0;
    var lastIsNan := false;
    var lineDataSize := |lineData|;
    while i < lineDataSize && IsNaN(lineData[i])
      invariant 0 <= i <= lineDataSize
      invariant forall k | 0 <= k < i :: Gap(lineData[k], false)
    {
      i := i + 1;
    }
    GapsDrawn(lineData, false, i);
    if i < lineDataSize { FirstDrawn(lineData, i); }
    i := i + 1;
    while i < lineDataSize
      invariant 1 <= i <= lineDataSize + 1
      invariant i <= lineDataSize ==> lastIsNan == IsNaN(lineData[i - 1])
      invariant painter.lines == old(painter.lines) + Drawn(lineData, false, if i <= lineDataSize then i else lineDataSize)
    {
      NextDrawn(lineData, i);
      if !IsNaN(lineData[i]) {
        if !lastIsNan {
          painter.DrawLine(lineData[i - 1], lineData[i]);
        } else {
          lastIsNan := false;
        }
      } else {
        lastIsNan := true;
      }
      i := i + 1;
    }
  }

  method DrawSegments(painter: QCPPainter, lineData: seq<Point>)
    modifies painter
    ensures painter.lines == old(painter.lines) + Drawn(lineData, true, |lineData|)
  {
    hide Edge, Drawn, Polyline;
    var segmentStart := 0;
    var i := 0;
    var lineDataSize := |lineData|;
    GapsDrawn(lineData, true, 0);
    while i < lineDataSize
      invariant 0 <= segmentStart <= i <= lineDataSize
      invariant segmentStart == 0 || Gap(lineData[segmentStart - 1], true)
      invariant forall k | segmentStart <= k < i :: !Gap(lineData[k], true)
      invariant painter.lines == old(painter.lines) + Drawn(lineData, true, segmentStart)
    {
      if IsNaN(lineData[i]) || lineData[i].y.Inf? {
        SegmentDrawn(lineData, true, segmentStart, i);
        GapDrawn(lineData, true, i);
        painter.DrawPolyline(lineData[segmentStart..i]);
        segmentStart := i + 1;
      }
      i := i + 1;
    }
    SegmentDrawn(lineData, true, segmentStart, i);
    painter.DrawPolyline(lineData[segmentStart..lineDataSize]);
  }

  lemma FirstDrawn(s: seq<Point>, i: nat)
    requires i < |s| && Drawn(s, false, i) == [] && (forall k | 0 <= k < i :: Gap(s[k], false))
    ensures Drawn(s, false, i + 1) == []
  {}

  lemma NextDrawn(s: seq<Point>, i: nat)
    requires 1 <= i < |s|
    ensures Drawn(s, false, i + 1) == Drawn(s, false, i)
            + if IsNaN(s[i - 1]) || IsNaN(s[i]) then [] else [(s[i - 1], s[i])]
  {}
}
