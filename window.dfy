/** `window(timeSeries, start, end)` (time-series/window/index.js): the points
    of a time series from `start` to `end`, both included. */
module SeriesWindow {
  import opened TimeSeries

  /** The index the first scan stops at, scanning up from `i`: the first point
      not before `start`, or the length when there is none. */
  function StartScan<Data>(s: seq<Point<Data>>, start: int, i: nat): (r: nat)
    requires i <= |s|
    ensures i <= r <= |s|
    ensures forall j :: i <= j < r ==> s[j].time < start
    ensures r < |s| ==> s[r].time >= start
    decreases |s| - i
  {
    if i < |s| && s[i].time < start then StartScan(s, start, i + 1) else i
  }

  /** The index the second scan stops at as written, scanning down from `j`: the
      last point not after `end`, except that the scan never passes index 0. */
  function EndScanAsWritten<Data>(s: seq<Point<Data>>, end: int, j: nat): (r: nat)
    requires j < |s|
    ensures r <= j
    ensures forall k :: r < k <= j ==> s[k].time > end
    ensures r > 0 ==> s[r].time <= end
  {
    if j > 0 && s[j].time > end then EndScanAsWritten(s, end, j - 1) else j
  }

  /** The second scan allowed down to -1: the last point not after `end`, or -1. */
  function EndScan<Data>(s: seq<Point<Data>>, end: int, j: int): (r: int)
    requires -1 <= j < |s|
    ensures -1 <= r <= j
    ensures forall k :: r < k <= j ==> s[k].time > end
    ensures r >= 0 ==> s[r].time <= end
    decreases j + 1
  {
    if j >= 0 && s[j].time > end then EndScan(s, end, j - 1) else j
  }

  /** `s.slice(from, to)` for indices inside the series: empty when `from >= to`. */
  function Slice<T>(s: seq<T>, from: nat, to: int): seq<T>
    requires from <= |s| && to <= |s|
  {
    if from < to then s[from..to] else []
  }

  /** The points whose time lies in `[start, end]`, in order. */
  function InRange<Data>(s: seq<Point<Data>>, start: int, end: int): seq<Point<Data>> {
    if s == [] then []
    else (if start <= s[0].time <= end then [s[0]] else []) + InRange(s[1..], start, end)
  }

  /** A series made of points before the window, then points in it, then points
      after it, keeps exactly the middle part. */
  lemma {:induction false} InRangeSplit<Data>(s: seq<Point<Data>>, start: int, end: int, a: nat, b: nat)
    requires a <= b <= |s|
    requires forall j :: 0 <= j < a ==> s[j].time < start
    requires forall j :: a <= j < b ==> start <= s[j].time <= end
    requires forall j :: b <= j < |s| ==> s[j].time > end
    ensures InRange(s, start, end) == s[a..b]
    decreases |s|
  {
    if s != [] {
      var t := s[1..];
      assert forall j :: 0 <= j < |t| ==> t[j] == s[j + 1];
      if a > 0 {
        InRangeSplit(t, start, end, a - 1, b - 1);
        assert s[a..b] == t[a - 1..b - 1];
      } else if b > 0 {
        InRangeSplit(t, start, end, 0, b - 1);
        assert s[0..b] == [s[0]] + t[0..b - 1];
      } else {
        InRangeSplit(t, start, end, 0, 0);
      }
    }
  }

  /** In a series in time order, a point between where the two scans stop is in the window. */
  lemma BetweenScans<Data>(s: seq<Point<Data>>, start: int, end: int, j: nat)
    requires Chronological(s)
    requires StartScan(s, start, 0) <= j <= EndScan(s, end, |s| - 1)
    ensures start <= s[j].time <= end
  {
    var a := StartScan(s, start, 0);
    var e := EndScan(s, end, |s| - 1);
    assert s[a].time >= start && s[e].time <= end;
    assert s[a].time <= s[j].time <= s[e].time;
  }

  /** `window` on a series in time order keeps exactly the points from `start` to `end`. */
  lemma WindowInRange<Data>(s: seq<Point<Data>>, start: int, end: int)
    requires Chronological(s)
    ensures Slice(s, StartScan(s, start, 0), EndScan(s, end, |s| - 1) + 1) == InRange(s, start, end)
  {
    var a := StartScan(s, start, 0);
    var e := EndScan(s, end, |s| - 1);
    var b := if a <= e + 1 then e + 1 else a;
    forall j | a <= j < b
      ensures start <= s[j].time <= end
    {
      BetweenScans(s, start, end, j);
    }
    InRangeSplit(s, start, end, a, b);
    if a < e + 1 {
      assert Slice(s, a, e + 1) == s[a..b];
    } else {
      assert Slice(s, a, e + 1) == [] == s[a..b];
    }
  }

  /** time-series/window/index.js, with the second scan allowed to pass index 0 so
      that a series whose every point is after `end` gives `[]`. */
  method Window<Data>(timeSeries: seq<Point<Data>>, start: int, end: int) returns (r: seq<Point<Data>>)
    ensures r == Slice(timeSeries, StartScan(timeSeries, start, 0), EndScan(timeSeries, end, |timeSeries| - 1) + 1)
    ensures Chronological(timeSeries) ==> r == InRange(timeSeries, start, end)
  {
    if |timeSeries| == 0 {
      return timeSeries;
    }
    var startIndex := 0;
    while startIndex < |timeSeries| && timeSeries[startIndex].time < start
      invariant startIndex <= |timeSeries|
      invariant StartScan(timeSeries, start, startIndex) == StartScan(timeSeries, start, 0)
      decreases |timeSeries| - startIndex
    {
      startIndex := startIndex + 1;
    }
    var endIndex := |timeSeries| - 1;
    while endIndex >= 0 && timeSeries[endIndex].time > end
      invariant -1 <= endIndex < |timeSeries|
      invariant EndScan(timeSeries, end, endIndex) == EndScan(timeSeries, end, |timeSeries| - 1)
      decreases endIndex + 1
    {
      endIndex := endIndex - 1;
    }
    r := if startIndex < endIndex + 1 then timeSeries[startIndex..endIndex + 1] else [];
    if Chronological(timeSeries) {
      WindowInRange(timeSeries, start, end);
    }
  }

  /** As written, a series whose only point is after `end` keeps that point;
      with the scan allowed to pass index 0 the window is empty. */
  lemma LatePointKeptAsWritten<Data>(d: Data)
    ensures var s := [Point(5, d)];
      && Slice(s, StartScan(s, 0, 0), EndScanAsWritten(s, 3, 0) + 1) == s
      && Slice(s, StartScan(s, 0, 0), EndScan(s, 3, 0) + 1) == []
      && InRange(s, 0, 3) == []
  {
  }

  // ---------------------------------------------------------------------
  // The examples of time-series/window/index.test.js, with days as times

  /** Seven points from Dec 30 to Feb 3, windowed to Jan 1 .. Jan 31. */
  lemma JanuaryWindow()
    ensures var s := [Point(-2, ()), Point(-1, ()), Point(1, ()), Point(3, ()), Point(31, ()), Point(32, ()), Point(34, ())];
      Slice(s, StartScan(s, 1, 0), EndScan(s, 31, 6) + 1) == [Point(1, ()), Point(3, ()), Point(31, ())]
  {
  }

  /** A one-point series inside the window is returned whole. */
  lemma OnePointWindow()
    ensures var s := [Point(1, ())];
      Slice(s, StartScan(s, 1, 0), EndScan(s, 31, 0) + 1) == s
  {
  }
}
