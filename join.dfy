/** `join(timeSeriesList, combine)` (time-series/join/index.js): one point per
    point of the first series, made by `combine` from that point's time and the
    points at the same index in every series of the list. */
module SeriesJoin {
  import opened Wrappers
  import opened TimeSeries

  /** `timeSeriesList.map(timeSeries => timeSeries[i])`: `None` is the `undefined`
      read past the end of a shorter series. */
  function Column<Data>(list: seq<seq<Point<Data>>>, i: nat): (c: seq<Option<Point<Data>>>)
    ensures |c| == |list|
    ensures forall k :: 0 <= k < |list| && i < |list[k]| ==> c[k] == Some(list[k][i])
    ensures forall k :: 0 <= k < |list| && i >= |list[k]| ==> c[k] == None
  {
    seq(|list|, k requires 0 <= k < |list| => if i < |list[k]| then Some(list[k][i]) else None)
  }

  /** The message of the `TypeError` an empty list raises at `timeSeriesList[0].map`. */
  const NoFirstSeries := "Cannot read properties of undefined (reading 'map')"

  /** time-series/join/index.js */
  function Join<Data>(list: seq<seq<Point<Data>>>,
                      combine: (int, seq<Option<Point<Data>>>) -> Point<Data>): (r: Result<seq<Point<Data>>>)
    ensures r.Err? <==> |list| == 0
    ensures r.Ok? ==> |r.value| == |list[0]|
    ensures r.Ok? ==> forall i :: 0 <= i < |r.value| ==> r.value[i] == combine(list[0][i].time, Column(list, i))
  {
    if |list| == 0 then Err(NoFirstSeries)
    else
      var first := list[0];
      Ok(seq(|first|, i requires 0 <= i < |first| => combine(first[i].time, Column(list, i))))
  }

  /** The combine that keeps the first series' point. */
  function KeepFirst<Data>(d: Data): (int, seq<Option<Point<Data>>>) -> Point<Data> {
    (time: int, points: seq<Option<Point<Data>>>) =>
      if |points| > 0 && points[0].Some? then points[0].value else Point(time, d)
  }

  /** Joining with a combine that keeps the first series' point gives the first series back. */
  lemma JoinKeepFirst<Data>(list: seq<seq<Point<Data>>>, d: Data)
    requires |list| > 0
    ensures Join(list, KeepFirst(d)) == Ok(list[0])
  {
    var r := Join(list, KeepFirst(d)).value;
    forall i | 0 <= i < |r|
      ensures r[i] == list[0][i]
    {
      assert Column(list, i)[0] == Some(list[0][i]);
    }
    assert r == list[0];
  }

  // ---------------------------------------------------------------------
  // The example of time-series/join/index.test.js, with days as times

  function Value(p: Option<Point<int>>): int {
    if p.Some? then p.value.data else 0
  }

  /** `(time, [p1, p2]) => ({time, value: p1.value + p2.value})` */
  function SumOfTwo(time: int, points: seq<Option<Point<int>>>): Point<int> {
    Point(time, (if |points| > 0 then Value(points[0]) else 0) + (if |points| > 1 then Value(points[1]) else 0))
  }

  /** Two series of three days add up day by day. */
  lemma TwoSeriesSum()
    ensures Join([[Point(1, 1), Point(2, 2), Point(3, 3)], [Point(1, 4), Point(2, 5), Point(3, 6)]], SumOfTwo)
         == Ok([Point(1, 5), Point(2, 7), Point(3, 9)])
  {
    var list := [[Point(1, 1), Point(2, 2), Point(3, 3)], [Point(1, 4), Point(2, 5), Point(3, 6)]];
    assert Column(list, 0) == [Some(Point(1, 1)), Some(Point(1, 4))];
    assert Column(list, 1) == [Some(Point(2, 2)), Some(Point(2, 5))];
    assert Column(list, 2) == [Some(Point(3, 3)), Some(Point(3, 6))];
    var r := Join(list, SumOfTwo).value;
    assert |r| == 3 && r[0] == Point(1, 5) && r[1] == Point(2, 7) && r[2] == Point(3, 9);
    assert r == [Point(1, 5), Point(2, 7), Point(3, 9)];
  }
}
