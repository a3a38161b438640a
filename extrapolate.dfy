/** `extrapolate(series, generateBefore, generateAfter)`
    (time-series/extrapolate/index.js): the series with what `generateBefore`
    makes from its first point put in front and what `generateAfter` makes from
    its last point put behind. */
module SeriesExtrapolate {
  import opened Wrappers
  import opened TimeSeries

  /** `series[0]`; `undefined` (`None`) for an empty series. */
  function First<Data>(s: seq<Point<Data>>): Option<Point<Data>> {
    if |s| > 0 then Some(s[0]) else None
  }

  /** `series[series.length - 1]`; `undefined` (`None`) for an empty series. */
  function Last<Data>(s: seq<Point<Data>>): Option<Point<Data>> {
    if |s| > 0 then Some(s[|s| - 1]) else None
  }

  /** time-series/extrapolate/index.js */
  function Extrapolate<Data>(series: seq<Point<Data>>,
                             generateBefore: Option<Point<Data>> -> seq<Point<Data>>,
                             generateAfter: Option<Point<Data>> -> seq<Point<Data>>): (r: seq<Point<Data>>)
    ensures var before, after := generateBefore(First(series)), generateAfter(Last(series));
      && |r| == |before| + |series| + |after|
      && r[..|before|] == before
      && r[|before|..|before| + |series|] == series
      && r[|before| + |series|..] == after
  {
    var before, after := generateBefore(First(series)), generateAfter(Last(series));
    assert (before + series + after)[..|before|] == before;
    before + series + after
  }

  /** Points made before the first point and after the last one, each in time order,
      keep an ordered series in time order. */
  lemma ExtrapolateChronological<Data>(series: seq<Point<Data>>,
                                       generateBefore: Option<Point<Data>> -> seq<Point<Data>>,
                                       generateAfter: Option<Point<Data>> -> seq<Point<Data>>)
    requires |series| > 0 && Chronological(series)
    requires var before := generateBefore(Some(series[0]));
      Chronological(before) && forall k :: 0 <= k < |before| ==> before[k].time <= series[0].time
    requires var after := generateAfter(Some(series[|series| - 1]));
      Chronological(after) && forall k :: 0 <= k < |after| ==> series[|series| - 1].time <= after[k].time
    ensures Chronological(Extrapolate(series, generateBefore, generateAfter))
  {
    var before := generateBefore(Some(series[0]));
    var after := generateAfter(Some(series[|series| - 1]));
    var first, last := series[0].time, series[|series| - 1].time;
    assert forall j :: 0 <= j < |series| ==> first <= series[j].time <= last by {
      forall j | 0 <= j < |series| ensures first <= series[j].time <= last {
        if 0 < j {
          assert series[0].time <= series[j].time;
        }
        if j < |series| - 1 {
          assert series[j].time <= series[|series| - 1].time;
        }
      }
    }
    ChronologicalConcat(before, series, first);
    var front := before + series;
    assert forall j :: 0 <= j < |front| ==> front[j].time <= last by {
      forall j | 0 <= j < |front| ensures front[j].time <= last {
        if j < |before| {
          assert front[j] == before[j];
        } else {
          assert front[j] == series[j - |before|];
        }
      }
    }
    ChronologicalConcat(front, after, last);
    assert Extrapolate(series, generateBefore, generateAfter) == front + after;
  }

  // ---------------------------------------------------------------------
  // The example of time-series/extrapolate/index.test.js, with days as times

  function DayBefore(p: Option<Point<()>>): seq<Point<()>> {
    if p.Some? then [Point(p.value.time - 1, ())] else []
  }

  function DayAfter(p: Option<Point<()>>): seq<Point<()>> {
    if p.Some? then [Point(p.value.time + 1, ())] else []
  }

  /** Jan 15 and 16 with a day added at each end: Jan 14 to Jan 17. */
  lemma DayEachSide()
    ensures Extrapolate([Point(15, ()), Point(16, ())], DayBefore, DayAfter)
         == [Point(14, ()), Point(15, ()), Point(16, ()), Point(17, ())]
  {
  }
}
