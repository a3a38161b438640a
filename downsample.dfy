/** `downsample(timeSeries, group, transform)` (time-series/downsample/index.js):
    consecutive points with the same group time form one group, and each group
    becomes one point through `transform`. */
module SeriesDownsample {
  import opened TimeSeries

  /** `{time, points}` */
  datatype Group<Data> = Group(time: int, points: seq<Point<Data>>)

  /** The points of the groups, group after group. */
  function Concat<Data>(groups: seq<Group<Data>>): seq<Point<Data>> {
    if |groups| == 0 then [] else Concat(groups[..|groups| - 1]) + groups[|groups| - 1].points
  }

  /** A group whose points all have its group time. */
  predicate Keyed<Data>(g: Group<Data>, group: Point<Data> -> int) {
    forall k :: 0 <= k < |g.points| ==> group(g.points[k]) == g.time
  }

  /** Non-empty keyed groups, no two neighbours sharing a group time. */
  predicate WellCut<Data>(groups: seq<Group<Data>>, group: Point<Data> -> int) {
    && (forall i :: 0 <= i < |groups| ==> |groups[i].points| > 0 && Keyed(groups[i], group))
    && (forall i :: 0 < i < |groups| ==> groups[i - 1].time != groups[i].time)
  }

  /** The groups cut the series into non-empty runs of points that share a group
      time, and two neighbouring runs never share one. */
  ghost predicate IsRunGrouping<Data>(groups: seq<Group<Data>>, s: seq<Point<Data>>, group: Point<Data> -> int) {
    Concat(groups) == s && WellCut(groups, group)
  }

  /** The groups the `for` loop builds (lines 9-21): a point joins the current group
      when its group time is the group's, and starts a new group otherwise. */
  function Runs<Data>(s: seq<Point<Data>>, group: Point<Data> -> int): seq<Group<Data>>
    decreases |s|
  {
    if |s| == 0 then []
    else
      var groups := Runs(s[..|s| - 1], group);
      var point := s[|s| - 1];
      if |groups| > 0 && group(point) == groups[|groups| - 1].time then
        groups[..|groups| - 1] + [Group(groups[|groups| - 1].time, groups[|groups| - 1].points + [point])]
      else
        groups + [Group(group(point), [point])]
  }

  /** `groups.map(({time, points}) => transform(time, points))` */
  function Downsampled<Data>(s: seq<Point<Data>>, group: Point<Data> -> int,
                             transform: (int, seq<Point<Data>>) -> Point<Data>): seq<Point<Data>>
  {
    var groups := Runs(s, group);
    seq(|groups|, i requires 0 <= i < |groups| => transform(groups[i].time, groups[i].points))
  }

  // ---------------------------------------------------------------------
  // The groups are the runs, and the runs are unique

  lemma WellCutPrefix<Data>(groups: seq<Group<Data>>, group: Point<Data> -> int)
    requires WellCut(groups, group) && groups != []
    ensures WellCut(groups[..|groups| - 1], group)
  {
    assert forall i :: 0 <= i < |groups| - 1 ==> groups[..|groups| - 1][i] == groups[i];
  }

  lemma WellCutAppend<Data>(groups: seq<Group<Data>>, x: Group<Data>, group: Point<Data> -> int)
    requires WellCut(groups, group) && |x.points| > 0 && Keyed(x, group)
    requires groups != [] ==> groups[|groups| - 1].time != x.time
    ensures WellCut(groups + [x], group)
    ensures Concat(groups + [x]) == Concat(groups) + x.points
  {
    var r := groups + [x];
    assert r[..|r| - 1] == groups;
    forall i | 0 <= i < |r|
      ensures |r[i].points| > 0 && Keyed(r[i], group)
    {
      if i < |groups| {
        assert r[i] == groups[i];
      }
    }
    forall i | 0 < i < |r|
      ensures r[i - 1].time != r[i].time
    {
      assert r[i - 1] == groups[i - 1];
      if i < |groups| {
        assert r[i] == groups[i];
      }
    }
  }

  lemma KeyedAppend<Data>(x: Group<Data>, p: Point<Data>, group: Point<Data> -> int)
    requires Keyed(x, group) && group(p) == x.time
    ensures Keyed(Group(x.time, x.points + [p]), group)
  {
    assert forall k :: 0 <= k < |x.points| ==> (x.points + [p])[k] == x.points[k];
  }

  lemma KeyedDropLast<Data>(x: Group<Data>, group: Point<Data> -> int)
    requires Keyed(x, group) && |x.points| > 0
    ensures Keyed(Group(x.time, x.points[..|x.points| - 1]), group)
  {
    assert forall k :: 0 <= k < |x.points| - 1 ==> x.points[..|x.points| - 1][k] == x.points[k];
  }

  /** A series of non-empty groups has at least as many points as groups. */
  lemma {:induction false} ConcatCovers<Data>(groups: seq<Group<Data>>, group: Point<Data> -> int)
    requires WellCut(groups, group)
    ensures |Concat(groups)| >= |groups|
  {
    if groups != [] {
      WellCutPrefix(groups, group);
      ConcatCovers(groups[..|groups| - 1], group);
    }
  }

  /** A point with the last group's time joins that group. */
  lemma JoinLast<Data>(groups: seq<Group<Data>>, front: seq<Point<Data>>, point: Point<Data>, group: Point<Data> -> int)
    requires IsRunGrouping(groups, front, group)
    requires |groups| > 0 && group(point) == groups[|groups| - 1].time
    ensures var last := groups[|groups| - 1];
      IsRunGrouping(groups[..|groups| - 1] + [Group(last.time, last.points + [point])], front + [point], group)
  {
    var n := |groups|;
    var last := groups[n - 1];
    var x := Group(last.time, last.points + [point]);
    WellCutPrefix(groups, group);
    KeyedAppend(last, point, group);
    if n > 1 {
      assert groups[..n - 1][n - 2] == groups[n - 2];
    }
    WellCutAppend(groups[..n - 1], x, group);
    assert Concat(groups) == Concat(groups[..n - 1]) + last.points;
  }

  /** A point with another time starts a group of its own. */
  lemma StartGroup<Data>(groups: seq<Group<Data>>, front: seq<Point<Data>>, point: Point<Data>, group: Point<Data> -> int)
    requires IsRunGrouping(groups, front, group)
    requires |groups| > 0 ==> group(point) != groups[|groups| - 1].time
    ensures IsRunGrouping(groups + [Group(group(point), [point])], front + [point], group)
  {
    WellCutAppend(groups, Group(group(point), [point]), group);
  }

  /** The groups the loop builds are a run grouping of the series. */
  lemma {:induction false} RunsAreRuns<Data>(s: seq<Point<Data>>, group: Point<Data> -> int)
    ensures IsRunGrouping(Runs(s, group), s, group)
    decreases |s|
  {
    if s != [] {
      var front := s[..|s| - 1];
      var point := s[|s| - 1];
      RunsAreRuns(front, group);
      var groups := Runs(front, group);
      assert s == front + [point];
      if |groups| > 0 && group(point) == groups[|groups| - 1].time {
        JoinLast(groups, front, point, group);
      } else {
        StartGroup(groups, front, point, group);
      }
    }
  }

  /** Taking the last point off a run grouping leaves a run grouping of the rest. */
  function Peel<Data>(groups: seq<Group<Data>>): seq<Group<Data>>
    requires groups != [] && |groups[|groups| - 1].points| > 0
  {
    var n := |groups|;
    var last := groups[n - 1];
    if |last.points| == 1 then groups[..n - 1]
    else groups[..n - 1] + [Group(last.time, last.points[..|last.points| - 1])]
  }

  lemma PeelIsRunGrouping<Data>(groups: seq<Group<Data>>, s: seq<Point<Data>>, group: Point<Data> -> int)
    requires IsRunGrouping(groups, s, group) && s != []
    ensures groups != [] && |groups[|groups| - 1].points| > 0
    ensures IsRunGrouping(Peel(groups), s[..|s| - 1], group)
    ensures groups[|groups| - 1].time == group(s[|s| - 1])
    ensures var last := groups[|groups| - 1];
      s[|s| - 1] == last.points[|last.points| - 1]
  {
    var n := |groups|;
    var last := groups[n - 1];
    var m := |last.points|;
    assert s == Concat(groups[..n - 1]) + last.points;
    assert s[|s| - 1] == last.points[m - 1];
    assert group(last.points[m - 1]) == last.time;
    WellCutPrefix(groups, group);
    if m == 1 {
      assert s[..|s| - 1] == Concat(groups[..n - 1]);
    } else {
      var x := Group(last.time, last.points[..m - 1]);
      KeyedDropLast(last, group);
      if n > 1 {
        assert groups[..n - 1][n - 2] == groups[n - 2];
      }
      WellCutAppend(groups[..n - 1], x, group);
      assert last.points == last.points[..m - 1] + [last.points[m - 1]];
      assert s[..|s| - 1] == Concat(groups[..n - 1]) + last.points[..m - 1];
    }
  }

  /** A run grouping is put back together from its peeled form and the last point. */
  lemma Unpeel<Data>(g1: seq<Group<Data>>, g2: seq<Group<Data>>)
    requires g1 != [] && |g1[|g1| - 1].points| > 0 && g2 != [] && |g2[|g2| - 1].points| > 0
    requires Peel(g1) == Peel(g2)
    requires |g1[|g1| - 1].points| == 1 <==> |g2[|g2| - 1].points| == 1
    requires g1[|g1| - 1].time == g2[|g2| - 1].time
    requires var l1, l2 := g1[|g1| - 1], g2[|g2| - 1];
      l1.points[|l1.points| - 1] == l2.points[|l2.points| - 1]
    ensures g1 == g2
  {
    var l1, l2 := g1[|g1| - 1], g2[|g2| - 1];
    var n1, n2 := |g1|, |g2|;
    if |l1.points| == 1 {
      assert g1[..n1 - 1] == g2[..n2 - 1];
      assert l1.points == [l1.points[0]] && l2.points == [l2.points[0]];
      assert g1 == g1[..n1 - 1] + [l1] && g2 == g2[..n2 - 1] + [l2];
    } else {
      assert |Peel(g1)| == n1 && |Peel(g2)| == n2;
      assert g1[..n1 - 1] == Peel(g1)[..n1 - 1] == g2[..n2 - 1];
      assert l1.points[..|l1.points| - 1] == Peel(g1)[n1 - 1].points == l2.points[..|l2.points| - 1];
      assert l1.points == l1.points[..|l1.points| - 1] + [l1.points[|l1.points| - 1]];
      assert l2.points == l2.points[..|l2.points| - 1] + [l2.points[|l2.points| - 1]];
      assert g1 == g1[..n1 - 1] + [l1] && g2 == g2[..n2 - 1] + [l2];
    }
  }

  /** A series has one run grouping only. */
  lemma {:induction false} RunGroupingUnique<Data>(g1: seq<Group<Data>>, g2: seq<Group<Data>>,
                                                   s: seq<Point<Data>>, group: Point<Data> -> int)
    requires IsRunGrouping(g1, s, group) && IsRunGrouping(g2, s, group)
    ensures g1 == g2
    decreases |s|
  {
    if s == [] {
      ConcatCovers(g1, group);
      ConcatCovers(g2, group);
    } else {
      PeelIsRunGrouping(g1, s, group);
      PeelIsRunGrouping(g2, s, group);
      RunGroupingUnique(Peel(g1), Peel(g2), s[..|s| - 1], group);
      SameLastLength(g1, g2, s, group);
      Unpeel(g1, g2);
    }
  }

  /** The last group of a run grouping has more than one point exactly when taking
      the last point off leaves a last group of the same time. */
  lemma PeelLastTime<Data>(groups: seq<Group<Data>>, s: seq<Point<Data>>, group: Point<Data> -> int)
    requires IsRunGrouping(groups, s, group)
    requires groups != [] && |groups[|groups| - 1].points| > 0
    ensures var p := Peel(groups);
      |groups[|groups| - 1].points| > 1 <==> (p != [] && p[|p| - 1].time == groups[|groups| - 1].time)
  {
    var n := |groups|;
    if |groups[n - 1].points| == 1 && n > 1 {
      assert Peel(groups)[n - 2] == groups[n - 2];
    }
  }

  /** Both run groupings end with a one-point group, or neither does. */
  lemma SameLastLength<Data>(g1: seq<Group<Data>>, g2: seq<Group<Data>>,
                             s: seq<Point<Data>>, group: Point<Data> -> int)
    requires IsRunGrouping(g1, s, group) && IsRunGrouping(g2, s, group)
    requires g1 != [] && |g1[|g1| - 1].points| > 0 && g2 != [] && |g2[|g2| - 1].points| > 0
    requires Peel(g1) == Peel(g2)
    requires g1[|g1| - 1].time == g2[|g2| - 1].time
    ensures |g1[|g1| - 1].points| == 1 <==> |g2[|g2| - 1].points| == 1
  {
    PeelLastTime(g1, s, group);
    PeelLastTime(g2, s, group);
  }

  /** What downsampling gives is determined by the runs of the series alone: one point
      per run, `transform(runTime, runPoints)`, in run order. */
  lemma DownsampledByRuns<Data>(s: seq<Point<Data>>, group: Point<Data> -> int,
                                transform: (int, seq<Point<Data>>) -> Point<Data>, groups: seq<Group<Data>>)
    requires IsRunGrouping(groups, s, group)
    ensures |Downsampled(s, group, transform)| == |groups|
    ensures forall i :: 0 <= i < |groups| ==>
      Downsampled(s, group, transform)[i] == transform(groups[i].time, groups[i].points)
  {
    RunsAreRuns(s, group);
    RunGroupingUnique(Runs(s, group), groups, s, group);
  }

  // ---------------------------------------------------------------------
  // The source's loop

  /** time-series/downsample/index.js */
  method Downsample<Data>(timeSeries: seq<Point<Data>>, group: Point<Data> -> int,
                          transform: (int, seq<Point<Data>>) -> Point<Data>) returns (r: seq<Point<Data>>)
    ensures r == Downsampled(timeSeries, group, transform)
  {
    var groups: seq<Group<Data>> := [];
    for i := 0 to |timeSeries|
      invariant groups == Runs(timeSeries[..i], group)
    {
      var point := timeSeries[i];
      assert timeSeries[..i + 1][..i] == timeSeries[..i];
      if |groups| == 0 || group(point) != groups[|groups| - 1].time {
        groups := groups + [Group(group(point), [point])];
      } else {
        var currentGroup := groups[|groups| - 1];
        groups := groups[..|groups| - 1] + [Group(currentGroup.time, currentGroup.points + [point])];
      }
    }
    assert timeSeries[..|timeSeries|] == timeSeries;
    r := seq(|groups|, i requires 0 <= i < |groups| => transform(groups[i].time, groups[i].points));
  }

  // ---------------------------------------------------------------------
  // The example of time-series/downsample/index.test.js: times are
  // month * 100 + day, grouped by the first day of the month, summed

  function MonthStart(p: Point<int>): int {
    p.time / 100 * 100 + 1
  }

  function Total(points: seq<Point<int>>): int {
    if points == [] then 0 else points[0].data + Total(points[1..])
  }

  function MonthlyTotal(time: int, points: seq<Point<int>>): Point<int> {
    Point(time, Total(points))
  }

  lemma QuarterConcat()
    ensures Concat(
      [Group(101, [Point(101, 1), Point(102, -2), Point(103, 4)]),
       Group(201, [Point(201, 3), Point(202, -1), Point(203, 2)]),
       Group(301, [Point(301, 2), Point(302, -9), Point(303, 5)])])
      == [Point(101, 1), Point(102, -2), Point(103, 4),
          Point(201, 3), Point(202, -1), Point(203, 2),
          Point(301, 2), Point(302, -9), Point(303, 5)]
  {
    var a, b, c := [Point(101, 1), Point(102, -2), Point(103, 4)],
                   [Point(201, 3), Point(202, -1), Point(203, 2)],
                   [Point(301, 2), Point(302, -9), Point(303, 5)];
    var g := [Group(101, a), Group(201, b), Group(301, c)];
    assert Concat(g[..1]) == a by {
      assert g[..1][..0] == [];
    }
    assert Concat(g[..2]) == a + b by {
      assert g[..2][..1] == g[..1];
    }
    assert Concat(g) == a + b + c by {
      assert g[..2] == g[..|g| - 1];
    }
  }

  lemma QuarterGrouping()
    ensures IsRunGrouping(
      [Group(101, [Point(101, 1), Point(102, -2), Point(103, 4)]),
       Group(201, [Point(201, 3), Point(202, -1), Point(203, 2)]),
       Group(301, [Point(301, 2), Point(302, -9), Point(303, 5)])],
      [Point(101, 1), Point(102, -2), Point(103, 4),
       Point(201, 3), Point(202, -1), Point(203, 2),
       Point(301, 2), Point(302, -9), Point(303, 5)],
      MonthStart)
  {
    QuarterConcat();
    var a, b, c := [Point(101, 1), Point(102, -2), Point(103, 4)],
                   [Point(201, 3), Point(202, -1), Point(203, 2)],
                   [Point(301, 2), Point(302, -9), Point(303, 5)];
    assert Keyed(Group(101, a), MonthStart);
    assert Keyed(Group(201, b), MonthStart);
    assert Keyed(Group(301, c), MonthStart);
  }

  /** Three months of three points give three monthly sums. */
  lemma QuarterDownsample()
    ensures Downsampled(
      [Point(101, 1), Point(102, -2), Point(103, 4),
       Point(201, 3), Point(202, -1), Point(203, 2),
       Point(301, 2), Point(302, -9), Point(303, 5)],
      MonthStart, MonthlyTotal)
      == [Point(101, 3), Point(201, 4), Point(301, -2)]
  {
    var s := [Point(101, 1), Point(102, -2), Point(103, 4),
              Point(201, 3), Point(202, -1), Point(203, 2),
              Point(301, 2), Point(302, -9), Point(303, 5)];
    var g := [Group(101, [Point(101, 1), Point(102, -2), Point(103, 4)]),
              Group(201, [Point(201, 3), Point(202, -1), Point(203, 2)]),
              Group(301, [Point(301, 2), Point(302, -9), Point(303, 5)])];
    QuarterGrouping();
    DownsampledByRuns(s, MonthStart, MonthlyTotal, g);
    assert Total(g[0].points) == 3;
    assert Total(g[1].points) == 4;
    assert Total(g[2].points) == -2;
  }
}
