/** Time series: lists of points in time order. The point type itself
    (time-series/time-series-point.js) is not part of this model; a point is
    its time, as a whole number (a `Date`'s `valueOf()`), and its other data. */
module TimeSeries {

  datatype Point<Data> = Point(time: int, data: Data)

  /** `point.time.valueOf()` */
  function TimeOf<Data>(p: Point<Data>): int {
    p.time
  }

  /** Times never go down along the series. */
  predicate Chronological<Data>(s: seq<Point<Data>>) {
    forall i, j :: 0 <= i < j < |s| ==> s[i].time <= s[j].time
  }

  /** Two series in time order, every point of the first no later than `m` and every
      point of the second no earlier, make one series in time order. */
  lemma ChronologicalConcat<Data>(a: seq<Point<Data>>, b: seq<Point<Data>>, m: int)
    requires Chronological(a) && Chronological(b)
    requires forall i :: 0 <= i < |a| ==> a[i].time <= m
    requires forall j :: 0 <= j < |b| ==> m <= b[j].time
    ensures Chronological(a + b)
  {
    forall i, j | 0 <= i < j < |a + b|
      ensures (a + b)[i].time <= (a + b)[j].time
    {
      if j < |a| {
        assert (a + b)[i] == a[i] && (a + b)[j] == a[j];
      } else if i < |a| {
        assert (a + b)[i] == a[i] && (a + b)[j] == b[j - |a|];
      } else {
        assert (a + b)[i] == b[i - |a|] && (a + b)[j] == b[j - |a|];
      }
    }
  }

  /** No two different points share a time. */
  ghost predicate DistinctTimes<Data>(s: seq<Point<Data>>) {
    forall x, y :: x in s && y in s && x.time == y.time ==> x == y
  }

  lemma EarliestFirst<Data>(s: seq<Point<Data>>, x: Point<Data>)
    requires Chronological(s) && x in s
    ensures s[0].time <= x.time
  {
    var j :| 0 <= j < |s| && s[j] == x;
    if j > 0 {
      assert s[0].time <= s[j].time;
    }
  }

  lemma ChronologicalTail<Data>(s: seq<Point<Data>>)
    requires Chronological(s) && s != []
    ensures Chronological(s[1..])
  {
    forall i, j | 0 <= i < j < |s| - 1 ensures s[1..][i].time <= s[1..][j].time {
      assert s[1..][i] == s[i + 1] && s[1..][j] == s[j + 1];
    }
  }

  lemma TailMultiset<T>(s: seq<T>)
    requires s != []
    ensures multiset(s[1..]) == multiset(s) - multiset{s[0]}
  {
    assert s == [s[0]] + s[1..];
  }

  lemma DistinctTail<Data>(s: seq<Point<Data>>)
    requires DistinctTimes(s) && s != []
    ensures DistinctTimes(s[1..])
  {
    forall x, y | x in s[1..] && y in s[1..] && x.time == y.time ensures x == y {
      assert x in s && y in s;
    }
  }

  /** The first points of two chronological orderings of the same points are the same. */
  lemma SameFirst<Data>(a: seq<Point<Data>>, b: seq<Point<Data>>)
    requires multiset(a) == multiset(b) && a != []
    requires Chronological(a) && Chronological(b) && DistinctTimes(a)
    ensures b != [] && a[0] == b[0]
  {
    assert a[0] in multiset(b);
    assert b[0] in multiset(a);
    EarliestFirst(b, a[0]);
    EarliestFirst(a, b[0]);
  }

  lemma SameHeadSameTail<T>(a: seq<T>, b: seq<T>)
    requires a != [] && b != [] && a[0] == b[0] && a[1..] == b[1..]
    ensures a == b
  {
    assert a == [a[0]] + a[1..] && b == [b[0]] + b[1..];
  }

  /** Two chronological orderings of the same points are the same series
      when no two different points share a time. */
  lemma {:induction false} ChronologicalUnique<Data>(a: seq<Point<Data>>, b: seq<Point<Data>>)
    requires multiset(a) == multiset(b)
    requires Chronological(a) && Chronological(b) && DistinctTimes(a)
    ensures a == b
    decreases |a|
  {
    if a == [] {
      assert |b| == |multiset(b)| == 0;
    } else {
      SameFirst(a, b);
      TailMultiset(a);
      TailMultiset(b);
      ChronologicalTail(a);
      ChronologicalTail(b);
      DistinctTail(a);
      ChronologicalUnique(a[1..], b[1..]);
      SameHeadSameTail(a, b);
    }
  }
}
