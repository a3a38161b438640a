/** `interpolate(timeSeries, generate)` (time-series/interpolate/index.js): every
    point of the series, with the points `generate(before, after)` makes for each
    pair of neighbours inserted between them. */
module SeriesInterpolate {
  import opened Wrappers
  import opened TimeSeries

  /** What the `while` loop (lines 10-15) has pushed after `n` rounds: each of the
      first `n` points, followed by what `generate` makes for it and its successor. */
  function Pushes<Data>(s: seq<Point<Data>>, generate: (Point<Data>, Point<Data>) -> seq<Point<Data>>, n: nat): seq<Point<Data>>
    requires n < |s|
  {
    if n == 0 then [] else Pushes(s, generate, n - 1) + [s[n - 1]] + generate(s[n - 1], s[n])
  }

  /** The loop's pushes and then the last point (line 16); nothing for no points. */
  function Interpolated<Data>(s: seq<Point<Data>>, generate: (Point<Data>, Point<Data>) -> seq<Point<Data>>): seq<Point<Data>> {
    if |s| == 0 then [] else Pushes(s, generate, |s| - 1) + [s[|s| - 1]]
  }

  /** The pushes as written, `undefined` (`None`) included: line 16 pushes
      `timeSeries[-1]` when the series is empty. */
  function InterpolatedAsWritten<Data>(s: seq<Point<Data>>, generate: (Point<Data>, Point<Data>) -> seq<Point<Data>>): (r: seq<Option<Point<Data>>>)
    ensures |s| == 0 ==> r == [None]
    ensures |s| > 0 ==> |r| == |Interpolated(s, generate)|
    ensures |s| > 0 ==> forall i :: 0 <= i < |r| ==> r[i] == Some(Interpolated(s, generate)[i])
  {
    var pushes := if |s| > 0 then Pushes(s, generate, |s| - 1) else [];
    seq(|pushes|, i requires 0 <= i < |pushes| => Some(pushes[i])) + [if |s| > 0 then Some(s[|s| - 1]) else None]
  }

  /** As written, an empty series gives `[undefined]` where `[]` is meant. */
  lemma EmptyAsWritten<Data>(generate: (Point<Data>, Point<Data>) -> seq<Point<Data>>)
    ensures InterpolatedAsWritten([], generate) == [None]
    ensures Interpolated([], generate) == []
  {
  }

  /** On a series that is not empty the source's pushes are exactly the points of `Interpolated`. */
  lemma AsWrittenAgrees<Data>(s: seq<Point<Data>>, generate: (Point<Data>, Point<Data>) -> seq<Point<Data>>)
    requires |s| > 0
    ensures var r := Interpolated(s, generate);
      InterpolatedAsWritten(s, generate) == seq(|r|, i requires 0 <= i < |r| => Some(r[i]))
  {
  }

  // ---------------------------------------------------------------------
  // Where each point of the series ends up

  /** The position of `s[i]` in the output: `i`, plus what was generated before it. */
  function Offset<Data>(s: seq<Point<Data>>, generate: (Point<Data>, Point<Data>) -> seq<Point<Data>>, i: nat): nat
    requires i < |s|
  {
    if i == 0 then 0 else Offset(s, generate, i - 1) + 1 + |generate(s[i - 1], s[i])|
  }

  /** The number of points `generate` adds for the first `n` pairs of neighbours. */
  function Generated<Data>(s: seq<Point<Data>>, generate: (Point<Data>, Point<Data>) -> seq<Point<Data>>, n: nat): nat
    requires n < |s|
  {
    if n == 0 then 0 else Generated(s, generate, n - 1) + |generate(s[n - 1], s[n])|
  }

  lemma {:induction false} PushesLength<Data>(s: seq<Point<Data>>, generate: (Point<Data>, Point<Data>) -> seq<Point<Data>>, n: nat)
    requires n < |s|
    ensures |Pushes(s, generate, n)| == Offset(s, generate, n) == n + Generated(s, generate, n)
  {
    if n > 0 {
      PushesLength(s, generate, n - 1);
    }
  }

  /** Later rounds only add to what earlier rounds pushed. */
  lemma {:induction false} PushesPrefix<Data>(s: seq<Point<Data>>, generate: (Point<Data>, Point<Data>) -> seq<Point<Data>>, m: nat, n: nat)
    requires m <= n < |s|
    ensures |Pushes(s, generate, m)| <= |Pushes(s, generate, n)|
    ensures Pushes(s, generate, n)[..|Pushes(s, generate, m)|] == Pushes(s, generate, m)
    decreases n
  {
    if m < n {
      PushesPrefix(s, generate, m, n - 1);
      var p, q := Pushes(s, generate, m), Pushes(s, generate, n - 1);
      var tail := [s[n - 1]] + generate(s[n - 1], s[n]);
      assert Pushes(s, generate, n) == q + tail;
      assert (q + tail)[..|p|] == q[..|p|];
    } else {
      assert Pushes(s, generate, n)[..|Pushes(s, generate, n)|] == Pushes(s, generate, n);
    }
  }

  /** What is pushed in the first `n` rounds begins the output. */
  lemma PushesBeginOutput<Data>(s: seq<Point<Data>>, generate: (Point<Data>, Point<Data>) -> seq<Point<Data>>, n: nat)
    requires n < |s|
    ensures |Pushes(s, generate, n)| < |Interpolated(s, generate)|
    ensures Interpolated(s, generate)[..|Pushes(s, generate, n)|] == Pushes(s, generate, n)
  {
    var all := Pushes(s, generate, |s| - 1);
    var p := Pushes(s, generate, n);
    PushesPrefix(s, generate, n, |s| - 1);
    assert (all + [s[|s| - 1]])[..|p|] == all[..|p|];
  }

  /** Point `i` of the series is at `Offset(i)` of the output, and what `generate`
      makes for it and its successor lies right after it, up to where the successor is. */
  lemma Layout<Data>(s: seq<Point<Data>>, generate: (Point<Data>, Point<Data>) -> seq<Point<Data>>, i: nat)
    requires i < |s|
    ensures Offset(s, generate, i) < |Interpolated(s, generate)|
    ensures Interpolated(s, generate)[Offset(s, generate, i)] == s[i]
    ensures i + 1 < |s| ==>
      && Offset(s, generate, i + 1) == Offset(s, generate, i) + 1 + |generate(s[i], s[i + 1])|
      && Offset(s, generate, i + 1) < |Interpolated(s, generate)|
      && Interpolated(s, generate)[Offset(s, generate, i) + 1..Offset(s, generate, i + 1)] == generate(s[i], s[i + 1])
  {
    var r := Interpolated(s, generate);
    var p := Pushes(s, generate, i);
    PushesLength(s, generate, i);
    if i + 1 < |s| {
      var g := generate(s[i], s[i + 1]);
      var q := Pushes(s, generate, i + 1);
      PushesLength(s, generate, i + 1);
      PushesBeginOutput(s, generate, i + 1);
      assert q == p + [s[i]] + g;
      Piece(r, q, p, s[i], g);
    } else {
      assert r == p + [s[i]];
    }
  }

  /** `r` begins with `q`, which is `p`, then `x`, then `g`. */
  lemma Piece<T>(r: seq<T>, q: seq<T>, p: seq<T>, x: T, g: seq<T>)
    requires |q| <= |r| && r[..|q|] == q && q == p + [x] + g
    ensures r[|p|] == x && r[|p| + 1..|q|] == g
  {
    assert r[|p|] == q[|p|];
    assert r[|p| + 1..|q|] == q[|p| + 1..];
  }

  /** The output has one point per input point and one per generated point, and the
      last point of the series ends it. */
  lemma InterpolatedLength<Data>(s: seq<Point<Data>>, generate: (Point<Data>, Point<Data>) -> seq<Point<Data>>)
    requires |s| > 0
    ensures |Interpolated(s, generate)| == |s| + Generated(s, generate, |s| - 1)
    ensures Offset(s, generate, |s| - 1) == |Interpolated(s, generate)| - 1
  {
    PushesLength(s, generate, |s| - 1);
  }

  /** The output starts with the first point and ends with the last; a single point
      is returned as it is, and no points give nothing. */
  lemma InterpolatedEnds<Data>(s: seq<Point<Data>>, generate: (Point<Data>, Point<Data>) -> seq<Point<Data>>)
    ensures var r := Interpolated(s, generate);
      && (|s| == 0 ==> r == [])
      && (|s| == 1 ==> r == s)
      && (|s| > 0 ==> |r| > 0 && r[0] == s[0] && r[|r| - 1] == s[|s| - 1])
  {
    if |s| > 0 {
      Layout(s, generate, 0);
    }
  }

  // ---------------------------------------------------------------------
  // Time order

  /** `generate` keeps to its gaps: what it makes for two neighbours is in time
      order and lies between their times. */
  predicate FillsGaps<Data>(s: seq<Point<Data>>, generate: (Point<Data>, Point<Data>) -> seq<Point<Data>>) {
    forall i :: 0 <= i < |s| - 1 ==>
      Chronological(generate(s[i], s[i + 1])) && Within(generate(s[i], s[i + 1]), s[i].time, s[i + 1].time)
  }

  /** Every time of the series is in `[lo, hi]`. */
  predicate Within<Data>(s: seq<Point<Data>>, lo: int, hi: int) {
    forall k :: 0 <= k < |s| ==> lo <= s[k].time <= hi
  }

  /** What the first `n` rounds push is in time order and no later than point `n`. */
  lemma {:induction false} PushesChronological<Data>(s: seq<Point<Data>>, generate: (Point<Data>, Point<Data>) -> seq<Point<Data>>, n: nat)
    requires n < |s| && Chronological(s) && FillsGaps(s, generate)
    ensures Chronological(Pushes(s, generate, n))
    ensures forall k :: 0 <= k < |Pushes(s, generate, n)| ==> Pushes(s, generate, n)[k].time <= s[n].time
  {
    if n > 0 {
      var p := Pushes(s, generate, n - 1);
      var x := s[n - 1];
      var g := generate(x, s[n]);
      PushesChronological(s, generate, n - 1);
      assert x.time <= s[n].time;
      assert Chronological(g) && Within(g, x.time, s[n].time);
      ChronologicalConcat(p, [x], x.time);
      ChronologicalConcat(p + [x], g, x.time);
      BelowAfterConcat(p + [x], g, s[n].time);
    }
  }

  lemma BelowAfterConcat<Data>(a: seq<Point<Data>>, b: seq<Point<Data>>, m: int)
    requires forall k :: 0 <= k < |a| ==> a[k].time <= m
    requires forall k :: 0 <= k < |b| ==> b[k].time <= m
    ensures forall k :: 0 <= k < |a + b| ==> (a + b)[k].time <= m
  {
    forall k | 0 <= k < |a + b| ensures (a + b)[k].time <= m {
      if k < |a| {
        assert (a + b)[k] == a[k];
      } else {
        assert (a + b)[k] == b[k - |a|];
      }
    }
  }

  /** A series in time order, filled by a `generate` that keeps to its gaps, stays in time order. */
  lemma InterpolatedChronological<Data>(s: seq<Point<Data>>, generate: (Point<Data>, Point<Data>) -> seq<Point<Data>>)
    requires Chronological(s) && FillsGaps(s, generate)
    ensures Chronological(Interpolated(s, generate))
  {
    if |s| > 0 {
      var last := s[|s| - 1];
      PushesChronological(s, generate, |s| - 1);
      ChronologicalConcat(Pushes(s, generate, |s| - 1), [last], last.time);
    }
  }

  // ---------------------------------------------------------------------
  // The source's loop

  /** time-series/interpolate/index.js, pushing the last point only when there is one. */
  method Interpolate<Data>(timeSeries: seq<Point<Data>>, generate: (Point<Data>, Point<Data>) -> seq<Point<Data>>)
    returns (interpolated: seq<Point<Data>>)
    ensures interpolated == Interpolated(timeSeries, generate)
  {
    interpolated := [];
    var index := 0;
    while index < |timeSeries| - 1
      invariant 0 <= index <= |timeSeries|
      invariant |timeSeries| > 0 ==> index < |timeSeries| && interpolated == Pushes(timeSeries, generate, index)
      invariant |timeSeries| == 0 ==> interpolated == []
    {
      var before := timeSeries[index];
      var after := timeSeries[index + 1];
      interpolated := interpolated + [before] + generate(before, after);
      index := index + 1;
    }
    if |timeSeries| > 0 {
      interpolated := interpolated + [timeSeries[|timeSeries| - 1]];
    }
  }

  // ---------------------------------------------------------------------
  // The examples of time-series/interpolate/index.test.js, with days as times

  /** The days strictly between two points, one point per day. */
  function MissingDays(before: Point<()>, after: Point<()>): seq<Point<()>> {
    if after.time - before.time > 1 then
      seq(after.time - before.time - 1, k => Point(before.time + 1 + k, ()))
    else []
  }

  lemma MissingDaysOfTest()
    ensures MissingDays(Point(1, ()), Point(3, ())) == [Point(2, ())]
    ensures MissingDays(Point(3, ()), Point(4, ())) == []
    ensures MissingDays(Point(4, ()), Point(6, ())) == [Point(5, ())]
    ensures MissingDays(Point(6, ()), Point(9, ())) == [Point(7, ()), Point(8, ())]
  {
  }

  /** Jan 1, 3, 4, 6 and 9 filled in day by day give Jan 1 to Jan 9. */
  lemma FillingDays()
    ensures Interpolated([Point(1, ()), Point(3, ()), Point(4, ()), Point(6, ()), Point(9, ())], MissingDays)
         == [Point(1, ()), Point(2, ()), Point(3, ()), Point(4, ()), Point(5, ()),
             Point(6, ()), Point(7, ()), Point(8, ()), Point(9, ())]
  {
    var s := [Point(1, ()), Point(3, ()), Point(4, ()), Point(6, ()), Point(9, ())];
    MissingDaysOfTest();
    assert Pushes(s, MissingDays, 1) == [Point(1, ()), Point(2, ())];
    assert Pushes(s, MissingDays, 2) == [Point(1, ()), Point(2, ()), Point(3, ())];
    assert Pushes(s, MissingDays, 3) == [Point(1, ()), Point(2, ()), Point(3, ()), Point(4, ()), Point(5, ())];
    assert Pushes(s, MissingDays, 4)
        == [Point(1, ()), Point(2, ()), Point(3, ()), Point(4, ()), Point(5, ()), Point(6, ()), Point(7, ()), Point(8, ())];
  }

  /** An empty series gives nothing, and a single point is returned as it is. */
  lemma EmptyAndSinglePoint(p: Point<()>)
    ensures Interpolated([], (before: Point<()>, after: Point<()>) => []) == []
    ensures Interpolated([p], (before: Point<()>, after: Point<()>) => []) == [p]
  {
  }
}
