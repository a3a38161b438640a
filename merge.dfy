/** The k-way merge of time series (time-series/merge/index.js): build a
    tournament tree over the series keyed by time, then take the root's value
    and advance the tree until the root holds nothing. */
module SeriesMerge {
  import opened Wrappers
  import opened TimeSeries
  import opened TournamentTree
  import opened TournamentInitialize

  /** The driver's first step as written: it reads `value` from what the builder
      returned, and the builder returns `undefined` for no series. */
  function FirstValueAsWritten<Data>(root: Option<Tree<Point<Data>>>): Result<Option<Point<Data>>> {
    match root
    case None => Err("Cannot read properties of undefined (reading 'value')")
    case Some(t) => Ok(t.value)
  }

  /** `merge()` with no series throws instead of giving `[]`. */
  lemma NoSeriesAsWrittenThrows<Data>()
    ensures FirstValueAsWritten(InitialTree([], TimeOf<Data>)).Err?
  {
  }

  /** The loop's state: the points taken so far and the points still in the tree are
      the points of the series; when every series is in time order, so is what was
      taken, and nothing left is earlier than it. */
  ghost predicate Pending<Data>(merged: seq<Point<Data>>, tree: Tree<Point<Data>>,
                                items: multiset<Point<Data>>, sorted: bool)
  {
    && Valid(tree, TimeOf)
    && multiset(merged) + multiset(Contents(tree)) == items
    && (sorted ==> Ordered(tree, TimeOf) && Chronological(merged))
    && (sorted ==> forall i, x :: 0 <= i < |merged| && x in Contents(tree) ==> merged[i].time <= x.time)
  }

  /** Taking the root's value and advancing the tree keeps the state and shrinks the tree. */
  lemma TakeKeepsPending<Data>(merged: seq<Point<Data>>, tree: Tree<Point<Data>>,
                               items: multiset<Point<Data>>, sorted: bool)
    requires Pending(merged, tree, items, sorted) && tree.value.Some?
    ensures Pending(merged + [tree.value.value], Next(tree, TimeOf), items, sorted)
    ensures |Contents(Next(tree, TimeOf))| < |Contents(tree)|
  {
    TakeKeepsItems(merged, tree, items);
    if sorted {
      TakeKeepsOrder(merged, tree);
    }
  }

  lemma TakeKeepsItems<Data>(merged: seq<Point<Data>>, tree: Tree<Point<Data>>, items: multiset<Point<Data>>)
    requires Valid(tree, TimeOf) && tree.value.Some?
    requires multiset(merged) + multiset(Contents(tree)) == items
    ensures Valid(Next(tree, TimeOf), TimeOf)
    ensures multiset(merged + [tree.value.value]) + multiset(Contents(Next(tree, TimeOf))) == items
    ensures |Contents(Next(tree, TimeOf))| < |Contents(tree)|
  {
    NextTakesRoot(tree, TimeOf);
    NextKeepsValid(tree, TimeOf);
    assert |multiset(Contents(Next(tree, TimeOf)))| < |multiset(Contents(tree))|;
  }

  lemma TakeKeepsOrder<Data>(merged: seq<Point<Data>>, tree: Tree<Point<Data>>)
    requires Valid(tree, TimeOf) && Ordered(tree, TimeOf) && tree.value.Some? && Chronological(merged)
    requires forall i, x :: 0 <= i < |merged| && x in Contents(tree) ==> merged[i].time <= x.time
    ensures Ordered(Next(tree, TimeOf), TimeOf)
    ensures Chronological(merged + [tree.value.value])
    ensures forall i, x :: 0 <= i < |merged| + 1 && x in Contents(Next(tree, TimeOf)) ==>
      (merged + [tree.value.value])[i].time <= x.time
  {
    NextTakesRoot(tree, TimeOf);
    RootIsMinimum(tree, TimeOf);
    NextKeepsOrdered(tree, TimeOf);
    TakenInOrder(merged, tree.value.value, Contents(tree));
    TakenBeforeRest(merged, tree.value.value, Contents(Next(tree, TimeOf)), Contents(tree));
  }

  /** A point no earlier than any taken so far extends them in time order. */
  lemma TakenInOrder<Data>(merged: seq<Point<Data>>, value: Point<Data>, all: seq<Point<Data>>)
    requires Chronological(merged) && value in all
    requires forall i, x :: 0 <= i < |merged| && x in all ==> merged[i].time <= x.time
    ensures Chronological(merged + [value])
  {
    var taken := merged + [value];
    forall i, j | 0 <= i < j < |taken|
      ensures taken[i].time <= taken[j].time
    {
      if j == |merged| {
        assert taken[i] == merged[i] && taken[j] == value;
      } else {
        assert taken[i] == merged[i] && taken[j] == merged[j];
      }
    }
  }

  /** What is left after taking the smallest point is no earlier than anything taken. */
  lemma TakenBeforeRest<Data>(merged: seq<Point<Data>>, value: Point<Data>, rest: seq<Point<Data>>, all: seq<Point<Data>>)
    requires multiset(rest) + multiset{value} == multiset(all)
    requires forall i, x :: 0 <= i < |merged| && x in all ==> merged[i].time <= x.time
    requires forall x :: x in all ==> value.time <= x.time
    ensures forall i, x :: 0 <= i < |merged| + 1 && x in rest ==> (merged + [value])[i].time <= x.time
  {
    var taken := merged + [value];
    forall i, x | 0 <= i < |taken| && x in rest
      ensures taken[i].time <= x.time
    {
      StillThere(rest, all, value, x);
      if i < |merged| {
        assert taken[i] == merged[i];
      }
    }
  }

  lemma StillThere<T>(rest: seq<T>, all: seq<T>, taken: T, x: T)
    requires multiset(rest) + multiset{taken} == multiset(all) && x in rest
    ensures x in all
  {
    assert x in multiset(rest);
    assert x in multiset(all);
  }

  /** With a single leaf, advancing takes exactly the first item of its series. */
  lemma LeafTake<Data>(taken: seq<Point<Data>>, tree: Tree<Point<Data>>)
    requires Valid(tree, TimeOf) && ShapeOf(tree) == Tip && tree.value.Some?
    ensures (taken + [tree.value.value]) + Contents(Next(tree, TimeOf)) == taken + Contents(tree)
  {
    assert Contents(tree) == [tree.value.value] + Contents(Next(tree, TimeOf));
  }

  /** Every series is in time order. */
  predicate AllChronological<Data>(series: seq<seq<Point<Data>>>) {
    forall i :: 0 <= i < |series| ==> Chronological(series[i])
  }

  /** The state of the driver's loop: `Pending`, and for a single series, a single
      leaf whose items follow the points taken so far. */
  ghost predicate MergeState<Data>(merged: seq<Point<Data>>, tree: Tree<Point<Data>>,
                                   series: seq<seq<Point<Data>>>)
  {
    && Pending(merged, tree, multiset(Flatten(series)), AllChronological(series))
    && (|series| == 1 ==> ShapeOf(tree) == Tip && merged + Contents(tree) == series[0])
  }

  lemma MergeStart<Data>(series: seq<seq<Point<Data>>>)
    requires |series| > 0
    ensures InitialTree(series, TimeOf).Some?
    ensures MergeState([], InitialTree(series, TimeOf).value, series)
  {
    StartPending(series);
    if |series| == 1 {
      LoneSeriesStart(series);
    }
  }

  /** The tree built from the series holds all their points, and none is taken yet. */
  lemma StartPending<Data>(series: seq<seq<Point<Data>>>)
    requires |series| > 0
    ensures InitialTree(series, TimeOf).Some?
    ensures Pending([], InitialTree(series, TimeOf).value, multiset(Flatten(series)), AllChronological(series))
  {
    InitialTreeSound(series, TimeOf);
    var tree := InitialTree(series, TimeOf).value;
    assert multiset([]) + multiset(Contents(tree)) == multiset(Flatten(series));
    if AllChronological(series) {
      assert forall i :: 0 <= i < |series| ==> SortedBy(series[i], TimeOf) by {
        forall i | 0 <= i < |series| ensures SortedBy(series[i], TimeOf) {
          assert Chronological(series[i]);
        }
      }
    }
  }

  /** A single series becomes a single leaf holding it. */
  lemma LoneSeriesStart<Data>(series: seq<seq<Point<Data>>>)
    requires |series| == 1
    ensures InitialTree(series, TimeOf) == Some(Pop(series[0], TimeOf))
    ensures [] + Contents(Pop(series[0], TimeOf)) == series[0]
  {
    assert series == [series[0]];
    SquaredLosesLoneQueue(series[0], TimeOf);
  }

  lemma MergeStep<Data>(merged: seq<Point<Data>>, tree: Tree<Point<Data>>, series: seq<seq<Point<Data>>>)
    requires MergeState(merged, tree, series) && tree.value.Some?
    ensures MergeState(merged + [tree.value.value], Next(tree, TimeOf), series)
    ensures |Contents(Next(tree, TimeOf))| < |Contents(tree)|
  {
    TakeKeepsPending(merged, tree, multiset(Flatten(series)), AllChronological(series));
    if |series| == 1 {
      LeafTake(merged, tree);
    }
  }

  lemma MergeEnd<Data>(merged: seq<Point<Data>>, tree: Tree<Point<Data>>, series: seq<seq<Point<Data>>>)
    requires MergeState(merged, tree, series) && tree.value.None?
    ensures multiset(merged) == multiset(Flatten(series))
    ensures (forall i :: 0 <= i < |series| ==> Chronological(series[i])) ==> Chronological(merged)
    ensures |series| == 1 ==> merged == series[0]
  {
    ValidRoot(tree, TimeOf);
    assert merged + [] == merged;
  }

  /** `merge(...series)`: every point of every series, each once; in time order when
      each series is; and a single series unchanged. With no series the result is `[]`. */
  method Merge<Data>(series: seq<seq<Point<Data>>>) returns (merged: seq<Point<Data>>)
    ensures multiset(merged) == multiset(Flatten(series))
    ensures (forall i :: 0 <= i < |series| ==> Chronological(series[i])) ==> Chronological(merged)
    ensures |series| == 1 ==> merged == series[0]
  {
    var root := Initialize(series, TimeOf);
    merged := [];
    if root.None? {
      InitialTreeSound(series, TimeOf);
      assert Flatten(series) == [];
      return;
    }
    MergeStart(series);
    var tree := root.value;
    while tree.value.Some?
      invariant MergeState(merged, tree, series)
      decreases |Contents(tree)|
    {
      MergeStep(merged, tree, series);
      merged := merged + [tree.value.value];
      tree := Next(tree, TimeOf);
    }
    MergeEnd(merged, tree, series);
  }

  // ---------------------------------------------------------------------
  // The examples of time-series/merge/index.test.js, with days as times

  function At(day: int): Point<()> {
    Point(day, ())
  }

  lemma UnitPointsDistinct(s: seq<Point<()>>)
    ensures DistinctTimes(s)
  {
    forall x, y | x in s && y in s && x.time == y.time
      ensures x == y
    {
      assert x.data == y.data;
    }
  }

  lemma FourSeriesFlatten()
    ensures Flatten([[At(1), At(3), At(7)], [At(2), At(4), At(8)], [At(5), At(6), At(9)], []])
         == [At(1), At(3), At(7), At(2), At(4), At(8), At(5), At(6), At(9)]
  {
    var four := [[At(1), At(3), At(7)], [At(2), At(4), At(8)], [At(5), At(6), At(9)], []];
    assert Flatten(four[3..]) == [];
    assert Flatten(four[2..]) == [At(5), At(6), At(9)];
    assert Flatten(four[1..]) == [At(2), At(4), At(8), At(5), At(6), At(9)];
  }

  lemma NineInOrder(items: multiset<Point<()>>)
    requires items == multiset([At(1), At(3), At(7), At(2), At(4), At(8), At(5), At(6), At(9)])
    ensures items == multiset([At(1), At(2), At(3), At(4), At(5), At(6), At(7), At(8), At(9)])
  {
    assert items == multiset{At(1), At(3), At(7), At(2), At(4), At(8), At(5), At(6), At(9)};
    assert items == multiset{At(1), At(2), At(3), At(4), At(5), At(6), At(7), At(8), At(9)};
  }

  lemma NineChronological()
    ensures Chronological([At(1), At(2), At(3), At(4), At(5), At(6), At(7), At(8), At(9)])
  {
    var nine := [At(1), At(2), At(3), At(4), At(5), At(6), At(7), At(8), At(9)];
    assert forall i :: 0 <= i < 9 ==> nine[i].time == i + 1;
  }

  /** Three series and an empty one merge into the nine points in time order. */
  lemma FourSeriesMerge(merged: seq<Point<()>>)
    requires multiset(merged) == multiset(Flatten([[At(1), At(3), At(7)], [At(2), At(4), At(8)], [At(5), At(6), At(9)], []]))
    requires Chronological(merged)
    ensures merged == [At(1), At(2), At(3), At(4), At(5), At(6), At(7), At(8), At(9)]
  {
    FourSeriesFlatten();
    NineInOrder(multiset(merged));
    UnitPointsDistinct(merged);
    NineChronological();
    ChronologicalUnique(merged, [At(1), At(2), At(3), At(4), At(5), At(6), At(7), At(8), At(9)]);
  }

  /** Two points with the same time, one per series, both come out. */
  lemma SameDateMerge(merged: seq<Point<()>>)
    requires multiset(merged) == multiset(Flatten([[At(1)], [At(1)]]))
    ensures merged == [At(1), At(1)]
  {
    assert Flatten([[At(1)], [At(1)]]) == [At(1), At(1)] by {
      assert Flatten([[At(1)]]) == [At(1)] + Flatten([]);
    }
    assert |merged| == 2;
    assert merged[0] in multiset(merged) && merged[1] in multiset(merged);
  }
}
