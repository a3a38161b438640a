/** The two builders of a tournament tree from k queues: one leaf per queue
    (padded with exhausted leaves), then rounds of matches between neighbours
    until one node is left (time-series/tournament-tree/initialize.js and
    time-series/merge/tournament-tree/initialize.js). */
module TournamentInitialize {
  import opened Wrappers
  import opened TournamentTree

  // ---------------------------------------------------------------------
  // Leaf counts

  function Pow2(c: nat): nat {
    if c == 0 then 1 else 2 * Pow2(c - 1)
  }

  predicate IsPowerOfTwo(n: nat) {
    n == 1 || (n >= 2 && n % 2 == 0 && IsPowerOfTwo(n / 2))
  }

  lemma {:induction false} Pow2IsPowerOfTwo(c: nat)
    ensures IsPowerOfTwo(Pow2(c))
  {
    if c > 0 {
      Pow2IsPowerOfTwo(c - 1);
      assert Pow2(c) / 2 == Pow2(c - 1);
    }
  }

  /** `Math.ceil(Math.log2(k))` on whole numbers: the least c with k <= 2^c. */
  function CeilLog2(k: nat): (c: nat)
    requires k >= 1
    ensures k <= Pow2(c)
    ensures c > 0 ==> Pow2(c - 1) < k
    decreases k
  {
    if k == 1 then 0 else 1 + CeilLog2((k + 1) / 2)
  }

  /** `2 ** Math.ceil(Math.log2(k))`; with no queues this is `2 ** -Infinity`, that is 0. */
  function LeafCount(k: nat): (n: nat)
    ensures k == 0 ==> n == 0
    ensures k >= 1 ==> IsPowerOfTwo(n) && k <= n && (n == 1 || n / 2 < k)
  {
    if k == 0 then 0
    else
      var c := CeilLog2(k);
      Pow2IsPowerOfTwo(c);
      Pow2(c)
  }

  /** `Math.ceil(Math.log2(k)) ** 2` (no value for k = 0, where it is `Infinity`). */
  function SquaredLeafCount(k: nat): nat
    requires k >= 1
  {
    CeilLog2(k) * CeilLog2(k)
  }

  // ---------------------------------------------------------------------
  // Leaves and rounds as values

  /** Leaf i: the popped queue i, or an exhausted leaf past the last queue. */
  function LeafFor<V>(queues: seq<seq<V>>, i: nat, getKey: V -> int): Tree<V> {
    if i < |queues| then Pop(queues[i], getKey) else Exhausted()
  }

  function Leaves<V>(queues: seq<seq<V>>, n: nat, getKey: V -> int): (r: seq<Tree<V>>)
    ensures |r| == n
  {
    seq(n, i requires 0 <= i < n => LeafFor(queues, i, getKey))
  }

  /** All the items of a list of queues, queue after queue. */
  function Flatten<V>(queues: seq<seq<V>>): seq<V> {
    if queues == [] then [] else queues[0] + Flatten(queues[1..])
  }

  /** All the items of a level of subtrees, subtree after subtree. */
  function Flat<V>(level: seq<Tree<V>>): seq<V> {
    if level == [] then [] else Contents(level[0]) + Flat(level[1..])
  }

  ghost predicate AllValid<V>(level: seq<Tree<V>>, getKey: V -> int) {
    forall i :: 0 <= i < |level| ==> Valid(level[i], getKey)
  }

  predicate AllOrdered<V>(level: seq<Tree<V>>, getKey: V -> int) {
    forall i :: 0 <= i < |level| ==> Ordered(level[i], getKey)
  }

  /** One round: node j matches `level[2j]` against `level[2j+1]`. */
  function Pairs<V>(level: seq<Tree<V>>): (r: seq<Tree<V>>)
    requires |level| % 2 == 0
    ensures |r| == |level| / 2
  {
    seq(|level| / 2, j requires 0 <= j < |level| / 2 => Match(level[2 * j], level[2 * j + 1]))
  }

  /** What reading `parent2.key` past the end of an odd level throws. */
  const UndefinedKey := "Cannot read properties of undefined (reading 'key')"

  /** The rounds, ending with `level[0]` (`undefined` for no leaves, `None` here). */
  function Rounds<V>(level: seq<Tree<V>>): Result<Option<Tree<V>>>
    decreases |level|
  {
    if |level| == 0 then Ok(None)
    else if |level| == 1 then Ok(Some(level[0]))
    else if |level| % 2 == 1 then Err(UndefinedKey)
    else Rounds(Pairs(level))
  }

  // ---------------------------------------------------------------------
  // What the rounds keep

  lemma {:induction false} FlatAppend<V>(a: seq<Tree<V>>, b: seq<Tree<V>>)
    ensures Flat(a + b) == Flat(a) + Flat(b)
  {
    if a != [] {
      assert (a + b)[0] == a[0];
      assert (a + b)[1..] == a[1..] + b;
      FlatAppend(a[1..], b);
      assert Flat(a + b) == Contents(a[0]) + Flat(a[1..] + b);
    } else {
      assert a + b == b;
    }
  }

  lemma {:induction false} FlattenAppend<V>(a: seq<seq<V>>, b: seq<seq<V>>)
    ensures Flatten(a + b) == Flatten(a) + Flatten(b)
  {
    if a != [] {
      assert (a + b)[0] == a[0];
      assert (a + b)[1..] == a[1..] + b;
      FlattenAppend(a[1..], b);
      assert Flatten(a + b) == a[0] + Flatten(a[1..] + b);
    } else {
      assert a + b == b;
    }
  }

  /** A round keeps the items in order, and keeps every subtree valid and ordered. */
  lemma {:induction false} PairsKeep<V>(level: seq<Tree<V>>, getKey: V -> int)
    requires |level| % 2 == 0
    ensures Flat(Pairs(level)) == Flat(level)
    ensures AllValid(level, getKey) ==> AllValid(Pairs(level), getKey)
    ensures AllOrdered(level, getKey) ==> AllOrdered(Pairs(level), getKey)
  {
    PairsFlat(level);
    if AllValid(level, getKey) {
      PairsValid(level, getKey);
    }
    if AllOrdered(level, getKey) {
      PairsOrdered(level, getKey);
    }
  }

  lemma {:induction false} PairsFlat<V>(level: seq<Tree<V>>)
    requires |level| % 2 == 0
    ensures Flat(Pairs(level)) == Flat(level)
    decreases |level|
  {
    if level != [] {
      var rest := level[2..];
      assert Pairs(level) == [Match(level[0], level[1])] + Pairs(rest);
      PairsFlat(rest);
      assert level == [level[0], level[1]] + rest;
      FlatAppend([level[0], level[1]], rest);
      FlatAppend([Match(level[0], level[1])], Pairs(rest));
    }
  }

  lemma PairsValid<V>(level: seq<Tree<V>>, getKey: V -> int)
    requires |level| % 2 == 0 && AllValid(level, getKey)
    ensures AllValid(Pairs(level), getKey)
  {
    forall j | 0 <= j < |level| / 2
      ensures Valid(Pairs(level)[j], getKey)
    {
      assert Valid(level[2 * j], getKey) && Valid(level[2 * j + 1], getKey);
    }
  }

  lemma PairsOrdered<V>(level: seq<Tree<V>>, getKey: V -> int)
    requires |level| % 2 == 0 && AllOrdered(level, getKey)
    ensures AllOrdered(Pairs(level), getKey)
  {
    forall j | 0 <= j < |level| / 2
      ensures Ordered(Pairs(level)[j], getKey)
    {
      assert Ordered(level[2 * j], getKey) && Ordered(level[2 * j + 1], getKey);
    }
  }

  /** The root the rounds end with holds every item of the level, in order, and is
      valid and ordered when the level is; no root comes only from no leaves. */
  lemma {:induction false} RoundsKeep<V>(level: seq<Tree<V>>, getKey: V -> int)
    requires Rounds(level).Ok?
    ensures Rounds(level).value.None? <==> level == []
    ensures Rounds(level).value.Some? ==> Contents(Rounds(level).value.value) == Flat(level)
    ensures Rounds(level).value.Some? && AllValid(level, getKey) ==> Valid(Rounds(level).value.value, getKey)
    ensures Rounds(level).value.Some? && AllOrdered(level, getKey) ==> Ordered(Rounds(level).value.value, getKey)
    decreases |level|
  {
    if |level| == 1 {
      assert Flat(level) == Contents(level[0]) + Flat([]);
    } else if |level| > 1 {
      PairsKeep(level, getKey);
      RoundsKeep(Pairs(level), getKey);
    }
  }

  /** The rounds never fail on a level whose length is a power of two. */
  lemma {:induction false} RoundsOnPowerOfTwo<V>(level: seq<Tree<V>>)
    requires IsPowerOfTwo(|level|)
    ensures Rounds(level).Ok? && Rounds(level).value.Some?
    decreases |level|
  {
    if |level| > 1 {
      RoundsOnPowerOfTwo(Pairs(level));
    }
  }

  /** Leaves past the last queue add no items. */
  lemma LeavesFlat<V>(queues: seq<seq<V>>, n: nat, getKey: V -> int)
    ensures Flat(Leaves(queues, n, getKey)) == Flatten(queues[..if n < |queues| then n else |queues|])
    ensures AllValid(Leaves(queues, n, getKey), getKey)
    ensures (forall i :: 0 <= i < |queues| ==> SortedBy(queues[i], getKey)) ==> AllOrdered(Leaves(queues, n, getKey), getKey)
  {
    LeavesInOrder(queues, n, getKey);
    assert forall i :: 0 <= i < n ==> Leaves(queues, n, getKey)[i] == LeafFor(queues, i, getKey);
  }

  lemma {:induction false} LeavesInOrder<V>(queues: seq<seq<V>>, n: nat, getKey: V -> int)
    ensures Flat(Leaves(queues, n, getKey)) == Flatten(queues[..if n < |queues| then n else |queues|])
  {
    if n > 0 {
      LeavesInOrder(queues, n - 1, getKey);
      var front := Leaves(queues, n - 1, getKey);
      var leaf := LeafFor(queues, n - 1, getKey);
      assert Leaves(queues, n, getKey) == front + [leaf];
      FlatAppend(front, [leaf]);
      assert Flat([leaf]) == Contents(leaf) + Flat([]);
      if n - 1 < |queues| {
        assert queues[..n] == queues[..n - 1] + [queues[n - 1]];
        FlattenAppend(queues[..n - 1], [queues[n - 1]]);
        assert Flatten([queues[n - 1]]) == queues[n - 1] + Flatten([]);
      }
    }
  }

  // ---------------------------------------------------------------------
  // The builders as values

  /** The power-of-two builder (time-series/tournament-tree/initialize.js). */
  function InitialTree<V>(queues: seq<seq<V>>, getKey: V -> int): Option<Tree<V>> {
    var leaves := Leaves(queues, LeafCount(|queues|), getKey);
    if |queues| == 0 then None
    else
      RoundsOnPowerOfTwo(leaves);
      Rounds(leaves).value
  }

  /** The power-of-two builder gives a root exactly when there is a queue; that root is
      valid, holds every item of every queue in order, and is ordered when they are. */
  lemma InitialTreeSound<V>(queues: seq<seq<V>>, getKey: V -> int)
    ensures InitialTree(queues, getKey).Some? <==> |queues| > 0
    ensures InitialTree(queues, getKey).Some? ==>
      var t := InitialTree(queues, getKey).value;
      Valid(t, getKey) && Contents(t) == Flatten(queues) &&
      ((forall i :: 0 <= i < |queues| ==> SortedBy(queues[i], getKey)) ==> Ordered(t, getKey))
  {
    if |queues| > 0 {
      var leaves := Leaves(queues, LeafCount(|queues|), getKey);
      RoundsOnPowerOfTwo(leaves);
      RoundsKeep(leaves, getKey);
      LeavesFlat(queues, LeafCount(|queues|), getKey);
      assert queues[..|queues|] == queues;
    }
  }

  /** The builder of time-series/merge/tournament-tree/initialize.js. */
  function SquaredTree<V>(queues: seq<seq<V>>, getKey: V -> int): Result<Option<Tree<V>>>
    requires |queues| >= 1
  {
    Rounds(Leaves(queues, SquaredLeafCount(|queues|), getKey))
  }

  /** With one queue the squared count is 0: no leaves, no root, and the queue is lost. */
  lemma SquaredLosesLoneQueue<V>(queue: seq<V>, getKey: V -> int)
    ensures SquaredTree([queue], getKey) == Ok(None)
    ensures InitialTree([queue], getKey) == Some(Pop(queue, getKey))
  {
    assert Leaves([queue], 1, getKey) == [Pop(queue, getKey)];
  }

  /** With two queues the squared count is 1: the second queue is never read. */
  lemma SquaredIgnoresSecondQueue<V>(q1: seq<V>, q2: seq<V>, getKey: V -> int)
    ensures SquaredTree([q1, q2], getKey) == Ok(Some(Pop(q1, getKey)))
  {
    assert CeilLog2(2) == 1;
    assert Leaves([q1, q2], 1, getKey) == [Pop(q1, getKey)];
  }

  /** With five queues the squared count is 9, and the first round reads past the end. */
  lemma SquaredFailsOnFiveQueues<V>(queues: seq<seq<V>>, getKey: V -> int)
    requires |queues| == 5
    ensures SquaredTree(queues, getKey) == Err(UndefinedKey)
  {
    assert CeilLog2(5) == 3 by {
      assert CeilLog2(2) == 1;
      assert CeilLog2(3) == 2;
    }
  }

  /** Where c * c == 2^c (c = 2 or 4, that is 3 <= k <= 4 or 9 <= k <= 16) the two builders agree. */
  lemma SquaredAgrees<V>(queues: seq<seq<V>>, getKey: V -> int)
    requires |queues| >= 1 && (CeilLog2(|queues|) == 2 || CeilLog2(|queues|) == 4)
    ensures SquaredTree(queues, getKey) == Ok(InitialTree(queues, getKey))
  {
    var k := |queues|;
    var c := CeilLog2(k);
    assert Pow2(2) == 4;
    assert Pow2(4) == 16;
    assert SquaredLeafCount(k) == LeafCount(k) by {
      if c == 2 {
        assert c * c == 4;
      } else {
        assert c * c == 16;
      }
    }
    RoundsOnPowerOfTwo(Leaves(queues, LeafCount(k), getKey));
  }

  // ---------------------------------------------------------------------
  // The builders as the source writes them

  /** One round of the inner `while` loop (initialize.js:39-59 in both files). */
  method PairRound<V>(level: seq<Tree<V>>) returns (r: Result<seq<Tree<V>>>)
    ensures |level| % 2 == 0 ==> r == Ok(Pairs(level))
    ensures |level| % 2 == 1 ==> r == Err(UndefinedKey)
  {
    var nextLevel := [];
    var index := 0;
    while index < |level|
      invariant index % 2 == 0 && index <= |level|
      invariant |nextLevel| == index / 2
      invariant forall j :: 0 <= j < index / 2 ==> nextLevel[j] == Match(level[2 * j], level[2 * j + 1])
    {
      if index + 1 == |level| {
        return Err(UndefinedKey);
      }
      var parent1 := level[index];
      var parent2 := level[index + 1];
      var winner := if Below(parent1.key, parent2.key) then parent1 else parent2;
      nextLevel := nextLevel + [Internal(parent1, parent2, winner.key, winner.value)];
      index := index + 2;
    }
    assert nextLevel == Pairs(level);
    return Ok(nextLevel);
  }

  /** Rounds until at most one node is left, then `level[0]`. */
  method PlayRounds<V>(leaves: seq<Tree<V>>) returns (r: Result<Option<Tree<V>>>)
    ensures r == Rounds(leaves)
  {
    var level := leaves;
    while |level| > 1
      invariant Rounds(level) == Rounds(leaves)
      decreases |level|
    {
      var nextLevel :- PairRound(level);
      level := nextLevel;
    }
    return Ok(if |level| == 0 then None else Some(level[0]));
  }

  /** time-series/tournament-tree/initialize.js */
  method Initialize<V>(queues: seq<seq<V>>, getKey: V -> int) returns (root: Option<Tree<V>>)
    ensures root == InitialTree(queues, getKey)
  {
    var leafNodes := [];
    var index := 0;
    var numLeafNodes := LeafCount(|queues|);
    while index < numLeafNodes
      invariant index <= numLeafNodes
      invariant leafNodes == Leaves(queues, index, getKey)
    {
      if index < |queues| {
        var queue := queues[index];
        if |queue| > 0 {
          leafNodes := leafNodes + [Leaf(queue[1..], Finite(getKey(queue[0])), Some(queue[0]))];
        } else {
          leafNodes := leafNodes + [Leaf([], Infinity, None)];
        }
      } else {
        leafNodes := leafNodes + [Leaf([], Infinity, None)];
      }
      index := index + 1;
    }
    var r := PlayRounds(leafNodes);
    if |queues| == 0 {
      root := None;
    } else {
      RoundsOnPowerOfTwo(leafNodes);
      root := r.value;
    }
  }

  /** time-series/merge/tournament-tree/initialize.js: every queue that gets a leaf
      is destructured without a check, and with no queues the leaf loop never ends. */
  method InitializeSquared<V>(queues: seq<seq<V>>, getKey: V -> int) returns (root: Result<Option<Tree<V>>>)
    requires |queues| >= 1
    requires forall i :: 0 <= i < |queues| && i < SquaredLeafCount(|queues|) ==> |queues[i]| > 0
    ensures root == SquaredTree(queues, getKey)
  {
    var leafNodes := [];
    var index := 0;
    var numLeafNodes := SquaredLeafCount(|queues|);
    while index < numLeafNodes
      invariant index <= numLeafNodes
      invariant leafNodes == Leaves(queues, index, getKey)
    {
      if index < |queues| {
        var queue := queues[index];
        leafNodes := leafNodes + [Leaf(queue[1..], Finite(getKey(queue[0])), Some(queue[0]))];
      } else {
        leafNodes := leafNodes + [Leaf([], Infinity, None)];
      }
      index := index + 1;
    }
    root := PlayRounds(leafNodes);
  }
}
