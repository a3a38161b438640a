/** The tournament tree of the k-way merge
    (time-series/merge/tournament-tree/tournament-tree.js and next.js).
    Every leaf holds the head of one queue; every internal node holds a copy
    of the key and value of the child that wins the match between its two
    children, so the root holds the smallest item still waiting. */
module TournamentTree {
  import opened Wrappers

  /** A JavaScript number key that may be `Infinity`, the key of an exhausted leaf. */
  datatype Key = Finite(n: int) | Infinity

  /** JavaScript `<` on such keys: nothing is below `Infinity`-or-less except a finite key. */
  predicate Below(a: Key, b: Key) {
    a.Finite? && (b.Infinity? || a.n < b.n)
  }

  /** `{queue, key, value}` or `{parent1, parent2, key, value}`; `value: None` is `null`. */
  datatype Tree<V> =
    | Leaf(queue: seq<V>, key: Key, value: Option<V>)
    | Internal(parent1: Tree<V>, parent2: Tree<V>, key: Key, value: Option<V>)

  /** `{queue: [], key: Infinity, value: null}` */
  function Exhausted<V>(): Tree<V> {
    Leaf([], Infinity, None)
  }

  /** The items a subtree still holds, left to right: each leaf's value, then its queue. */
  function Contents<V>(t: Tree<V>): seq<V> {
    match t
    case Leaf(queue, _, value) => (if value.Some? then [value.value] else []) + queue
    case Internal(p1, p2, _, _) => Contents(p1) + Contents(p2)
  }

  predicate SortedBy<V>(s: seq<V>, getKey: V -> int) {
    forall i, j :: 0 <= i < j < |s| ==> getKey(s[i]) <= getKey(s[j])
  }

  lemma SortedSuffix<V>(s: seq<V>, k: nat, getKey: V -> int)
    requires k <= |s| && SortedBy(s, getKey)
    ensures SortedBy(s[k..], getKey)
  {
    forall i, j | 0 <= i < j < |s| - k
      ensures getKey(s[k..][i]) <= getKey(s[k..][j])
    {
      assert s[k..][i] == s[i + k] && s[k..][j] == s[j + k];
    }
  }

  /** Every leaf holds its value and its queue in ascending key order. */
  predicate Ordered<V>(t: Tree<V>, getKey: V -> int) {
    match t
    case Leaf(_, _, _) => SortedBy(Contents(t), getKey)
    case Internal(p1, p2, _, _) => Ordered(p1, getKey) && Ordered(p2, getKey)
  }

  /** The tree with its keys, values and queues taken away. */
  datatype Shape = Tip | Fork(left: Shape, right: Shape)

  function ShapeOf<V>(t: Tree<V>): Shape {
    match t
    case Leaf(_, _, _) => Tip
    case Internal(p1, p2, _, _) => Fork(ShapeOf(p1), ShapeOf(p2))
  }

  // ---------------------------------------------------------------------
  // Leaves and matches

  /** The leaf made from a queue: its head becomes the value, unless the
      queue is empty (next.js:8-22, time-series/tournament-tree/initialize.js:13-27). */
  function Pop<V>(queue: seq<V>, getKey: V -> int): (r: Tree<V>)
    ensures r.Leaf? && Contents(r) == queue
    ensures Valid(r, getKey)
    ensures SortedBy(queue, getKey) ==> Ordered(r, getKey)
  {
    if |queue| > 0 then
      assert [queue[0]] + queue[1..] == queue;
      Leaf(queue[1..], Finite(getKey(queue[0])), Some(queue[0]))
    else
      Exhausted()
  }

  /** `parent1.key < parent2.key ? parent1 : parent2` */
  function Winner<V>(p1: Tree<V>, p2: Tree<V>): (w: Tree<V>)
    ensures w == p1 || w == p2
    ensures !Below(p1.key, w.key) && !Below(p2.key, w.key)
    ensures !Below(p1.key, p2.key) ==> w == p2
  {
    if Below(p1.key, p2.key) then p1 else p2
  }

  /** The internal node over two children, carrying the winner's key and value. */
  function Match<V>(p1: Tree<V>, p2: Tree<V>): Tree<V> {
    var w := Winner(p1, p2);
    Internal(p1, p2, w.key, w.value)
  }

  /** A leaf's key is the key of its value (`Infinity` and an empty queue when
      it has none); an internal node is the match of its children. */
  ghost predicate Valid<V>(t: Tree<V>, getKey: V -> int) {
    match t
    case Leaf(queue, key, value) =>
      (value.None? ==> key == Infinity && queue == []) &&
      (value.Some? ==> key == Finite(getKey(value.value)))
    case Internal(p1, p2, _, _) =>
      Valid(p1, getKey) && Valid(p2, getKey) && t == Match(p1, p2)
  }

  // ---------------------------------------------------------------------
  // next

  /** next.js as written: every child whose key equals the node's key is advanced. */
  function NextAsWritten<V>(t: Tree<V>, getKey: V -> int): (r: Tree<V>)
    ensures ShapeOf(r) == ShapeOf(t)
  {
    match t
    case Leaf(queue, _, _) => Pop(queue, getKey)
    case Internal(p1, p2, key, _) =>
      var q1 := if p1.key == key then NextAsWritten(p1, getKey) else p1;
      var q2 := if p2.key == key then NextAsWritten(p2, getKey) else p2;
      Match(q1, q2)
  }

  /** next, advancing only the child whose value the node copied: the one the
      match rule picks, so that items with equal keys are taken one at a time. */
  function Next<V>(t: Tree<V>, getKey: V -> int): (r: Tree<V>)
    ensures ShapeOf(r) == ShapeOf(t)
  {
    match t
    case Leaf(queue, _, _) => Pop(queue, getKey)
    case Internal(p1, p2, _, _) =>
      if Below(p1.key, p2.key) then Match(Next(p1, getKey), p2)
      else Match(p1, Next(p2, getKey))
  }

  // ---------------------------------------------------------------------
  // What the root holds

  /** The root has no value exactly when its key is `Infinity` and nothing is left;
      otherwise its key is the key of its value. */
  lemma {:induction false} ValidRoot<V>(t: Tree<V>, getKey: V -> int)
    requires Valid(t, getKey)
    ensures t.value.None? <==> t.key == Infinity
    ensures t.value.None? <==> Contents(t) == []
    ensures t.value.Some? ==> t.key == Finite(getKey(t.value.value))
  {
    if t.Internal? {
      ValidRoot(t.parent1, getKey);
      ValidRoot(t.parent2, getKey);
    }
  }

  /** The root's value is one of the items left, and no item left has a smaller key. */
  lemma {:induction false} RootIsMinimum<V>(t: Tree<V>, getKey: V -> int)
    requires Valid(t, getKey) && Ordered(t, getKey) && t.value.Some?
    ensures t.value.value in Contents(t)
    ensures forall x :: x in Contents(t) ==> getKey(t.value.value) <= getKey(x)
  {
    match t
    case Leaf(queue, _, value) =>
      assert Contents(t)[0] == value.value;
      forall x | x in Contents(t)
        ensures getKey(value.value) <= getKey(x)
      {
        var i :| 0 <= i < |Contents(t)| && Contents(t)[i] == x;
        if i > 0 {
          assert getKey(Contents(t)[0]) <= getKey(Contents(t)[i]);
        }
      }
    case Internal(p1, p2, _, _) =>
      ValidRoot(p1, getKey);
      ValidRoot(p2, getKey);
      var v := t.value.value;
      if Below(p1.key, p2.key) {
        RootIsMinimum(p1, getKey);
        if p2.value.Some? {
          RootIsMinimum(p2, getKey);
        }
      } else {
        RootIsMinimum(p2, getKey);
        if p1.value.Some? {
          RootIsMinimum(p1, getKey);
        }
      }
  }

  // ---------------------------------------------------------------------
  // What next keeps

  lemma {:induction false} NextKeepsValid<V>(t: Tree<V>, getKey: V -> int)
    requires Valid(t, getKey)
    ensures Valid(Next(t, getKey), getKey)
  {
    if t.Internal? {
      if Below(t.parent1.key, t.parent2.key) {
        NextKeepsValid(t.parent1, getKey);
      } else {
        NextKeepsValid(t.parent2, getKey);
      }
    }
  }

  lemma {:induction false} NextKeepsOrdered<V>(t: Tree<V>, getKey: V -> int)
    requires Ordered(t, getKey)
    ensures Ordered(Next(t, getKey), getKey)
  {
    match t
    case Leaf(queue, _, value) =>
      var k := if value.Some? then 1 else 0;
      assert queue == Contents(t)[k..];
      SortedSuffix(Contents(t), k, getKey);
    case Internal(p1, p2, _, _) =>
      if Below(p1.key, p2.key) {
        NextKeepsOrdered(p1, getKey);
      } else {
        NextKeepsOrdered(p2, getKey);
      }
  }

  /** next takes exactly the root's value out of the tree and nothing else. */
  lemma {:induction false} NextTakesRoot<V>(t: Tree<V>, getKey: V -> int)
    requires Valid(t, getKey) && t.value.Some?
    ensures multiset(Contents(Next(t, getKey))) + multiset{t.value.value} == multiset(Contents(t))
  {
    match t
    case Leaf(queue, _, value) =>
      assert Contents(t) == [value.value] + queue;
    case Internal(p1, p2, _, _) =>
      if Below(p1.key, p2.key) {
        NextTakesRoot(p1, getKey);
      } else {
        NextTakesRoot(p2, getKey);
      }
  }

  /** On an exhausted subtree both versions of next change nothing. */
  lemma {:induction false} ExhaustedFixed<V>(t: Tree<V>, getKey: V -> int)
    requires Valid(t, getKey) && t.key == Infinity
    ensures NextAsWritten(t, getKey) == t && Next(t, getKey) == t
  {
    if t.Internal? {
      assert !Below(t.parent1.key, t.parent2.key);
      ExhaustedFixed(t.parent1, getKey);
      ExhaustedFixed(t.parent2, getKey);
    }
  }

  // ---------------------------------------------------------------------
  // next.js as written against the corrected next

  /** No match is between two equal finite keys. */
  predicate NoTies<V>(t: Tree<V>) {
    match t
    case Leaf(_, _, _) => true
    case Internal(p1, p2, _, _) =>
      (p1.key == p2.key ==> p1.key == Infinity) && NoTies(p1) && NoTies(p2)
  }

  /** Without ties the source's next and the corrected one agree. */
  lemma {:induction false} NextAsWrittenAgrees<V>(t: Tree<V>, getKey: V -> int)
    requires Valid(t, getKey) && NoTies(t)
    ensures NextAsWritten(t, getKey) == Next(t, getKey)
  {
    match t
    case Leaf(_, _, _) =>
    case Internal(p1, p2, _, _) =>
      if Below(p1.key, p2.key) {
        NextAsWrittenAgrees(p1, getKey);
      } else {
        NextAsWrittenAgrees(p2, getKey);
        if p1.key == p2.key {
          ExhaustedFixed(p1, getKey);
        }
      }
  }

  function Identity(x: int): int {
    x
  }

  /** Two queues whose heads have the same key: the source's next advances both
      leaves, so one of the two items is dropped without ever reaching the root. */
  lemma TieDropsAnItem()
    ensures var t := Match(Pop([1], Identity), Pop([1], Identity));
      && Valid(t, Identity) && t.value == Some(1) && Contents(t) == [1, 1]
      && Contents(NextAsWritten(t, Identity)) == []
      && Contents(Next(t, Identity)) == [1]
  {
  }
}
