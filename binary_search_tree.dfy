/** The persistent binary search tree of binary-search-tree/index.js.
    Every operation returns a new tree and rebuilds the search path; subtrees
    off that path are reused as they are. A node carries an integer key, its
    two subtrees and a payload `P` standing for the node's other fields. */
module BinarySearchTree {
  import opened Wrappers

  datatype Tree<P> = Nil | Node(key: int, payload: P, left: Tree<P>, right: Tree<P>)

  // ---------------------------------------------------------------------
  // Abstract views of a tree

  /** The keys in in-order (left subtree, node, right subtree). */
  function Keys<P>(t: Tree<P>): seq<int> {
    match t
    case Nil => []
    case Node(k, _, l, r) => Keys(l) + [k] + Keys(r)
  }

  /** The key-payload pairs in in-order. */
  function Items<P>(t: Tree<P>): seq<(int, P)> {
    match t
    case Nil => []
    case Node(k, p, l, r) => Items(l) + [(k, p)] + Items(r)
  }

  function KeySet<P>(t: Tree<P>): set<int> {
    match t
    case Nil => {}
    case Node(k, _, l, r) => KeySet(l) + {k} + KeySet(r)
  }

  /** The ordering invariant: every key on the left is smaller than the
      node's key, every key on the right is greater. */
  predicate IsBst<P>(t: Tree<P>) {
    match t
    case Nil => true
    case Node(k, _, l, r) =>
      && IsBst(l) && IsBst(r)
      && (forall j :: j in KeySet(l) ==> j < k)
      && (forall j :: j in KeySet(r) ==> k < j)
  }

  predicate StrictlyAscending(s: seq<int>) {
    forall i, j :: 0 <= i < j < |s| ==> s[i] < s[j]
  }

  predicate IsLeaf<P>(t: Tree<P>) {
    t.Node? && t.left.Nil? && t.right.Nil?
  }

  lemma {:induction false} ItemsHaveKeys<P>(t: Tree<P>)
    ensures |Items(t)| == |Keys(t)|
    ensures forall i :: 0 <= i < |Keys(t)| ==> Items(t)[i].0 == Keys(t)[i]
  {
    if t.Node? {
      ItemsHaveKeys(t.left);
      ItemsHaveKeys(t.right);
    }
  }

  lemma {:induction false} KeysCoverKeySet<P>(t: Tree<P>)
    ensures forall j :: j in Keys(t) <==> j in KeySet(t)
  {
    if t.Node? {
      KeysCoverKeySet(t.left);
      KeysCoverKeySet(t.right);
    }
  }

  lemma AscendingSplit(a: seq<int>, k: int, b: seq<int>)
    ensures StrictlyAscending(a + [k] + b) <==>
      && StrictlyAscending(a) && StrictlyAscending(b)
      && (forall x :: x in a ==> x < k)
      && (forall y :: y in b ==> k < y)
  {
    var s := a + [k] + b;
    if StrictlyAscending(s) {
      forall i, j | 0 <= i < j < |a| ensures a[i] < a[j] {
        assert s[i] == a[i] && s[j] == a[j];
      }
      forall i, j | 0 <= i < j < |b| ensures b[i] < b[j] {
        assert s[|a| + 1 + i] == b[i] && s[|a| + 1 + j] == b[j];
      }
      forall x | x in a ensures x < k {
        var i :| 0 <= i < |a| && a[i] == x;
        assert s[i] == x && s[|a|] == k;
      }
      forall y | y in b ensures k < y {
        var i :| 0 <= i < |b| && b[i] == y;
        assert s[|a| + 1 + i] == y && s[|a|] == k;
      }
    }
    if && StrictlyAscending(a) && StrictlyAscending(b)
       && (forall x :: x in a ==> x < k)
       && (forall y :: y in b ==> k < y)
    {
      forall i, j | 0 <= i < j < |s| ensures s[i] < s[j] {
        if j < |a| {
          assert s[i] == a[i] && s[j] == a[j];
        } else if i < |a| {
          assert s[i] == a[i] && a[i] in a;
          if j > |a| { assert s[j] == b[j - |a| - 1] && s[j] in b; }
        } else if i == |a| {
          assert s[j] == b[j - |a| - 1] && s[j] in b;
        } else {
          assert s[i] == b[i - |a| - 1] && s[j] == b[j - |a| - 1];
        }
      }
    }
  }

  /** A tree is a search tree exactly when its in-order keys are strictly
      ascending. */
  lemma {:induction false} BstIffAscending<P>(t: Tree<P>)
    ensures IsBst(t) <==> StrictlyAscending(Keys(t))
  {
    if t.Node? {
      BstIffAscending(t.left);
      BstIffAscending(t.right);
      KeysCoverKeySet(t.left);
      KeysCoverKeySet(t.right);
      AscendingSplit(Keys(t.left), t.key, Keys(t.right));
    }
  }

  /** Two trees with the same in-order keys are search trees alike and hold
      the same keys. */
  lemma SameKeysSameShape<P, Q>(s: Tree<P>, t: Tree<Q>)
    requires Keys(s) == Keys(t)
    ensures IsBst(s) <==> IsBst(t)
    ensures KeySet(s) == KeySet(t)
  {
    BstIffAscending(s);
    BstIffAscending(t);
    KeysCoverKeySet(s);
    KeysCoverKeySet(t);
    assert KeySet(s) == KeySet(t) by {
      forall j ensures j in KeySet(s) <==> j in KeySet(t) {
        assert j in Keys(s) <==> j in Keys(t);
      }
    }
  }

  // ---------------------------------------------------------------------
  // entries and traces (binary-search-tree/index.js:9-37), as sequences

  /** The nodes of the tree in in-order; the i-th node holds the i-th item. */
  function Entries<P>(t: Tree<P>): (r: seq<Tree<P>>)
    ensures |r| == |Items(t)|
    ensures forall i :: 0 <= i < |r| ==> r[i].Node? && (r[i].key, r[i].payload) == Items(t)[i]
  {
    match t
    case Nil => []
    case Node(_, _, l, rt) => Entries(l) + [t] + Entries(rt)
  }

  /** On a search tree the nodes come out in strictly ascending key order. */
  lemma EntriesAscending<P>(t: Tree<P>)
    requires IsBst(t)
    ensures forall i, j :: 0 <= i < j < |Entries(t)| ==> Entries(t)[i].key < Entries(t)[j].key
  {
    BstIffAscending(t);
    ItemsHaveKeys(t);
  }

  function Prefixed<P>(n: Tree<P>, ts: seq<seq<Tree<P>>>): (r: seq<seq<Tree<P>>>)
    ensures |r| == |ts|
    ensures forall i :: 0 <= i < |ts| ==> r[i] == [n] + ts[i]
  {
    seq(|ts|, i requires 0 <= i < |ts| => [n] + ts[i])
  }

  /** Every path from the root down to a node that has no children; a node
      with one child contributes no path of its own. */
  function Traces<P>(t: Tree<P>): seq<seq<Tree<P>>> {
    match t
    case Nil => []
    case Node(_, _, l, r) =>
      if l.Nil? && r.Nil? then [[t]]
      else Prefixed(t, Traces(l)) + Prefixed(t, Traces(r))
  }

  /** `p` runs from the root `t` through child links and stops at a node
      without children. */
  ghost predicate IsTrace<P>(t: Tree<P>, p: seq<Tree<P>>) {
    && |p| > 0 && p[0] == t
    && (forall i :: 0 <= i < |p| ==> p[i].Node?)
    && (forall i :: 0 < i < |p| ==> ChildOf(p[i], p[i - 1]))
    && IsLeaf(p[|p| - 1])
  }

  ghost predicate ChildOf<P>(c: Tree<P>, n: Tree<P>) {
    n.Node? && (c == n.left || c == n.right)
  }

  lemma IsTraceStep<P>(t: Tree<P>, p: seq<Tree<P>>)
    requires t.Node? && |p| > 0
    ensures IsTrace(t, [t] + p) <==> ChildOf(p[0], t) && IsTrace(p[0], p)
  {
    var q := [t] + p;
    if IsTrace(t, q) {
      forall i | 0 <= i < |p| ensures p[i].Node? {
        assert q[i + 1] == p[i];
      }
      forall i | 0 < i < |p| ensures ChildOf(p[i], p[i - 1]) {
        assert q[i + 1] == p[i] && q[i] == p[i - 1];
      }
      assert q[1] == p[0];
      assert q[|q| - 1] == p[|p| - 1];
    }
    if ChildOf(p[0], t) && IsTrace(p[0], p) {
      forall i | 0 <= i < |q| ensures q[i].Node? {
        if i > 0 { assert q[i] == p[i - 1]; }
      }
      forall i | 0 < i < |q| ensures ChildOf(q[i], q[i - 1]) {
        if i > 1 { assert q[i] == p[i - 1] && q[i - 1] == p[i - 2]; }
      }
      assert q[|q| - 1] == p[|p| - 1];
    }
  }

  lemma {:induction false} TracesNonEmpty<P>(t: Tree<P>)
    ensures forall i :: 0 <= i < |Traces(t)| ==> |Traces(t)[i]| > 0
  {
    if t.Node? {
      TracesNonEmpty(t.left);
      TracesNonEmpty(t.right);
    }
  }

  /** A prefixed path starts with the node and goes on with a listed path. */
  lemma InPrefixed<P>(n: Tree<P>, ts: seq<seq<Tree<P>>>, p: seq<Tree<P>>)
    ensures p in Prefixed(n, ts) <==> |p| > 0 && p[0] == n && p[1..] in ts
  {
    if p in Prefixed(n, ts) {
      var i :| 0 <= i < |ts| && Prefixed(n, ts)[i] == p;
      assert p[1..] == ts[i];
    }
    if |p| > 0 && p[0] == n && p[1..] in ts {
      var i :| 0 <= i < |ts| && ts[i] == p[1..];
      assert p == [n] + p[1..];
      assert Prefixed(n, ts)[i] == p;
    }
  }

  /** `traces` lists exactly the root-to-childless-node paths. */
  lemma {:induction false} TracesArePaths<P>(t: Tree<P>, p: seq<Tree<P>>)
    ensures p in Traces(t) <==> IsTrace(t, p)
    decreases t
  {
    if t.Node? {
      TracesSplit(t);
      InPrefixed(t, Traces(t.left), p);
      InPrefixed(t, Traces(t.right), p);
      if |p| <= 1 {
        ShortTrace(t, p);
      } else {
        TracesArePaths(t.left, p[1..]);
        TracesArePaths(t.right, p[1..]);
        LongTrace(t, p);
      }
    }
  }

  /** The traces of a node: its own path when it has no children, then
      those through its left and its right child. */
  lemma TracesSplit<P>(t: Tree<P>)
    requires t.Node?
    ensures Traces(t) == (if IsLeaf(t) then [[t]] else []) + Prefixed(t, Traces(t.left)) + Prefixed(t, Traces(t.right))
  {
    if !IsLeaf(t) {
      assert Traces(t) == Prefixed(t, Traces(t.left)) + Prefixed(t, Traces(t.right));
    }
  }

  lemma ShortTrace<P>(t: Tree<P>, p: seq<Tree<P>>)
    requires t.Node? && |p| <= 1
    ensures p !in Prefixed(t, Traces(t.left)) && p !in Prefixed(t, Traces(t.right))
    ensures IsTrace(t, p) <==> p == [t] && IsLeaf(t)
  {
    TracesNonEmpty(t.left);
    TracesNonEmpty(t.right);
    InPrefixed(t, Traces(t.left), p);
    InPrefixed(t, Traces(t.right), p);
  }

  lemma LongTrace<P>(t: Tree<P>, p: seq<Tree<P>>)
    requires t.Node? && |p| > 1
    requires p[1..] in Traces(t.left) <==> IsTrace(t.left, p[1..])
    requires p[1..] in Traces(t.right) <==> IsTrace(t.right, p[1..])
    ensures IsTrace(t, p) <==> p[0] == t && (p[1..] in Traces(t.left) || p[1..] in Traces(t.right))
  {
    if p[0] == t {
      assert p == [t] + p[1..];
      IsTraceStep(t, p[1..]);
    }
  }

  /** The childless nodes, in in-order. */
  function Childless<P>(s: seq<Tree<P>>): seq<Tree<P>> {
    if s == [] then []
    else (if IsLeaf(s[0]) then [s[0]] else []) + Childless(s[1..])
  }

  lemma {:induction false} ChildlessConcat<P>(a: seq<Tree<P>>, b: seq<Tree<P>>)
    ensures Childless(a + b) == Childless(a) + Childless(b)
  {
    if a == [] {
      assert a + b == b;
    } else {
      var c := a + b;
      assert c[0] == a[0];
      assert c[1..] == a[1..] + b;
      ChildlessConcat(a[1..], b);
      var h := if IsLeaf(a[0]) then [a[0]] else [];
      assert Childless(c) == h + Childless(a[1..] + b);
      assert Childless(a) == h + Childless(a[1..]);
      assert h + (Childless(a[1..]) + Childless(b)) == (h + Childless(a[1..])) + Childless(b);
    }
  }

  function LastOf<P>(p: seq<Tree<P>>): Tree<P> {
    if p == [] then Nil else p[|p| - 1]
  }

  /** The end node of each path. */
  function Lasts<P>(ts: seq<seq<Tree<P>>>): (r: seq<Tree<P>>)
    ensures |r| == |ts| && forall i :: 0 <= i < |ts| ==> r[i] == LastOf(ts[i])
  {
    seq(|ts|, i requires 0 <= i < |ts| => LastOf(ts[i]))
  }

  lemma LastsPrefixed<P>(n: Tree<P>, ts: seq<seq<Tree<P>>>)
    requires forall i :: 0 <= i < |ts| ==> |ts[i]| > 0
    ensures Lasts(Prefixed(n, ts)) == Lasts(ts)
  {
    forall i | 0 <= i < |ts| ensures LastOf([n] + ts[i]) == LastOf(ts[i]) {
      assert ([n] + ts[i])[|ts[i]|] == ts[i][|ts[i]| - 1];
    }
  }

  /** The traces come in left-to-right order: their end nodes are the
      childless nodes in in-order. */
  lemma {:induction false} TracesLeftToRight<P>(t: Tree<P>)
    ensures Lasts(Traces(t)) == Childless(Entries(t))
    decreases t
  {
    if t.Node? {
      var l, r := t.left, t.right;
      TracesLeftToRight(l);
      TracesLeftToRight(r);
      if IsLeaf(t) {
        assert Traces(t) == [[t]];
        assert Entries(t) == [t];
        assert Childless([t]) == [t] by { assert [t][1..] == []; }
      } else {
        NonLeafTraces(t);
      }
    }
  }

  lemma NonLeafTraces<P>(t: Tree<P>)
    requires t.Node? && !IsLeaf(t)
    requires Lasts(Traces(t.left)) == Childless(Entries(t.left))
    requires Lasts(Traces(t.right)) == Childless(Entries(t.right))
    ensures Lasts(Traces(t)) == Childless(Entries(t))
  {
    NonLeafLasts(t);
    NonLeafChildless(t);
  }

  lemma NonLeafLasts<P>(t: Tree<P>)
    requires t.Node? && !IsLeaf(t)
    ensures Lasts(Traces(t)) == Lasts(Traces(t.left)) + Lasts(Traces(t.right))
  {
    var l, r := t.left, t.right;
    TracesNonEmpty(l);
    TracesNonEmpty(r);
    var pl, pr := Prefixed(t, Traces(l)), Prefixed(t, Traces(r));
    assert Traces(t) == pl + pr;
    LastsPrefixed(t, Traces(l));
    LastsPrefixed(t, Traces(r));
    assert Lasts(pl + pr) == Lasts(pl) + Lasts(pr);
  }

  lemma NonLeafChildless<P>(t: Tree<P>)
    requires t.Node? && !IsLeaf(t)
    ensures Childless(Entries(t)) == Childless(Entries(t.left)) + Childless(Entries(t.right))
  {
    assert Entries(t) == Entries(t.left) + [t] + Entries(t.right);
    ChildlessSkip(Entries(t.left), t, Entries(t.right));
  }

  lemma ChildlessSkip<P>(a: seq<Tree<P>>, n: Tree<P>, b: seq<Tree<P>>)
    requires !IsLeaf(n)
    ensures Childless(a + [n] + b) == Childless(a) + Childless(b)
  {
    var an := a + [n];
    ChildlessConcat(a, [n]);
    assert Childless([n]) == [] by { assert [n][1..] == []; }
    assert Childless(an) == Childless(a) + [];
    ChildlessConcat(an, b);
  }

  // ---------------------------------------------------------------------
  // get, set, remove, first (binary-search-tree/index.js:39-82)

  /** The node holding `key`, or `Nil` (the source's `null`). */
  function Get<P>(t: Tree<P>, key: int): (r: Tree<P>)
    ensures r.Node? ==> r.key == key && r in Entries(t)
    ensures IsBst(t) ==> (r.Node? <==> key in KeySet(t))
  {
    match t
    case Nil => Nil
    case Node(k, _, l, rt) =>
      if key == k then t
      else if key < k then Get(l, key)
      else Get(rt, key)
  }

  /** The payload stored under `key`, if any. */
  function Lookup<P>(t: Tree<P>, key: int): Option<P> {
    var n := Get(t, key);
    if n.Node? then Some(n.payload) else None
  }

  lemma {:induction false} ItemsInKeySet<P>(t: Tree<P>, key: int, p: P)
    ensures (key, p) in Items(t) ==> key in KeySet(t)
  {
    if t.Node? {
      ItemsInKeySet(t.left, key, p);
      ItemsInKeySet(t.right, key, p);
    }
  }

  /** On a search tree, `get` finds exactly the pairs of the in-order view. */
  lemma {:induction false} LookupItems<P>(t: Tree<P>, key: int, p: P)
    requires IsBst(t)
    ensures Lookup(t, key) == Some(p) <==> (key, p) in Items(t)
  {
    match t
    case Nil =>
    case Node(k, _, l, rt) =>
      LookupItems(l, key, p);
      LookupItems(rt, key, p);
      ItemsInKeySet(l, key, p);
      ItemsInKeySet(rt, key, p);
  }

  /** Two trees with the same in-order items answer every lookup alike, and
      one is a search tree when the other is. */
  lemma SameItemsSameLookup<P>(s: Tree<P>, t: Tree<P>)
    requires IsBst(s) && Items(s) == Items(t)
    ensures IsBst(t) && KeySet(s) == KeySet(t)
    ensures forall key :: Lookup(s, key) == Lookup(t, key)
  {
    ItemsHaveKeys(s);
    ItemsHaveKeys(t);
    assert Keys(s) == Keys(t);
    SameKeysSameShape(s, t);
    forall key ensures Lookup(s, key) == Lookup(t, key) {
      if Lookup(s, key).Some? {
        LookupItems(s, key, Lookup(s, key).value);
        LookupItems(t, key, Lookup(s, key).value);
      } else if Lookup(t, key).Some? {
        LookupItems(s, key, Lookup(t, key).value);
        LookupItems(t, key, Lookup(t, key).value);
      }
    }
  }

  /** The merge of a subclass whose payload is one value: the given value
      replaces the old one. */
  function Overwrite<P>(previous: P, given: P): P { given }

  /** `merge(old, values)` is the object spread `{...old, ...values}` of the
      payload fields. */
  function Set<P>(t: Tree<P>, key: int, values: P, merge: (P, P) -> P): (r: Tree<P>)
    ensures r.Node?
    ensures KeySet(r) == KeySet(t) + {key}
    ensures IsBst(t) ==> IsBst(r)
  {
    match t
    case Nil => Node(key, values, Nil, Nil)
    case Node(k, p, l, rt) =>
      if key == k then Node(k, merge(p, values), l, rt)
      else if key < k then Node(k, p, Set(l, key, values, merge), rt)
      else Node(k, p, l, Set(rt, key, values, merge))
  }

  /** Setting an existing key keeps that node's children and merges only its
      payload; on a search tree a new key lands in a fresh childless node. */
  lemma {:induction false} SetNode<P>(t: Tree<P>, key: int, values: P, merge: (P, P) -> P)
    ensures var n := Get(t, key);
      n.Node? ==> Get(Set(t, key, values, merge), key) == Node(key, merge(n.payload, values), n.left, n.right)
    ensures IsBst(t) && key !in KeySet(t) ==> Get(Set(t, key, values, merge), key) == Node(key, values, Nil, Nil)
  {
    match t
    case Nil =>
    case Node(k, _, l, rt) =>
      if key < k {
        SetNode(l, key, values, merge);
      } else if key > k {
        SetNode(rt, key, values, merge);
      }
  }

  /** Map semantics of `set` on a search tree. */
  lemma {:induction false} SetLookup<P>(t: Tree<P>, key: int, values: P, merge: (P, P) -> P, other: int)
    requires IsBst(t)
    ensures Lookup(Set(t, key, values, merge), key) ==
      Some(if Lookup(t, key).Some? then merge(Lookup(t, key).value, values) else values)
    ensures other != key ==> Lookup(Set(t, key, values, merge), other) == Lookup(t, other)
  {
    SetNode(t, key, values, merge);
    if other != key {
      SetOther(t, key, values, merge, other);
    }
  }

  lemma {:induction false} SetOther<P>(t: Tree<P>, key: int, values: P, merge: (P, P) -> P, other: int)
    requires IsBst(t) && other != key
    ensures Get(Set(t, key, values, merge), other).Node? == Get(t, other).Node?
    ensures Get(t, other).Node? ==> Get(Set(t, key, values, merge), other).payload == Get(t, other).payload
  {
    match t
    case Nil =>
    case Node(k, _, l, rt) =>
      if key < k {
        SetOther(l, key, values, merge, other);
      } else if key > k {
        SetOther(rt, key, values, merge, other);
      }
  }

  /** The leftmost node; on a search tree it holds the least key. */
  function First<P>(t: Tree<P>): (r: Tree<P>)
    ensures t.Nil? ==> r.Nil?
    ensures t.Node? ==> r.Node? && r.left.Nil? && r == Entries(t)[0]
    ensures t.Node? ==> r.key in KeySet(t)
    ensures t.Node? && IsBst(t) ==> forall j :: j in KeySet(t) ==> r.key <= j
  {
    if t.Node? && t.left.Node? then First(t.left) else t
  }

  function Remove<P>(t: Tree<P>, key: int): (r: Tree<P>)
    ensures key !in KeySet(t) ==> r == t
    ensures IsBst(t) ==> IsBst(r) && KeySet(r) == KeySet(t) - {key}
  {
    match t
    case Nil => Nil
    case Node(k, p, l, rt) =>
      if key == k then
        if l.Node? && rt.Node? then
          var next := First(rt);
          Node(next.key, next.payload, l, Remove(rt, next.key))
        else if l.Node? then l
        else rt
      else if key < k then Node(k, p, Remove(l, key), rt)
      else Node(k, p, l, Remove(rt, key))
  }

  /** A node with two children is replaced by the least node of its right
      subtree, which leaves the right subtree. */
  lemma RemoveTwoChildren<P>(t: Tree<P>)
    requires IsBst(t) && t.Node? && t.left.Node? && t.right.Node?
    ensures var r := Remove(t, t.key);
      && r.Node? && r.left == t.left
      && r.key in KeySet(t.right) && r.key !in KeySet(r.right)
      && (forall j :: j in KeySet(t.right) ==> r.key <= j)
  {
    var next := First(t.right);
    assert Remove(t, t.key) == Node(next.key, next.payload, t.left, Remove(t.right, next.key));
  }

  /** Map semantics of `remove` on a search tree. */
  lemma {:induction false} RemoveLookup<P>(t: Tree<P>, key: int, other: int)
    requires IsBst(t) && other != key
    ensures Lookup(Remove(t, key), key) == None
    ensures Lookup(Remove(t, key), other) == Lookup(t, other)
  {
    match t
    case Nil =>
    case Node(k, _, l, rt) =>
      if key == k {
        if l.Node? && rt.Node? {
          var next := First(rt);
          if other == next.key {
            GetFirst(rt);
          } else if other > k {
            RemoveLookup(rt, next.key, other);
          }
        }
      } else if key < k {
        RemoveLookup(l, key, other);
      } else {
        RemoveLookup(rt, key, other);
      }
  }

  /** Looking up the key of the first node finds that node. */
  lemma {:induction false} GetFirst<P>(t: Tree<P>)
    requires IsBst(t) && t.Node?
    ensures Get(t, First(t).key) == First(t)
  {
    if t.left.Node? {
      GetFirst(t.left);
    }
  }

  // ---------------------------------------------------------------------
  // Rotations (binary-search-tree/index.js:84-100)

  function RotateRight<P>(t: Tree<P>): (r: Result<Tree<P>>)
    ensures r.Ok? <==> t.Node? && t.left.Node?
    ensures r.Ok? ==> Items(r.value) == Items(t) && Keys(r.value) == Keys(t)
    ensures r.Ok? ==> r.value.Node? && r.value.right.Node?
  {
    if t.Nil? || t.left.Nil? then Err("Can only right rotate a tree with a left child")
    else Ok(Node(t.left.key, t.left.payload, t.left.left, Node(t.key, t.payload, t.left.right, t.right)))
  }

  function RotateLeft<P>(t: Tree<P>): (r: Result<Tree<P>>)
    ensures r.Ok? <==> t.Node? && t.right.Node?
    ensures r.Ok? ==> Items(r.value) == Items(t) && Keys(r.value) == Keys(t)
    ensures r.Ok? ==> r.value.Node? && r.value.left.Node?
  {
    if t.Nil? || t.right.Nil? then Err("Can only left rotate a tree with a right child")
    else Ok(Node(t.right.key, t.right.payload, Node(t.key, t.payload, t.left, t.right.left), t.right.right))
  }

  /** Each rotation undoes the other. */
  lemma RotationsInverse<P>(t: Tree<P>)
    ensures RotateLeft(t).Ok? ==> RotateRight(RotateLeft(t).value) == Ok(t)
    ensures RotateRight(t).Ok? ==> RotateLeft(RotateRight(t).value) == Ok(t)
  {
  }

  /** A rotation keeps the search-tree property and the key set. */
  lemma RotationKeepsOrder<P>(t: Tree<P>)
    ensures RotateLeft(t).Ok? ==> (IsBst(RotateLeft(t).value) <==> IsBst(t)) && KeySet(RotateLeft(t).value) == KeySet(t)
    ensures RotateRight(t).Ok? ==> (IsBst(RotateRight(t).value) <==> IsBst(t)) && KeySet(RotateRight(t).value) == KeySet(t)
  {
    if RotateLeft(t).Ok? { SameKeysSameShape(RotateLeft(t).value, t); }
    if RotateRight(t).Ok? { SameKeysSameShape(RotateRight(t).value, t); }
  }
}
