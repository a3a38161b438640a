/** The persistent red-black tree of red-black-tree/index.js, built on the
    persistent search tree: a node's payload is its colour plus the caller's
    fields. Insertion is repaired by `Rebalance` on the way out of the
    recursion; deletion moves black weight around with the transient colours
    `+black` and `-black`. Every exception of the source is an `Err`. */
module RedBlackTree {
  import opened Wrappers
  import opened BinarySearchTree
  import opened Colors

  datatype Colored<V> = Colored(color: Color, value: V)

  type RbTree<V> = Tree<Colored<V>>

  // ---------------------------------------------------------------------
  // Views of a coloured tree

  /** The in-order keys with the caller's fields, colours left out. */
  function Contents<V>(t: RbTree<V>): seq<(int, V)> {
    match t
    case Nil => []
    case Node(k, p, l, r) => Contents(l) + [(k, p.value)] + Contents(r)
  }

  /** The same tree without colours. */
  function Strip<V>(t: RbTree<V>): (r: Tree<V>)
    ensures Items(r) == Contents(t) && Keys(r) == Keys(t)
  {
    match t
    case Nil => Nil
    case Node(k, p, l, rt) => Node(k, p.value, Strip(l), Strip(rt))
  }

  predicate HasColor<V>(t: RbTree<V>, c: Color) {
    t.Node? && t.payload.color == c
  }

  /** `{ ...tree, color }` */
  function WithColor<V>(t: RbTree<V>, c: Color): (r: RbTree<V>)
    requires t.Node?
    ensures r.Node? && r.payload.color == c && r.left == t.left && r.right == t.right
    ensures Contents(r) == Contents(t) && Keys(r) == Keys(t)
  {
    Node(t.key, Colored(c, t.payload.value), t.left, t.right)
  }

  /** `tree && { ...tree, color: 'red' }` (red-black-tree/index.js:143-145) */
  function Redden<V>(t: RbTree<V>): (r: RbTree<V>)
    ensures t.Nil? ==> r.Nil?
    ensures t.Node? ==> r == WithColor(t, Red)
  {
    if t.Nil? then Nil else WithColor(t, Red)
  }

  /** `tree && { ...tree, color: 'black' }` (red-black-tree/index.js:147-149) */
  function Blacken<V>(t: RbTree<V>): (r: RbTree<V>)
    ensures t.Nil? ==> r.Nil?
    ensures t.Node? ==> r == WithColor(t, Black)
  {
    if t.Nil? then Nil else WithColor(t, Black)
  }

  /** `tree && { ...tree, color: subtractBlack(tree.color) }` */
  function SubtractAt<V>(t: RbTree<V>): (r: Result<RbTree<V>>)
    ensures r.Ok? <==> !HasColor(t, NegativeBlack)
    ensures r.Ok? && t.Nil? ==> r.value.Nil?
    ensures r.Ok? && t.Node? ==> r.value == WithColor(t, SubtractBlack(t.payload.color).value)
  {
    if t.Nil? then Ok(Nil)
    else
      var c :- SubtractBlack(t.payload.color);
      Ok(WithColor(t, c))
  }

  /** The rotations of the search tree keep the contents of a coloured tree. */
  lemma RotationContents<V>(t: RbTree<V>)
    ensures RotateLeft(t).Ok? ==> Contents(RotateLeft(t).value) == Contents(t)
    ensures RotateRight(t).Ok? ==> Contents(RotateRight(t).value) == Contents(t)
  {
    if RotateLeft(t).Ok? {
      var x, y := t.right, RotateLeft(t).value;
      calc {
        Contents(y);
        Contents(Node(t.key, t.payload, t.left, x.left)) + [(x.key, x.payload.value)] + Contents(x.right);
        Contents(t.left) + [(t.key, t.payload.value)] + (Contents(x.left) + [(x.key, x.payload.value)] + Contents(x.right));
      }
    }
    if RotateRight(t).Ok? {
      var x, y := t.left, RotateRight(t).value;
      calc {
        Contents(y);
        Contents(x.left) + [(x.key, x.payload.value)] + Contents(Node(t.key, t.payload, x.right, t.right));
        (Contents(x.left) + [(x.key, x.payload.value)] + Contents(x.right)) + [(t.key, t.payload.value)] + Contents(t.right);
      }
    }
  }

  // ---------------------------------------------------------------------
  // rebalance (red-black-tree/index.js:151-240)

  /** Lines 158-167: the `-black` left child is rotated left and the node
      right; the new left child turns black over a red left child, and the
      new right child turns black. */
  function RotateAwayLeft<V>(t: RbTree<V>): (r: Result<RbTree<V>>)
    requires t.Node? && t.left.Node?
    ensures r.Ok? ==> r.value.Node? && r.value.left.Node?
    ensures r.Ok? ==> Contents(r.value) == Contents(t) && Keys(r.value) == Keys(t)
  {
    var a :- RotateLeft(t.left);
    var b :- RotateRight(Node(t.key, t.payload, a, t.right));
    var l := b.left;
    RotationContents(t.left);
    RotationContents(Node(t.key, t.payload, a, t.right));
    assert Keys(b) == Keys(Node(t.key, t.payload, a, t.right)) == Keys(t);
    assert Contents(b) == Contents(Node(t.key, t.payload, a, t.right)) == Contents(t);
    assert Contents(Redden(l.left)) == Contents(l.left) && Keys(Redden(l.left)) == Keys(l.left);
    assert Contents(Blacken(b.right)) == Contents(b.right) && Keys(Blacken(b.right)) == Keys(b.right);
    Ok(Node(b.key, b.payload, Node(l.key, Colored(Black, l.payload.value), Redden(l.left), l.right), Blacken(b.right)))
  }

  /** Lines 168-177, the mirror image of `RotateAwayLeft`. */
  function RotateAwayRight<V>(t: RbTree<V>): (r: Result<RbTree<V>>)
    requires t.Node? && t.right.Node?
    ensures r.Ok? ==> r.value.Node? && r.value.right.Node?
    ensures r.Ok? ==> Contents(r.value) == Contents(t) && Keys(r.value) == Keys(t)
  {
    var a :- RotateRight(t.right);
    var b :- RotateLeft(Node(t.key, t.payload, t.left, a));
    var rt := b.right;
    RotationContents(t.right);
    RotationContents(Node(t.key, t.payload, t.left, a));
    assert Keys(b) == Keys(Node(t.key, t.payload, t.left, a)) == Keys(t);
    assert Contents(b) == Contents(Node(t.key, t.payload, t.left, a)) == Contents(t);
    assert Contents(Redden(rt.right)) == Contents(rt.right) && Keys(Redden(rt.right)) == Keys(rt.right);
    assert Contents(Blacken(b.left)) == Contents(b.left) && Keys(Blacken(b.left)) == Keys(b.left);
    Ok(Node(b.key, b.payload, Blacken(b.left), Node(rt.key, Colored(Black, rt.payload.value), rt.left, Redden(rt.right))))
  }

  /** Lines 157-179: a `+black` node (or the root) with a `-black` child is
      double-rotated away from that child; the rotated side is rebalanced
      again. Lines 181-239 follow in `FixReds`. */
  function Rebalance<V>(t: RbTree<V>, isRoot: bool): (r: Result<RbTree<V>>)
    requires t.Node?
    ensures r.Ok? ==> r.value.Node? && Contents(r.value) == Contents(t) && Keys(r.value) == Keys(t)
    decreases |Keys(t)|, 1
  {
    if (t.payload.color == DoubleBlack || isRoot) && HasColor(t.left, NegativeBlack) then
      var m :- RotateAwayLeft(t);
      assert |Keys(m.left)| < |Keys(m)|;
      var newLeft :- Rebalance(m.left, false);
      FixReds(Node(m.key, m.payload, newLeft, m.right), isRoot)
    else if (t.payload.color == DoubleBlack || isRoot) && HasColor(t.right, NegativeBlack) then
      var m :- RotateAwayRight(t);
      assert |Keys(m.right)| < |Keys(m)|;
      var newRight :- Rebalance(m.right, false);
      FixReds(Node(m.key, m.payload, m.left, newRight), isRoot)
    else
      FixReds(t, isRoot)
  }

  /** Lines 181-239, at a black or `+black` node: two red children are
      blackened and the node turns red (black at the root); otherwise a red
      child with a red child is rotated up. */
  function FixReds<V>(t: RbTree<V>, isRoot: bool): (r: Result<RbTree<V>>)
    requires t.Node?
    ensures r.Ok? ==> r.value.Node? && Contents(r.value) == Contents(t) && Keys(r.value) == Keys(t)
  {
    var c := t.payload.color;
    if c != Black && c != DoubleBlack then Ok(t)
    else if HasColor(t.left, Red) && HasColor(t.right, Red) then Ok(Flip(t, isRoot))
    else if HasColor(t.left, Red) then FixLeft(t, isRoot)
    else FixRight(t, isRoot)
  }

  /** Lines 182-194. */
  function Flip<V>(t: RbTree<V>, isRoot: bool): (r: RbTree<V>)
    requires t.Node? && t.left.Node? && t.right.Node?
    ensures r.Node? && r.key == t.key && r.payload.value == t.payload.value
    ensures r.payload.color == (if isRoot then Black else Red)
    ensures r.left == WithColor(t.left, Black) && r.right == WithColor(t.right, Black)
    ensures Contents(r) == Contents(t) && Keys(r) == Keys(t)
  {
    Node(t.key, Colored(if isRoot then Black else Red, t.payload.value), Blacken(t.left), Blacken(t.right))
  }

  /** Lines 196-215: a red left child whose right child is red is first
      rotated left; a red left-left grandchild is then rotated up. When
      nothing is rotated up, the right-hand case of lines 217-236 is tried. */
  function FixLeft<V>(t: RbTree<V>, isRoot: bool): (r: Result<RbTree<V>>)
    requires t.Node? && HasColor(t.left, Red)
    ensures r.Ok? ==> r.value.Node? && Contents(r.value) == Contents(t) && Keys(r.value) == Keys(t)
  {
    RotationContents(t.left);
    var u := if HasColor(t.left.right, Red) then Node(t.key, t.payload, RotateLeft(t.left).value, t.right) else t;
    if HasColor(u.left.left, Red) then PromoteLeft(u, isRoot) else FixRight(u, isRoot)
  }

  /** Lines 217-236, the mirror image of `FixLeft`. */
  function FixRight<V>(t: RbTree<V>, isRoot: bool): (r: Result<RbTree<V>>)
    requires t.Node?
    ensures r.Ok? ==> r.value.Node? && Contents(r.value) == Contents(t) && Keys(r.value) == Keys(t)
  {
    if !HasColor(t.left, Red) && HasColor(t.right, Red) then
      RotationContents(t.right);
      var u := if HasColor(t.right.left, Red) then Node(t.key, t.payload, t.left, RotateRight(t.right).value) else t;
      if HasColor(u.right.right, Red) then PromoteRight(u, isRoot) else Ok(u)
    else Ok(t)
  }

  /** Lines 205-213: rotate right; the new top takes one black less than the
      old top (black at the root) and both its children turn black. */
  function PromoteLeft<V>(t: RbTree<V>, isRoot: bool): (r: Result<RbTree<V>>)
    requires t.Node? && t.left.Node?
    ensures r.Ok? <==> Demote(t.payload.color, isRoot).Ok?
    ensures r.Ok? ==> var l := t.left;
      r.value == Node(l.key, Colored(Demote(t.payload.color, isRoot).value, l.payload.value),
                      Blacken(l.left), WithColor(Node(t.key, t.payload, l.right, t.right), Black))
    ensures r.Ok? ==> Contents(r.value) == Contents(t) && Keys(r.value) == Keys(t)
  {
    var color :- Demote(t.payload.color, isRoot);
    RotationContents(t);
    var w := RotateRight(t).value;
    Ok(Node(w.key, Colored(color, w.payload.value), Blacken(w.left), Blacken(w.right)))
  }

  /** Lines 226-234, the mirror image of `PromoteLeft`. */
  function PromoteRight<V>(t: RbTree<V>, isRoot: bool): (r: Result<RbTree<V>>)
    requires t.Node? && t.right.Node?
    ensures r.Ok? <==> Demote(t.payload.color, isRoot).Ok?
    ensures r.Ok? ==> var rt := t.right;
      r.value == Node(rt.key, Colored(Demote(t.payload.color, isRoot).value, rt.payload.value),
                      WithColor(Node(t.key, t.payload, t.left, rt.left), Black), Blacken(rt.right))
    ensures r.Ok? ==> Contents(r.value) == Contents(t) && Keys(r.value) == Keys(t)
  {
    var color :- Demote(t.payload.color, isRoot);
    RotationContents(t);
    var w := RotateLeft(t).value;
    Ok(Node(w.key, Colored(color, w.payload.value), Blacken(w.left), Blacken(w.right)))
  }

  // ---------------------------------------------------------------------
  // set (red-black-tree/index.js:14-39)

  /** A new node is black at the root and red elsewhere; an existing key keeps
      its colour and children and merges in the fields. */
  function Set<V>(t: RbTree<V>, key: int, value: V, merge: (V, V) -> V, isRoot: bool): (r: Result<RbTree<V>>)
    ensures r.Ok? ==> r.value.Node?
    ensures t.Nil? ==> r == Ok(Node(key, Colored(if isRoot then Black else Red, value), Nil, Nil))
    ensures t.Node? && key == t.key ==>
      r == Ok(Node(t.key, Colored(t.payload.color, merge(t.payload.value, value)), t.left, t.right))
    decreases t
  {
    match t
    case Nil => Ok(Node(key, Colored(if isRoot then Black else Red, value), Nil, Nil))
    case Node(k, p, l, rt) =>
      if key == k then Ok(Node(k, Colored(p.color, merge(p.value, value)), l, rt))
      else if key < k then
        var l' :- Set(l, key, value, merge, false);
        Rebalance(Node(k, p, l', rt), isRoot)
      else
        var r' :- Set(rt, key, value, merge, false);
        Rebalance(Node(k, p, l, r'), isRoot)
  }

  // ---------------------------------------------------------------------
  // remove (red-black-tree/index.js:41-141)

  function Remove<V>(t: RbTree<V>, key: int, isRoot: bool): (r: Result<RbTree<V>>)
    ensures t.Nil? || (key == t.key && IsLeaf(t)) ==> r == Ok(Nil)
    ensures r.Ok? && r.value.Nil? ==> t.Nil? || (key == t.key && IsLeaf(t))
    decreases t
  {
    if t.Nil? then Ok(Nil)
    else if key == t.key && IsLeaf(t) then Ok(Nil)
    else
      var t1 :- RemoveStep(t, key, isRoot);
      var t2 :- if HasColor(t1.left, DoubleBlack) || HasColor(t1.right, DoubleBlack) then
          var c :- Absorb(t1.payload.color, isRoot);
          var l :- SubtractAt(t1.left);
          var r :- SubtractAt(t1.right);
          Ok(Node(t1.key, Colored(c, t1.payload.value), l, r))
        else Ok(t1);
      Rebalance(t2, isRoot)
  }

  /** Lines 52-118: the node of `key` is replaced, or the removal goes one
      level down; removing a black childless child moves a black onto the
      parent (`addBlack`) and takes one off the sibling (`subtractBlack`). */
  function RemoveStep<V>(t: RbTree<V>, key: int, isRoot: bool): (r: Result<RbTree<V>>)
    requires t.Node? && !(key == t.key && IsLeaf(t))
    ensures r.Ok? ==> r.value.Node?
    ensures key == t.key && (t.left.Nil? || t.right.Nil?) ==>
      r == Ok(WithColor(if t.left.Node? then t.left else t.right, t.payload.color))
    decreases t, 0
  {
    var p := t.payload;
    if key == t.key then
      if t.left.Node? && t.right.Node? then
        var next := First(t.right);
        // first(tree.right) is tree.right itself exactly when it has no left child
        var shouldRecolor := IsLeaf(t.right);
        var color :- if shouldRecolor then Absorb(p.color, isRoot) else Ok(p.color);
        var left :- if shouldRecolor then SubtractAt(t.left) else Ok(t.left);
        var right :- Remove(t.right, next.key, false);
        Ok(Node(next.key, Colored(color, next.payload.value), left, right))
      else if t.left.Node? then Ok(WithColor(t.left, p.color))
      else Ok(WithColor(t.right, p.color))
    else if key < t.key then
      var shouldRecolor := t.left.Node? && key == t.left.key && t.left.payload.color == Black && IsLeaf(t.left);
      var color :- if shouldRecolor then Absorb(p.color, isRoot) else Ok(p.color);
      var left :- Remove(t.left, key, false);
      var right :- if shouldRecolor then SubtractAt(t.right) else Ok(t.right);
      Ok(Node(t.key, Colored(color, p.value), left, right))
    else
      var shouldRecolor := t.right.Node? && key == t.right.key && t.right.payload.color == Black && IsLeaf(t.right);
      var color :- if shouldRecolor then Absorb(p.color, isRoot) else Ok(p.color);
      var left :- if shouldRecolor then SubtractAt(t.left) else Ok(t.left);
      var right :- Remove(t.right, key, false);
      Ok(Node(t.key, Colored(color, p.value), left, right))
  }

  /** Lines 120-136: when the step leaves a `+black` child, the extra black
      moves up before the rebalance: the node takes `addBlack` (black at the
      root) and each child `subtractBlack`; a colour with no such step makes
      the removal fail. */
  lemma RemoveAbsorbs<V>(t: RbTree<V>, key: int, isRoot: bool)
    requires t.Node? && !(key == t.key && IsLeaf(t))
    requires RemoveStep(t, key, isRoot).Ok?
    requires HasColor(RemoveStep(t, key, isRoot).value.left, DoubleBlack)
          || HasColor(RemoveStep(t, key, isRoot).value.right, DoubleBlack)
    ensures var t1 := RemoveStep(t, key, isRoot).value;
      (isRoot || t1.payload.color != DoubleBlack) && !HasColor(t1.left, NegativeBlack) && !HasColor(t1.right, NegativeBlack) ==>
        Remove(t, key, isRoot) == Rebalance(Node(t1.key,
          Colored(if isRoot then Black else AddBlack(t1.payload.color).value, t1.payload.value),
          SubtractAt(t1.left).value, SubtractAt(t1.right).value), isRoot)
    ensures var t1 := RemoveStep(t, key, isRoot).value;
      !(isRoot || t1.payload.color != DoubleBlack) || HasColor(t1.left, NegativeBlack) || HasColor(t1.right, NegativeBlack) ==>
        Remove(t, key, isRoot).Err?
  {
  }

  // ---------------------------------------------------------------------
  // The red-black operations store what the plain search tree stores

  lemma {:induction false} StripFirst<V>(t: RbTree<V>)
    ensures Strip(First(t)) == First(Strip(t))
  {
    if t.Node? && t.left.Node? {
      StripFirst(t.left);
    }
  }

  /** `set` leaves the same in-order contents as the plain search tree's
      `set`, whatever rebalancing it does. */
  lemma {:induction false} SetMatchesBst<V>(t: RbTree<V>, key: int, value: V, merge: (V, V) -> V, isRoot: bool)
    ensures var r := Set(t, key, value, merge, isRoot);
      r.Ok? ==> Contents(r.value) == Items(BinarySearchTree.Set(Strip(t), key, value, merge))
  {
    match t
    case Nil =>
    case Node(k, p, l, rt) =>
      if key < k {
        SetMatchesBst(l, key, value, merge, false);
      } else if key > k {
        SetMatchesBst(rt, key, value, merge, false);
      }
  }

  /** Likewise for `remove`. */
  lemma {:induction false} RemoveMatchesBst<V>(t: RbTree<V>, key: int, isRoot: bool)
    ensures var r := Remove(t, key, isRoot);
      r.Ok? ==> Contents(r.value) == Items(BinarySearchTree.Remove(Strip(t), key))
    decreases t
  {
    if t.Nil? || (key == t.key && IsLeaf(t)) {
    } else {
      var t1 := RemoveStep(t, key, isRoot);
      if t1.Ok? {
        RemoveStepMatchesBst(t, key, isRoot);
        var u := t1.value;
        if HasColor(u.left, DoubleBlack) || HasColor(u.right, DoubleBlack) {
          var c, l, r := Absorb(u.payload.color, isRoot), SubtractAt(u.left), SubtractAt(u.right);
          if c.Ok? && l.Ok? && r.Ok? {
            var t2 := Node(u.key, Colored(c.value, u.payload.value), l.value, r.value);
            assert Contents(l.value) == Contents(u.left) && Contents(r.value) == Contents(u.right);
            assert Remove(t, key, isRoot) == Rebalance(t2, isRoot);
          }
        } else {
          assert Remove(t, key, isRoot) == Rebalance(u, isRoot);
        }
      }
    }
  }

  lemma {:induction false} RemoveStepMatchesBst<V>(t: RbTree<V>, key: int, isRoot: bool)
    requires t.Node? && !(key == t.key && IsLeaf(t))
    ensures var r := RemoveStep(t, key, isRoot);
      r.Ok? ==> Contents(r.value) == Items(BinarySearchTree.Remove(Strip(t), key))
    decreases t, 0
  {
    if key == t.key {
      if t.left.Node? && t.right.Node? {
        RemoveMatchesBst(t.right, First(t.right).key, false);
        SuccessorMatchesBst(t, isRoot);
      }
    } else if key < t.key {
      RemoveMatchesBst(t.left, key, false);
      LeftStepMatchesBst(t, key, isRoot);
    } else {
      RemoveMatchesBst(t.right, key, false);
      RightStepMatchesBst(t, key, isRoot);
    }
  }

  /** One level down on the left; recolouring the sibling keeps its contents. */
  lemma LeftStepMatchesBst<V>(t: RbTree<V>, key: int, isRoot: bool)
    requires t.Node? && key < t.key
    requires var r := Remove(t.left, key, false);
      r.Ok? ==> Contents(r.value) == Items(BinarySearchTree.Remove(Strip(t.left), key))
    ensures var r := RemoveStep(t, key, isRoot);
      r.Ok? ==> Contents(r.value) == Items(BinarySearchTree.Remove(Strip(t), key))
  {
    var right := SubtractAt(t.right);
    assert right.Ok? ==> Contents(right.value) == Contents(t.right);
  }

  lemma RightStepMatchesBst<V>(t: RbTree<V>, key: int, isRoot: bool)
    requires t.Node? && key > t.key
    requires var r := Remove(t.right, key, false);
      r.Ok? ==> Contents(r.value) == Items(BinarySearchTree.Remove(Strip(t.right), key))
    ensures var r := RemoveStep(t, key, isRoot);
      r.Ok? ==> Contents(r.value) == Items(BinarySearchTree.Remove(Strip(t), key))
  {
    var left := SubtractAt(t.left);
    assert left.Ok? ==> Contents(left.value) == Contents(t.left);
  }

  /** A node with two children takes the first node of its right subtree,
      in both trees. */
  lemma SuccessorMatchesBst<V>(t: RbTree<V>, isRoot: bool)
    requires t.Node? && t.left.Node? && t.right.Node?
    requires var r := Remove(t.right, First(t.right).key, false);
      r.Ok? ==> Contents(r.value) == Items(BinarySearchTree.Remove(Strip(t.right), First(t.right).key))
    ensures var r := RemoveStep(t, t.key, isRoot);
      r.Ok? ==> Contents(r.value) == Items(BinarySearchTree.Remove(Strip(t), t.key))
  {
    var next := First(t.right);
    StripFirst(t.right);
    assert BinarySearchTree.Remove(Strip(t), t.key)
      == Node(next.key, next.payload.value, Strip(t.left), BinarySearchTree.Remove(Strip(t.right), next.key));
  }

  /** Map semantics of `set`, carried over from the plain search tree. */
  lemma SetLookup<V>(t: RbTree<V>, key: int, value: V, merge: (V, V) -> V, isRoot: bool, other: int)
    requires IsBst(t)
    ensures var r := Set(t, key, value, merge, isRoot);
      r.Ok? ==>
        && IsBst(r.value) && KeySet(r.value) == KeySet(t) + {key}
        && Lookup(Strip(r.value), key) ==
             Some(if Lookup(Strip(t), key).Some? then merge(Lookup(Strip(t), key).value, value) else value)
        && (other != key ==> Lookup(Strip(r.value), other) == Lookup(Strip(t), other))
  {
    var r := Set(t, key, value, merge, isRoot);
    if r.Ok? {
      SameKeysSameShape(t, Strip(t));
      var b := BinarySearchTree.Set(Strip(t), key, value, merge);
      SetMatchesBst(t, key, value, merge, isRoot);
      SameItemsSameLookup(b, Strip(r.value));
      SameKeysSameShape(r.value, Strip(r.value));
      BinarySearchTree.SetLookup(Strip(t), key, value, merge, other);
    }
  }

  /** Map semantics of `remove`, carried over from the plain search tree. */
  lemma RemoveLookup<V>(t: RbTree<V>, key: int, isRoot: bool, other: int)
    requires IsBst(t)
    ensures var r := Remove(t, key, isRoot);
      r.Ok? ==>
        && IsBst(r.value) && KeySet(r.value) == KeySet(t) - {key}
        && Lookup(Strip(r.value), key) == None
        && (other != key ==> Lookup(Strip(r.value), other) == Lookup(Strip(t), other))
  {
    var r := Remove(t, key, isRoot);
    if r.Ok? {
      SameKeysSameShape(t, Strip(t));
      var b := BinarySearchTree.Remove(Strip(t), key);
      RemoveMatchesBst(t, key, isRoot);
      SameItemsSameLookup(b, Strip(r.value));
      SameKeysSameShape(r.value, Strip(r.value));
      if other != key {
        BinarySearchTree.RemoveLookup(Strip(t), key, other);
      } else if Lookup(b, key).Some? {
        BinarySearchTree.RemoveLookup(Strip(t), key, key + 1);
      }
    }
  }

  // ---------------------------------------------------------------------
  // The red-black invariants

  /** Every node is red or black; `+black` and `-black` never reach callers. */
  predicate Legal<V>(t: RbTree<V>) {
    t.Nil? || ((t.payload.color == Red || t.payload.color == Black) && Legal(t.left) && Legal(t.right))
  }

  /** The black weight along the leftmost path. */
  function BlackHeight<V>(t: RbTree<V>): int {
    if t.Nil? then 0 else BlackHeight(t.left) + Weight(t.payload.color)
  }

  /** Every path from a node down to a missing child carries the same black
      weight. */
  predicate Balanced<V>(t: RbTree<V>) {
    t.Nil? || (Balanced(t.left) && Balanced(t.right) && BlackHeight(t.left) == BlackHeight(t.right))
  }

  /** No red node has a red child. */
  predicate NoRedRed<V>(t: RbTree<V>) {
    t.Nil? ||
      (&& NoRedRed(t.left) && NoRedRed(t.right)
       && (t.payload.color == Red ==> !HasColor(t.left, Red) && !HasColor(t.right, Red)))
  }

  /** The red-red rule holds below the top node. */
  predicate ChildrenNoRedRed<V>(t: RbTree<V>) {
    t.Nil? || (NoRedRed(t.left) && NoRedRed(t.right))
  }

  /** What the tests check after every `set` and `remove`. */
  predicate IsRedBlack<V>(t: RbTree<V>) {
    Legal(t) && Balanced(t) && NoRedRed(t) && !HasColor(t, Red)
  }

  /** A subtree fit to be the child of a black node after an insertion below
      it: legal colours, balanced, red-red free below its top. */
  predicate Inserted<V>(t: RbTree<V>) {
    Legal(t) && Balanced(t) && ChildrenNoRedRed(t) && (!HasColor(t, Red) ==> NoRedRed(t))
  }

  /** What rebalancing a black node after an insertion promises: no
      `-black`, legal colours, balance, no red-red, and the same black height
      unless the node is the root, which stays black. */
  predicate Repaired<V>(t: RbTree<V>, r: Result<RbTree<V>>, isRoot: bool) {
    && r.Ok? && r.value.Node? && Legal(r.value) && Balanced(r.value) && NoRedRed(r.value)
    && (isRoot ==> r.value.payload.color == Black)
    && (!isRoot ==> BlackHeight(r.value) == BlackHeight(t))
  }

  lemma PromoteLeftRepairs<V>(t: RbTree<V>, isRoot: bool)
    requires t.Node? && t.payload.color == Black && Legal(t) && Balanced(t)
    requires HasColor(t.left, Red) && HasColor(t.left.left, Red)
    requires ChildrenNoRedRed(t.left.left) && NoRedRed(t.left.right) && NoRedRed(t.right)
    ensures Repaired(t, PromoteLeft(t, isRoot), isRoot)
  {
    var l := t.left;
    var a := WithColor(l.left, Black);
    var b := WithColor(Node(t.key, t.payload, l.right, t.right), Black);
    assert Legal(l) && Legal(l.left) && Balanced(l) && Balanced(l.left);
    assert Legal(a) && Balanced(a) && NoRedRed(a);
    assert Legal(b) && Balanced(b) && NoRedRed(b);
    assert BlackHeight(a) == BlackHeight(l.left.left) + 1 == BlackHeight(b);
  }

  lemma PromoteRightRepairs<V>(t: RbTree<V>, isRoot: bool)
    requires t.Node? && t.payload.color == Black && Legal(t) && Balanced(t)
    requires HasColor(t.right, Red) && HasColor(t.right.right, Red)
    requires ChildrenNoRedRed(t.right.right) && NoRedRed(t.right.left) && NoRedRed(t.left)
    ensures Repaired(t, PromoteRight(t, isRoot), isRoot)
  {
    var rt := t.right;
    var a := WithColor(Node(t.key, t.payload, t.left, rt.left), Black);
    var b := WithColor(rt.right, Black);
    assert Legal(rt) && Legal(rt.right) && Balanced(rt) && Balanced(rt.right);
    assert Legal(a) && Balanced(a) && NoRedRed(a);
    assert Legal(b) && Balanced(b) && NoRedRed(b);
    assert BlackHeight(a) == BlackHeight(t.left) + 1 == BlackHeight(b);
  }

  lemma FlipRepairs<V>(t: RbTree<V>, isRoot: bool)
    requires t.Node? && t.payload.color == Black && Legal(t) && Balanced(t)
    requires HasColor(t.left, Red) && HasColor(t.right, Red)
    requires ChildrenNoRedRed(t.left) && ChildrenNoRedRed(t.right)
    ensures Repaired(t, Ok(Flip(t, isRoot)), isRoot)
  {
    var r := Flip(t, isRoot);
    assert Legal(r.left) && Legal(r.right) && NoRedRed(r.left) && NoRedRed(r.right);
  }

  lemma FixLeftRepairs<V>(t: RbTree<V>, isRoot: bool)
    requires t.Node? && t.payload.color == Black && Legal(t) && Balanced(t)
    requires HasColor(t.left, Red) && !HasColor(t.right, Red)
    requires Inserted(t.left) && NoRedRed(t.right)
    ensures Repaired(t, FixLeft(t, isRoot), isRoot)
  {
    var l := t.left;
    assert Legal(l) && Balanced(l);
    if HasColor(l.right, Red) {
      var m := Node(l.key, l.payload, l.left, l.right.left);
      var u := Node(t.key, t.payload, Node(l.right.key, l.right.payload, m, l.right.right), t.right);
      assert RotateLeft(l).value == u.left;
      assert Legal(l.right) && Balanced(l.right) && NoRedRed(l.right);
      assert BlackHeight(l.left) == BlackHeight(l.right) == BlackHeight(l.right.left) == BlackHeight(l.right.right);
      assert Legal(m) && Balanced(m) && ChildrenNoRedRed(m);
      assert BlackHeight(u.left) == BlackHeight(m) == BlackHeight(l.left) == BlackHeight(l);
      assert Legal(u) && Balanced(u);
      PromoteLeftRepairs(u, isRoot);
    } else if HasColor(l.left, Red) {
      PromoteLeftRepairs(t, isRoot);
    }
  }

  lemma FixRightRepairs<V>(t: RbTree<V>, isRoot: bool)
    requires t.Node? && t.payload.color == Black && Legal(t) && Balanced(t)
    requires !HasColor(t.left, Red) && HasColor(t.right, Red)
    requires Inserted(t.right) && NoRedRed(t.left)
    ensures Repaired(t, FixRight(t, isRoot), isRoot)
  {
    var rt := t.right;
    assert Legal(rt) && Balanced(rt);
    if HasColor(rt.left, Red) {
      var m := Node(rt.key, rt.payload, rt.left.right, rt.right);
      var u := Node(t.key, t.payload, t.left, Node(rt.left.key, rt.left.payload, rt.left.left, m));
      assert RotateRight(rt).value == u.right;
      assert Legal(rt.left) && Balanced(rt.left) && NoRedRed(rt.left);
      assert BlackHeight(rt.right) == BlackHeight(rt.left) == BlackHeight(rt.left.left) == BlackHeight(rt.left.right);
      assert Legal(m) && Balanced(m) && ChildrenNoRedRed(m);
      assert BlackHeight(u.right) == BlackHeight(rt.left.left) == BlackHeight(rt);
      assert Legal(u) && Balanced(u);
      PromoteRightRepairs(u, isRoot);
    } else if HasColor(rt.right, Red) {
      PromoteRightRepairs(t, isRoot);
    }
  }

  /** Rebalancing a black node whose children come out of an insertion. */
  lemma FixRedsRepairs<V>(t: RbTree<V>, isRoot: bool)
    requires t.Node? && t.payload.color == Black && Legal(t) && Balanced(t)
    requires Inserted(t.left) && Inserted(t.right)
    ensures Repaired(t, FixReds(t, isRoot), isRoot)
  {
    if HasColor(t.left, Red) && HasColor(t.right, Red) {
      FlipRepairs(t, isRoot);
    } else if HasColor(t.left, Red) {
      FixLeftRepairs(t, isRoot);
    } else if HasColor(t.right, Red) {
      FixRightRepairs(t, isRoot);
    }
  }

  /** Below the root, `set` keeps the colours legal and the black height, and
      leaves a red-red pair at most at the top, never under a black node. */
  lemma {:induction false} SetInserted<V>(t: RbTree<V>, key: int, value: V, merge: (V, V) -> V)
    requires Legal(t) && Balanced(t) && NoRedRed(t)
    ensures var r := Set(t, key, value, merge, false);
      && r.Ok? && Inserted(r.value) && BlackHeight(r.value) == BlackHeight(t)
      && (!HasColor(t, Red) ==> NoRedRed(r.value))
  {
    match t
    case Nil =>
    case Node(k, p, l, rt) =>
      if key < k {
        SetInserted(l, key, value, merge);
        var n := Node(k, p, Set(l, key, value, merge, false).value, rt);
        if p.color == Black {
          FixRedsRepairs(n, false);
        }
      } else if key > k {
        SetInserted(rt, key, value, merge);
        var n := Node(k, p, l, Set(rt, key, value, merge, false).value);
        if p.color == Black {
          FixRedsRepairs(n, false);
        }
      }
  }

  /** `set` from the root keeps a red-black tree a red-black tree: the
      property the tests check after every insertion. */
  lemma SetKeepsRedBlack<V>(t: RbTree<V>, key: int, value: V, merge: (V, V) -> V)
    requires IsRedBlack(t)
    ensures var r := Set(t, key, value, merge, true);
      r.Ok? && IsRedBlack(r.value)
  {
    match t
    case Nil =>
    case Node(k, p, l, rt) =>
      if key < k {
        SetInserted(l, key, value, merge);
        assert NoRedRed(rt) && Inserted(rt);
        BlackTopRepaired(t, Node(k, p, Set(l, key, value, merge, false).value, rt));
      } else if key > k {
        SetInserted(rt, key, value, merge);
        assert NoRedRed(l) && Inserted(l);
        BlackTopRepaired(t, Node(k, p, l, Set(rt, key, value, merge, false).value));
      }
  }

  /** The root, black, with one child replaced by what `set` returned:
      `rebalance` comes down to `fixReds`, which repairs it. */
  lemma BlackTopRepaired<V>(t: RbTree<V>, n: RbTree<V>)
    requires IsRedBlack(t) && t.Node?
    requires n.Node? && n.key == t.key && n.payload == t.payload
    requires Inserted(n.left) && BlackHeight(n.left) == BlackHeight(t.left)
    requires Inserted(n.right) && BlackHeight(n.right) == BlackHeight(t.right)
    ensures Rebalance(n, true) == FixReds(n, true) && Repaired(n, FixReds(n, true), true)
  {
    assert t.payload.color == Black;
    assert Legal(n) && Balanced(n);
    FixRedsRepairs(n, true);
  }

  // ---------------------------------------------------------------------
  // The invariants as the tests state them, over `traces`
  // (red-black-tree/index.test.js:912-945)

  /** The number of black nodes along a path, with `+black` counting two
      and `-black` minus one. */
  function PathWeight<V>(p: seq<RbTree<V>>): int {
    if p == [] then 0
    else (if p[0].Node? then Weight(p[0].payload.color) else 0) + PathWeight(p[1..])
  }

  lemma {:induction false} PathWeightOfTrace<V>(t: RbTree<V>, p: seq<RbTree<V>>)
    requires Balanced(t) && IsTrace(t, p)
    ensures PathWeight(p) == BlackHeight(t)
    decreases |p|
  {
    if |p| > 1 {
      var q := p[1..];
      assert p == [t] + q;
      IsTraceStep(t, q);
      PathWeightOfTrace(q[0], q);
    }
  }

  lemma {:induction false} NoRedRedOnTrace<V>(t: RbTree<V>, p: seq<RbTree<V>>)
    requires NoRedRed(t) && IsTrace(t, p)
    ensures forall i :: 0 < i < |p| ==> !(HasColor(p[i - 1], Red) && HasColor(p[i], Red))
    decreases |p|
  {
    if |p| > 1 {
      var q := p[1..];
      assert p == [t] + q;
      IsTraceStep(t, q);
      NoRedRedOnTrace(q[0], q);
      forall i | 1 < i < |p| ensures !(HasColor(p[i - 1], Red) && HasColor(p[i], Red)) {
        assert p[i - 1] == q[i - 2] && p[i] == q[i - 1];
      }
    }
  }

  /** On a balanced tree every trace carries the same black weight, and
      without a red-red pair no trace has two reds in a row. */
  lemma TracesOfRedBlack<V>(t: RbTree<V>)
    requires Balanced(t) && NoRedRed(t)
    ensures forall p :: p in Traces(t) ==> PathWeight(p) == BlackHeight(t)
    ensures forall p, i :: p in Traces(t) && 0 < i < |p| ==> !(HasColor(p[i - 1], Red) && HasColor(p[i], Red))
  {
    forall p | p in Traces(t) ensures PathWeight(p) == BlackHeight(t) {
      TracesArePaths(t, p);
      PathWeightOfTrace(t, p);
    }
    forall p, i | p in Traces(t) && 0 < i < |p| ensures !(HasColor(p[i - 1], Red) && HasColor(p[i], Red)) {
      TracesArePaths(t, p);
      NoRedRedOnTrace(t, p);
    }
  }

  // ---------------------------------------------------------------------
  // The worked example of red-black-tree/index.test.js:861-890

  function Replace(previous: int, given: int): int { given }

  /** Inserts the keys in order into an empty tree, each key as its own value. */
  function InsertAll(t: RbTree<int>, keys: seq<int>): Result<RbTree<int>>
    decreases |keys|
  {
    if keys == [] then Ok(t)
    else
      var t' :- Set(t, keys[0], keys[0], Replace, true);
      InsertAll(t', keys[1..])
  }

  /** A node of the example, holding its key as its value. */
  function N(key: int, c: Color, l: RbTree<int>, r: RbTree<int>): RbTree<int> {
    Node(key, Colored(c, key), l, r)
  }

  /** The tree the seven insertions build. */
  function Seven(): RbTree<int> {
    N(7, Black, N(5, Black, N(4, Black, Nil, Nil), N(6, Black, Nil, Nil)),
      N(9, Black, N(8, Black, Nil, Nil), N(10, Black, Nil, Nil)))
  }

  /** A step of the example: inserting `key` into `t` gives `r`. */
  predicate InsertsTo(t: RbTree<int>, key: int, r: RbTree<int>) {
    Set(t, key, key, Replace, true) == Ok(r)
  }

  lemma {:induction false} InsertAllStep(t: RbTree<int>, keys: seq<int>, r: RbTree<int>)
    requires keys != [] && InsertsTo(t, keys[0], r)
    ensures InsertAll(t, keys) == InsertAll(r, keys[1..])
  {
  }

  lemma FirstInsertions()
    ensures InsertsTo(Nil, 7, N(7, Black, Nil, Nil))
    ensures InsertsTo(N(7, Black, Nil, Nil), 5, N(7, Black, N(5, Red, Nil, Nil), Nil))
  {
  }

  lemma ThirdInsertion()
    ensures InsertsTo(N(7, Black, N(5, Red, Nil, Nil), Nil), 9,
      N(7, Black, N(5, Black, Nil, Nil), N(9, Black, Nil, Nil)))
  {
  }

  lemma FourthInsertion()
    ensures InsertsTo(N(7, Black, N(5, Black, Nil, Nil), N(9, Black, Nil, Nil)), 4,
      N(7, Black, N(5, Black, N(4, Red, Nil, Nil), Nil), N(9, Black, Nil, Nil)))
  {
  }

  lemma FifthInsertion()
    ensures InsertsTo(N(7, Black, N(5, Black, N(4, Red, Nil, Nil), Nil), N(9, Black, Nil, Nil)), 6,
      N(7, Black, N(5, Red, N(4, Black, Nil, Nil), N(6, Black, Nil, Nil)), N(9, Black, Nil, Nil)))
  {
  }

  lemma SixthInsertion()
    ensures InsertsTo(N(7, Black, N(5, Red, N(4, Black, Nil, Nil), N(6, Black, Nil, Nil)), N(9, Black, Nil, Nil)), 8,
      N(7, Black, N(5, Red, N(4, Black, Nil, Nil), N(6, Black, Nil, Nil)), N(9, Black, N(8, Red, Nil, Nil), Nil)))
  {
  }

  lemma SeventhInsertion()
    ensures InsertsTo(N(7, Black, N(5, Red, N(4, Black, Nil, Nil), N(6, Black, Nil, Nil)), N(9, Black, N(8, Red, Nil, Nil), Nil)), 10,
      Seven())
  {
  }

  /** Lines 861-880: the seven insertions. */
  lemma InsertionScenario()
    ensures InsertAll(Nil, [7, 5, 9, 4, 6, 8, 10]) == Ok(Seven())
  {
    var keys := [7, 5, 9, 4, 6, 8, 10];
    var t1 := N(7, Black, Nil, Nil);
    var t2 := N(7, Black, N(5, Red, Nil, Nil), Nil);
    var t3 := N(7, Black, N(5, Black, Nil, Nil), N(9, Black, Nil, Nil));
    var t4 := N(7, Black, N(5, Black, N(4, Red, Nil, Nil), Nil), N(9, Black, Nil, Nil));
    var t5 := N(7, Black, N(5, Red, N(4, Black, Nil, Nil), N(6, Black, Nil, Nil)), N(9, Black, Nil, Nil));
    var t6 := N(7, Black, N(5, Red, N(4, Black, Nil, Nil), N(6, Black, Nil, Nil)), N(9, Black, N(8, Red, Nil, Nil), Nil));
    FirstInsertions();
    ThirdInsertion();
    FourthInsertion();
    FifthInsertion();
    SixthInsertion();
    SeventhInsertion();
    InsertAllStep(Nil, keys, t1);
    InsertAllStep(t1, keys[1..], t2);
    InsertAllStep(t2, keys[2..], t3);
    InsertAllStep(t3, keys[3..], t4);
    InsertAllStep(t4, keys[4..], t5);
    InsertAllStep(t5, keys[5..], t6);
    InsertAllStep(t6, keys[6..], Seven());
    assert keys[7..] == [];
  }

  /** Lines 882-890: removing 4 leaves a double black node that the
      rebalancing at the root resolves. */
  lemma RemoveScenario()
    ensures Remove(Seven(), 4, true) ==
      Ok(N(7, Black, N(5, Black, Nil, N(6, Red, Nil, Nil)),
           N(9, Red, N(8, Black, Nil, Nil), N(10, Black, Nil, Nil))))
  {
    var n5 := N(5, Black, N(4, Black, Nil, Nil), N(6, Black, Nil, Nil));
    var m5 := N(5, DoubleBlack, Nil, N(6, Red, Nil, Nil));
    assert Remove(N(4, Black, Nil, Nil), 4, false) == Ok(Nil);
    assert RemoveStep(n5, 4, false) == Ok(m5);
    assert Rebalance(m5, false) == Ok(m5);
    assert Remove(n5, 4, false) == Ok(m5);
    var n9 := N(9, Black, N(8, Black, Nil, Nil), N(10, Black, Nil, Nil));
    assert RemoveStep(Seven(), 4, true) == Ok(N(7, Black, m5, n9));
    var r := N(7, Black, N(5, Black, Nil, N(6, Red, Nil, Nil)), N(9, Red, N(8, Black, Nil, Nil), N(10, Black, Nil, Nil)));
    assert Rebalance(r, true) == Ok(r);
  }
}
