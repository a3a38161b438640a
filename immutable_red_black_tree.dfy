/** The immutable `RedBlackTree` class of lib/red-black-tree/index.js. Every
    instance carries its key, value, children, colour and an `isRoot` flag;
    nothing is changed after construction, so an instance is a datatype value
    and every method a function. `set` and `delete` first call the parent
    class (`super.set`, `super.delete`), which is not part of this model: it is
    taken to be the persistent search tree, rebuilding the node on the search
    path as a plain parent-class node and calling `set`/`delete` on the child,
    which dispatches back to this class. */
module ImmutableRedBlackTree {
  import opened Wrappers
  import opened Colors
  import Bst = BinarySearchTree
  import F = RedBlackTree

  /** An instance of `RedBlackTree`, or `null`. */
  datatype RbTree<V> = Nil | Rb(key: int, value: V, left: RbTree<V>, right: RbTree<V>, color: Color, isRoot: bool)

  /** A parent-class node that is not a `RedBlackTree`, as `super.set` and
      `super.delete` build them. */
  datatype Plain<V> = Plain(key: int, value: V, left: Base<V>, right: Base<V>)

  /** A value of the parent type: a `RedBlackTree` (or `null`), or a plain node. */
  datatype Base<V> = Instance(tree: RbTree<V>) | Bare(node: Plain<V>)

  /** The key-value pairs in in-order. */
  function Items<V>(t: RbTree<V>): seq<(int, V)> {
    if t.Nil? then [] else Items(t.left) + [(t.key, t.value)] + Items(t.right)
  }

  function Keys<V>(t: RbTree<V>): seq<int> {
    if t.Nil? then [] else Keys(t.left) + [t.key] + Keys(t.right)
  }

  function BaseItems<V>(b: Base<V>): seq<(int, V)> {
    match b
    case Instance(t) => Items(t)
    case Bare(Plain(k, v, l, r)) => BaseItems(l) + [(k, v)] + BaseItems(r)
  }

  /** The same tree as a plain persistent search tree. */
  function Strip<V>(t: RbTree<V>): (r: Bst.Tree<V>)
    ensures Bst.Items(r) == Items(t) && Bst.Keys(r) == Keys(t)
  {
    if t.Nil? then Bst.Nil else Bst.Node(t.key, t.value, Strip(t.left), Strip(t.right))
  }

  predicate HasColor<V>(t: RbTree<V>, c: Color) {
    t.Rb? && t.color == c
  }

  // ---------------------------------------------------------------------
  // The constructor (lib/red-black-tree/index.js:14-25)

  /** `new RedBlackTree(key, value)` with every default taken. */
  function New<V>(key: int, value: V): (r: RbTree<V>)
    ensures r.Rb? && r.key == key && r.value == value
    ensures r.left.Nil? && r.right.Nil? && r.color == Black && r.isRoot
  {
    Rb(key, value, Nil, Nil, Black, true)
  }

  // ---------------------------------------------------------------------
  // cast (lib/red-black-tree/index.js:97-112)

  /** A `RedBlackTree` is kept as it is; a plain node becomes one with the
      given colour and flag, its plain descendants red and not the root.
      `Instance(Nil)` stands for the `tree.left && ...` guard of the
      recursive calls. */
  function Cast<V>(b: Base<V>, color: Color, isRoot: bool): (r: RbTree<V>)
    ensures b.Instance? ==> r == b.tree
    ensures b.Bare? ==> r.Rb? && r.key == b.node.key && r.value == b.node.value && r.color == color && r.isRoot == isRoot
    ensures Items(r) == BaseItems(b)
  {
    match b
    case Instance(t) => t
    case Bare(Plain(k, v, l, rt)) => Rb(k, v, Cast(l, Red, false), Cast(rt, Red, false), color, isRoot)
  }

  /** A parent-type tree made only of plain nodes. */
  predicate AllPlain<V>(b: Base<V>) {
    match b
    case Instance(t) => t.Nil?
    case Bare(Plain(_, _, l, r)) => AllPlain(l) && AllPlain(r)
  }

  /** Every node is red and not the root. */
  predicate AllRedBelow<V>(t: RbTree<V>) {
    t.Nil? || (t.color == Red && !t.isRoot && AllRedBelow(t.left) && AllRedBelow(t.right))
  }

  /** Casting a wholly plain tree colours every node below the top red and
      clears its root flag. */
  lemma {:induction false} CastPlainTree<V>(b: Base<V>, color: Color, isRoot: bool)
    requires AllPlain(b) && b.Bare?
    ensures var r := Cast(b, color, isRoot);
      AllRedBelow(r.left) && AllRedBelow(r.right)
  {
    var p := b.node;
    if p.left.Bare? {
      CastPlainTree(p.left, Red, false);
    }
    if p.right.Bare? {
      CastPlainTree(p.right, Red, false);
    }
  }

  // ---------------------------------------------------------------------
  // updateNode (lib/red-black-tree/index.js:114-135)

  /** The fields named in an `updates` object; `None` is a missing key. */
  datatype Updates<V> = Updates(left: Option<RbTree<V>>, right: Option<RbTree<V>>, color: Option<Color>, isRoot: Option<bool>)

  function Or<T>(o: Option<T>, default: T): T {
    if o.Some? then o.value else default
  }

  function Paint<V>(c: Color): Updates<V> {
    Updates(None, None, Some(c), None)
  }

  /** A new node with the named fields replaced and the others copied; it
      throws on `null`. */
  function UpdateNode<V>(t: RbTree<V>, u: Updates<V>): (r: Result<RbTree<V>>)
    ensures r.Ok? <==> t.Rb?
    ensures r.Err? ==> r.message == "Tree must not be null"
    ensures r.Ok? ==> var n := r.value;
      && n.Rb? && n.key == t.key && n.value == t.value
      && n.left == (if u.left.Some? then u.left.value else t.left)
      && n.right == (if u.right.Some? then u.right.value else t.right)
      && n.color == (if u.color.Some? then u.color.value else t.color)
      && n.isRoot == (if u.isRoot.Some? then u.isRoot.value else t.isRoot)
  {
    if t.Nil? then Err("Tree must not be null")
    else Ok(Rb(t.key, t.value, Or(u.left, t.left), Or(u.right, t.right), Or(u.color, t.color), Or(u.isRoot, t.isRoot)))
  }

  /** `tree && updateNode(tree, { color: subtractBlack(tree.color) })` */
  function SubtractAt<V>(t: RbTree<V>): (r: Result<RbTree<V>>)
    ensures r.Ok? <==> !HasColor(t, NegativeBlack)
    ensures r.Ok? ==> Items(r.value) == Items(t)
  {
    if t.Nil? then Ok(Nil)
    else
      var c :- SubtractBlack(t.color);
      UpdateNode(t, Paint(c))
  }

  // ---------------------------------------------------------------------
  // rotateLeft and rotateRight (lib/red-black-tree/index.js:137-157)

  /** The right child moves up and takes over the root flag; the old top
      becomes its left child and is no longer the root. */
  function RotateLeft<V>(t: RbTree<V>): (r: Result<RbTree<V>>)
    ensures r.Ok? <==> t.Rb? && t.right.Rb?
    ensures r.Err? ==> r.message == "Tree must not be empty and must have a right child"
    ensures r.Ok? ==> var n := r.value;
      && n.Rb? && n.key == t.right.key && n.isRoot == t.isRoot && n.color == t.right.color
      && n.left.Rb? && n.left.key == t.key && !n.left.isRoot && n.left.color == t.color
    ensures r.Ok? ==> var n := r.value;
      && n.right == t.right.right && n.left.left == t.left && n.left.right == t.right.left
    ensures r.Ok? ==> Items(r.value) == Items(t) && Keys(r.value) == Keys(t)
  {
    if t.Nil? || t.right.Nil? then Err("Tree must not be empty and must have a right child")
    else
      var left := UpdateNode(t, Updates(None, Some(t.right.left), None, Some(false))).value;
      UpdateNode(t.right, Updates(Some(left), None, None, Some(t.isRoot)))
  }

  /** The mirror image of `RotateLeft`. */
  function RotateRight<V>(t: RbTree<V>): (r: Result<RbTree<V>>)
    ensures r.Ok? <==> t.Rb? && t.left.Rb?
    ensures r.Err? ==> r.message == "Tree must not be empty and must have a left child"
    ensures r.Ok? ==> var n := r.value;
      && n.Rb? && n.key == t.left.key && n.isRoot == t.isRoot && n.color == t.left.color
      && n.right.Rb? && n.right.key == t.key && !n.right.isRoot && n.right.color == t.color
    ensures r.Ok? ==> var n := r.value;
      && n.left == t.left.left && n.right.right == t.right && n.right.left == t.left.right
    ensures r.Ok? ==> Items(r.value) == Items(t) && Keys(r.value) == Keys(t)
  {
    if t.Nil? || t.left.Nil? then Err("Tree must not be empty and must have a left child")
    else
      var right := UpdateNode(t, Updates(Some(t.left.right), None, None, Some(false))).value;
      UpdateNode(t.left, Updates(None, Some(right), None, Some(t.isRoot)))
  }

  /** Each rotation undoes the other, provided the node that comes back up
      did not claim to be the root. */
  lemma RotationsInverse<V>(t: RbTree<V>)
    ensures RotateLeft(t).Ok? && !t.right.isRoot ==> RotateRight(RotateLeft(t).value) == Ok(t)
    ensures RotateRight(t).Ok? && !t.left.isRoot ==> RotateLeft(RotateRight(t).value) == Ok(t)
  {
  }

  // ---------------------------------------------------------------------
  // rebalance (lib/red-black-tree/index.js:183-257)

  /** Throws on an empty tree; otherwise resolves a `-black` child of a
      `+black` node, then repairs red-red pairs. */
  function Rebalance<V>(t: RbTree<V>): (r: Result<RbTree<V>>)
    ensures t.Nil? ==> r == Err("Cannot rebalance an empty tree")
    ensures r.Ok? ==> r.value.Rb? && Items(r.value) == Items(t) && Keys(r.value) == Keys(t)
    decreases |Keys(t)|, 2
  {
    if t.Nil? then Err("Cannot rebalance an empty tree")
    else
      var t1 :- ResolveNegative(t);
      FixReds(t1)
  }

  /** Lines 190-214: at a `+black` node with a `-black` child, the child
      and the node are rotated away from it and the rotated side is
      rebalanced again. */
  function ResolveNegative<V>(t: RbTree<V>): (r: Result<RbTree<V>>)
    requires t.Rb?
    ensures r.Ok? ==> r.value.Rb? && Items(r.value) == Items(t) && Keys(r.value) == Keys(t)
    ensures r.Ok? ==> r.value.isRoot == t.isRoot
    decreases |Keys(t)|, 1
  {
    if t.color != DoubleBlack then Ok(t)
    else if HasColor(t.left, NegativeBlack) then
      var t3 :- RotateFromLeft(t);
      var nl :- Rebalance(t3.left);
      assert Items(nl) == Items(t3.left) && Keys(nl) == Keys(t3.left);
      UpdateNode(t3, Updates(Some(nl), None, None, None))
    else if HasColor(t.right, NegativeBlack) then
      var t3 :- RotateFromRight(t);
      var nr :- Rebalance(t3.right);
      assert Items(nr) == Items(t3.right) && Keys(nr) == Keys(t3.right);
      UpdateNode(t3, Updates(None, Some(nr), None, None))
    else Ok(t)
  }

  /** Lines 191-200: rotate the `-black` left child left and the node right,
      blacken both new children and redden the left grandchild on the left
      (which must exist). */
  function RotateFromLeft<V>(t: RbTree<V>): (r: Result<RbTree<V>>)
    requires t.Rb? && HasColor(t.left, NegativeBlack)
    ensures r.Ok? ==> var n := r.value;
      && n.Rb? && n.left.Rb? && !n.left.isRoot && n.left.color == Black && n.isRoot == t.isRoot
      && Items(n) == Items(t) && Keys(n) == Keys(t)
  {
    var a :- RotateLeft(t.left);
    var t1 := UpdateNode(t, Updates(Some(a), None, None, None)).value;
    var t2 := RotateRight(t1).value;
    var ll :- UpdateNode(t2.left.left, Paint(Red));
    var l := UpdateNode(t2.left, Updates(Some(ll), None, Some(Black), None)).value;
    var r := UpdateNode(t2.right, Paint(Black)).value;
    assert Keys(l) == Keys(t2.left) && Items(l) == Items(t2.left);
    assert Keys(t2) == Keys(t1) == Keys(t);
    Ok(UpdateNode(t2, Updates(Some(l), Some(r), None, None)).value)
  }

  /** Lines 201-213, the mirror image of `RotateFromLeft`. */
  function RotateFromRight<V>(t: RbTree<V>): (r: Result<RbTree<V>>)
    requires t.Rb? && HasColor(t.right, NegativeBlack)
    ensures r.Ok? ==> var n := r.value;
      && n.Rb? && n.right.Rb? && !n.right.isRoot && n.right.color == Black && n.isRoot == t.isRoot
      && Items(n) == Items(t) && Keys(n) == Keys(t)
  {
    var a :- RotateRight(t.right);
    var t1 := UpdateNode(t, Updates(None, Some(a), None, None)).value;
    var t2 := RotateLeft(t1).value;
    var l := UpdateNode(t2.left, Paint(Black)).value;
    var rr :- UpdateNode(t2.right.right, Paint(Red));
    var r := UpdateNode(t2.right, Updates(None, Some(rr), Some(Black), None)).value;
    assert Keys(r) == Keys(t2.right) && Items(r) == Items(t2.right);
    assert Keys(t2) == Keys(t1) == Keys(t);
    Ok(UpdateNode(t2, Updates(Some(l), Some(r), None, None)).value)
  }

  /** Lines 216-256, at a black or `+black` node. */
  function FixReds<V>(t: RbTree<V>): (r: Result<RbTree<V>>)
    requires t.Rb?
    ensures r.Ok? && r.value.Rb? && Items(r.value) == Items(t) && Keys(r.value) == Keys(t)
  {
    if t.color != Black && t.color != DoubleBlack then Ok(t)
    else if HasColor(t.left, Red) && HasColor(t.right, Red) then Ok(Flip(t))
    else if HasColor(t.left, Red) then FixLeft(t)
    else FixRight(t)
  }

  /** Lines 217-223: both red children turn black and the node turns red,
      or black when it is the root. */
  function Flip<V>(t: RbTree<V>): (r: RbTree<V>)
    requires t.Rb? && t.left.Rb? && t.right.Rb?
    ensures r.Rb? && r.key == t.key && r.isRoot == t.isRoot && r.color == (if t.isRoot then Black else Red)
    ensures r.left == UpdateNode(t.left, Paint(Black)).value && r.right == UpdateNode(t.right, Paint(Black)).value
    ensures Items(r) == Items(t) && Keys(r) == Keys(t)
  {
    var l := UpdateNode(t.left, Paint(Black)).value;
    var r := UpdateNode(t.right, Paint(Black)).value;
    UpdateNode(t, Updates(Some(l), Some(r), Some(if t.isRoot then Black else Red), None)).value
  }

  /** Lines 225-238. */
  function FixLeft<V>(t: RbTree<V>): (r: Result<RbTree<V>>)
    requires t.Rb? && HasColor(t.left, Red)
    ensures r.Ok? && r.value.Rb? && Items(r.value) == Items(t) && Keys(r.value) == Keys(t)
  {
    var u := if HasColor(t.left.right, Red) then UpdateNode(t, Updates(Some(RotateLeft(t.left).value), None, None, None)).value else t;
    if HasColor(u.left.left, Red) then Ok(PromoteLeft(u)) else FixRight(u)
  }

  /** Lines 240-253. */
  function FixRight<V>(t: RbTree<V>): (r: Result<RbTree<V>>)
    requires t.Rb?
    ensures r.Ok? && r.value.Rb? && Items(r.value) == Items(t) && Keys(r.value) == Keys(t)
  {
    if !HasColor(t.left, Red) && HasColor(t.right, Red) then
      var u := if HasColor(t.right.left, Red) then UpdateNode(t, Updates(None, Some(RotateRight(t.right).value), None, None)).value else t;
      if HasColor(u.right.right, Red) then Ok(PromoteRight(u)) else Ok(u)
    else Ok(t)
  }

  /** The colour the rotated-up node takes: black at the root or when the
      node rotated down was `+black`, otherwise red. */
  function PromotedColor<V>(t: RbTree<V>): (c: Color)
    requires t.Rb?
    ensures c == Black || c == Red
    ensures c == Black <==> t.isRoot || t.color == DoubleBlack
  {
    if t.isRoot || t.color == DoubleBlack then Black else Red
  }

  /** Lines 230-236: rotate right, then blacken both children. */
  function PromoteLeft<V>(t: RbTree<V>): (r: RbTree<V>)
    requires t.Rb? && t.left.Rb? && t.left.left.Rb?
    ensures r.Rb? && r.key == t.left.key && r.isRoot == t.isRoot && r.color == PromotedColor(t)
    ensures r.left.Rb? && r.left.color == Black && r.right.Rb? && r.right.color == Black && !r.right.isRoot
    ensures Items(r) == Items(t) && Keys(r) == Keys(t)
  {
    var w := RotateRight(t).value;
    var l := UpdateNode(w.left, Paint(Black)).value;
    var r := UpdateNode(w.right, Paint(Black)).value;
    assert Items(l) == Items(w.left) && Keys(l) == Keys(w.left);
    assert Items(r) == Items(w.right) && Keys(r) == Keys(w.right);
    UpdateNode(w, Updates(Some(l), Some(r), Some(PromotedColor(t)), None)).value
  }

  /** Lines 245-251, the mirror image of `PromoteLeft`. */
  function PromoteRight<V>(t: RbTree<V>): (r: RbTree<V>)
    requires t.Rb? && t.right.Rb? && t.right.right.Rb?
    ensures r.Rb? && r.key == t.right.key && r.isRoot == t.isRoot && r.color == PromotedColor(t)
    ensures r.left.Rb? && r.left.color == Black && !r.left.isRoot && r.right.Rb? && r.right.color == Black
    ensures Items(r) == Items(t) && Keys(r) == Keys(t)
  {
    var w := RotateLeft(t).value;
    var l := UpdateNode(w.left, Paint(Black)).value;
    var r := UpdateNode(w.right, Paint(Black)).value;
    assert Items(l) == Items(w.left) && Keys(l) == Keys(w.left);
    assert Items(r) == Items(w.right) && Keys(r) == Keys(w.right);
    UpdateNode(w, Updates(Some(l), Some(r), Some(PromotedColor(t)), None)).value
  }

  // ---------------------------------------------------------------------
  // set (lib/red-black-tree/index.js:27-29)

  /** `tree.set(key, value)`: the parent rebuilds the node, which `cast`
      turns back into a `RedBlackTree` with this node's colour and flag, and
      the result is rebalanced. */
  function Set<V>(t: RbTree<V>, key: int, value: V): (r: Result<RbTree<V>>)
    requires t.Rb?
    ensures r.Ok? ==> r.value.Rb?
    decreases t, 1
  {
    var p :- SuperSet(t, key, value);
    Rebalance(Cast(Bare(p), t.color, t.isRoot))
  }

  /** The parent's `set`: the key's node gets the new value and keeps its
      children; otherwise the child on the key's side is set, and a missing
      child becomes a new plain leaf. */
  function SuperSet<V>(t: RbTree<V>, key: int, value: V): (r: Result<Plain<V>>)
    requires t.Rb?
    ensures r.Ok? ==> r.value.key == t.key && r.value.value == (if key == t.key then value else t.value)
    ensures key == t.key ==> r.Ok? && r.value.left == Instance(t.left) && r.value.right == Instance(t.right)
    decreases t, 0
  {
    if key == t.key then Ok(Plain(key, value, Instance(t.left), Instance(t.right)))
    else if key < t.key then
      var l :- SetChild(t.left, key, value);
      Ok(Plain(t.key, t.value, l, Instance(t.right)))
    else
      var r :- SetChild(t.right, key, value);
      Ok(Plain(t.key, t.value, Instance(t.left), r))
  }

  function SetChild<V>(c: RbTree<V>, key: int, value: V): (r: Result<Base<V>>)
    ensures c.Nil? ==> r.Ok? && r.value.Bare? && AllPlain(r.value) && BaseItems(r.value) == [(key, value)]
    ensures c.Rb? && r.Ok? ==> r.value.Instance? && r.value.tree.Rb?
    decreases c, 2
  {
    if c.Nil? then Ok(Bare(Plain(key, value, Instance(Nil), Instance(Nil))))
    else
      var n :- Set(c, key, value);
      Ok(Instance(n))
  }

  // ---------------------------------------------------------------------
  // delete (lib/red-black-tree/index.js:31-94)

  /** The leftmost node; `Nil` for an empty tree. */
  function First<V>(t: RbTree<V>): (r: RbTree<V>)
    ensures t.Rb? ==> r.Rb? && r.left.Nil? && Items(t)[0] == (r.key, r.value)
  {
    if t.Rb? && t.left.Rb? then First(t.left) else t
  }

  /** `tree.delete(key)`. */
  function Delete<V>(t: RbTree<V>, key: int): (r: Result<RbTree<V>>)
    requires t.Rb?
    ensures key == t.key && t.left.Nil? && t.right.Nil? ==> r == Ok(Nil)
    ensures r.Ok? && r.value.Nil? ==> SuperDelete(t, key) == Ok(Instance(Nil))
    decreases t, 1
  {
    var d :- SuperDelete(t, key);
    if d == Instance(Nil) then Ok(Nil)
    else
      var t0 := if d.Instance? then UpdateNode(d.tree, Updates(None, None, Some(t.color), Some(t.isRoot))).value
                else Cast(d, t.color, t.isRoot);
      var t1 :- Recolor(t, key, t0);
      var t2 :- AbsorbDoubleBlack(t1);
      Rebalance(t2)
  }

  /** The parent's `delete`: a node with two children takes the first node
      of its right subtree, which is deleted there; a node with one child
      gives way to it; a childless node to `null`; elsewhere the child on the
      key's side is deleted from. */
  function SuperDelete<V>(t: RbTree<V>, key: int): (r: Result<Base<V>>)
    requires t.Rb?
    ensures key == t.key && !(t.left.Rb? && t.right.Rb?) ==> r == Ok(Instance(if t.left.Rb? then t.left else t.right))
    ensures r.Ok? && (key != t.key || (t.left.Rb? && t.right.Rb?)) ==> r.value.Bare?
    ensures r.Ok? && key != t.key ==> r.value.node.key == t.key && r.value.node.value == t.value
    decreases t, 0
  {
    if key == t.key then
      if t.left.Rb? && t.right.Rb? then
        var next := First(t.right);
        var r :- Delete(t.right, next.key);
        Ok(Bare(Plain(next.key, next.value, Instance(t.left), Instance(r))))
      else if t.left.Rb? then Ok(Instance(t.left))
      else Ok(Instance(t.right))
    else if key < t.key then
      var l :- DeleteChild(t.left, key);
      Ok(Bare(Plain(t.key, t.value, Instance(l), Instance(t.right))))
    else
      var r :- DeleteChild(t.right, key);
      Ok(Bare(Plain(t.key, t.value, Instance(t.left), Instance(r))))
  }

  function DeleteChild<V>(c: RbTree<V>, key: int): (r: Result<RbTree<V>>)
    ensures c.Nil? ==> r == Ok(Nil)
    decreases c, 2
  {
    if c.Nil? then Ok(Nil) else Delete(c, key)
  }

  /** The child of the node before deletion was a black childless node
      holding the deleted key. */
  predicate IsBlackLeafWithKey<V>(c: RbTree<V>, key: int) {
    c.Rb? && key == c.key && c.color == Black && c.left.Nil? && c.right.Nil?
  }

  /** Lines 43-73: when a black childless child was deleted, the other child
      (which must exist) takes one black less and the node becomes `+black`,
      or black at the root. */
  function Recolor<V>(before: RbTree<V>, key: int, t: RbTree<V>): (r: Result<RbTree<V>>)
    requires before.Rb? && t.Rb?
    ensures r.Ok? ==> r.value.Rb? && Items(r.value) == Items(t)
    ensures IsBlackLeafWithKey(before.left, key) ==>
      if t.right.Nil? then r == Err("Invalid tree")
      else r.Ok? <==> SubtractBlack(t.right.color).Ok?
    ensures IsBlackLeafWithKey(before.left, key) && r.Ok? ==>
      r.value.color == (if t.isRoot then Black else DoubleBlack)
      && r.value.right.Rb? && r.value.right.color == SubtractBlack(t.right.color).value && r.value.left == t.left
    ensures !IsBlackLeafWithKey(before.left, key) && IsBlackLeafWithKey(before.right, key) ==>
      if t.left.Nil? then r == Err("Invalid tree")
      else r.Ok? <==> SubtractBlack(t.left.color).Ok?
    ensures !IsBlackLeafWithKey(before.left, key) && IsBlackLeafWithKey(before.right, key) && r.Ok? ==>
      r.value.color == (if t.isRoot then Black else DoubleBlack)
      && r.value.left.Rb? && r.value.left.color == SubtractBlack(t.left.color).value && r.value.right == t.right
    ensures !IsBlackLeafWithKey(before.left, key) && !IsBlackLeafWithKey(before.right, key) ==> r == Ok(t)
  {
    if IsBlackLeafWithKey(before.left, key) then
      if t.right.Nil? then Err("Invalid tree")
      else
        var c :- SubtractBlack(t.right.color);
        var r := UpdateNode(t.right, Paint(c)).value;
        Ok(UpdateNode(t, Updates(None, Some(r), Some(if t.isRoot then Black else DoubleBlack), None)).value)
    else if IsBlackLeafWithKey(before.right, key) then
      if t.left.Nil? then Err("Invalid tree")
      else
        var c :- SubtractBlack(t.left.color);
        var l := UpdateNode(t.left, Paint(c)).value;
        Ok(UpdateNode(t, Updates(Some(l), None, Some(if t.isRoot then Black else DoubleBlack), None)).value)
    else Ok(t)
  }

  /** Lines 75-89: a `+black` child passes one black up to its node (which
      is black at the root), and both children take one black less. */
  function AbsorbDoubleBlack<V>(t: RbTree<V>): (r: Result<RbTree<V>>)
    requires t.Rb?
    ensures r.Ok? ==> r.value.Rb? && Items(r.value) == Items(t)
    ensures !HasColor(t.left, DoubleBlack) && !HasColor(t.right, DoubleBlack) ==> r == Ok(t)
    ensures HasColor(t.left, DoubleBlack) || HasColor(t.right, DoubleBlack) ==>
      (r.Ok? <==> Absorb(t.color, t.isRoot).Ok? && SubtractAt(t.left).Ok? && SubtractAt(t.right).Ok?)
    ensures (HasColor(t.left, DoubleBlack) || HasColor(t.right, DoubleBlack)) && r.Ok? ==>
      && r.value.color == Absorb(t.color, t.isRoot).value
      && r.value.left == SubtractAt(t.left).value && r.value.right == SubtractAt(t.right).value
  {
    if HasColor(t.left, DoubleBlack) || HasColor(t.right, DoubleBlack) then
      var c :- Absorb(t.color, t.isRoot);
      var l :- SubtractAt(t.left);
      var r :- SubtractAt(t.right);
      Ok(UpdateNode(t, Updates(Some(l), Some(r), Some(c), None)).value)
    else Ok(t)
  }

  // ---------------------------------------------------------------------
  // Agreement with the functional red-black tree (red-black-tree/index.js)

  /** The same tree in the functional representation, which has no root flags. */
  function ToFunctional<V>(t: RbTree<V>): (r: F.RbTree<V>)
    ensures F.Contents(r) == Items(t) && Bst.Keys(r) == Keys(t)
    ensures t.Rb? <==> r.Node?
  {
    if t.Nil? then Bst.Nil
    else Bst.Node(t.key, F.Colored(t.color, t.value), ToFunctional(t.left), ToFunctional(t.right))
  }

  /** Repainting a node is the functional `{ ...tree, color }`. */
  lemma PaintAgrees<V>(t: RbTree<V>, c: Color)
    requires t.Rb?
    ensures ToFunctional(UpdateNode(t, Paint(c)).value) == F.WithColor(ToFunctional(t), c)
  {
  }

  lemma RotationsAgree<V>(t: RbTree<V>)
    ensures RotateLeft(t).Ok? ==> Bst.RotateLeft(ToFunctional(t)) == Ok(ToFunctional(RotateLeft(t).value))
    ensures RotateRight(t).Ok? ==> Bst.RotateRight(ToFunctional(t)) == Ok(ToFunctional(RotateRight(t).value))
  {
  }

  lemma HasColorAgrees<V>(t: RbTree<V>, c: Color)
    ensures F.HasColor(ToFunctional(t), c) == HasColor(t, c)
  {
  }

  lemma FlipAgrees<V>(t: RbTree<V>)
    requires t.Rb? && t.left.Rb? && t.right.Rb?
    ensures F.Flip(ToFunctional(t), t.isRoot) == ToFunctional(Flip(t))
  {
    PaintAgrees(t.left, Black);
    PaintAgrees(t.right, Black);
  }

  /** The class's (corrected) red-fixing rotations compute the same colours
      and shape as the functional `rebalance`. */
  lemma FixRedsAgree<V>(t: RbTree<V>)
    requires t.Rb?
    ensures F.FixReds(ToFunctional(t), t.isRoot) == Ok(ToFunctional(FixReds(t).value))
  {
    HasColorAgrees(t.left, Red);
    HasColorAgrees(t.right, Red);
    if t.color != Black && t.color != DoubleBlack {
    } else if HasColor(t.left, Red) && HasColor(t.right, Red) {
      FlipAgrees(t);
    } else if HasColor(t.left, Red) {
      FixLeftAgrees(t);
    } else {
      FixRightAgrees(t);
    }
  }

  lemma FixLeftAgrees<V>(t: RbTree<V>)
    requires t.Rb? && HasColor(t.left, Red) && (t.color == Black || t.color == DoubleBlack)
    ensures F.HasColor(ToFunctional(t).left, Red)
    ensures F.FixLeft(ToFunctional(t), t.isRoot) == Ok(ToFunctional(FixLeft(t).value))
  {
    HasColorAgrees(t.left, Red);
    HasColorAgrees(t.left.right, Red);
    var u := if HasColor(t.left.right, Red) then UpdateNode(t, Updates(Some(RotateLeft(t.left).value), None, None, None)).value else t;
    var fu := if F.HasColor(ToFunctional(t).left.right, Red)
      then Bst.Node(t.key, F.Colored(t.color, t.value), Bst.RotateLeft(ToFunctional(t.left)).value, ToFunctional(t.right))
      else ToFunctional(t);
    if HasColor(t.left.right, Red) {
      LeftRotatedAgrees(t);
    }
    assert fu == ToFunctional(u);
    HasColorAgrees(u.left.left, Red);
    if HasColor(u.left.left, Red) {
      PromoteLeftAgrees(u);
    } else {
      FixRightAgrees(u);
    }
  }

  lemma LeftRotatedAgrees<V>(t: RbTree<V>)
    requires t.Rb? && t.left.Rb? && HasColor(t.left.right, Red)
    ensures ToFunctional(UpdateNode(t, Updates(Some(RotateLeft(t.left).value), None, None, None)).value)
      == Bst.Node(t.key, F.Colored(t.color, t.value), Bst.RotateLeft(ToFunctional(t.left)).value, ToFunctional(t.right))
  {
    RotationsAgree(t.left);
  }

  lemma RightRotatedAgrees<V>(t: RbTree<V>)
    requires t.Rb? && t.right.Rb? && HasColor(t.right.left, Red)
    ensures ToFunctional(UpdateNode(t, Updates(None, Some(RotateRight(t.right).value), None, None)).value)
      == Bst.Node(t.key, F.Colored(t.color, t.value), ToFunctional(t.left), Bst.RotateRight(ToFunctional(t.right)).value)
  {
    RotationsAgree(t.right);
  }

  lemma FixRightAgrees<V>(t: RbTree<V>)
    requires t.Rb? && (t.color == Black || t.color == DoubleBlack)
    ensures F.FixRight(ToFunctional(t), t.isRoot) == Ok(ToFunctional(FixRight(t).value))
  {
    HasColorAgrees(t.left, Red);
    HasColorAgrees(t.right, Red);
    if !HasColor(t.left, Red) && HasColor(t.right, Red) {
      HasColorAgrees(t.right.left, Red);
      var u := if HasColor(t.right.left, Red) then UpdateNode(t, Updates(None, Some(RotateRight(t.right).value), None, None)).value else t;
      var fu := if F.HasColor(ToFunctional(t).right.left, Red)
        then Bst.Node(t.key, F.Colored(t.color, t.value), ToFunctional(t.left), Bst.RotateRight(ToFunctional(t.right)).value)
        else ToFunctional(t);
      if HasColor(t.right.left, Red) {
        RightRotatedAgrees(t);
      }
      assert fu == ToFunctional(u);
      HasColorAgrees(u.right.right, Red);
      if HasColor(u.right.right, Red) {
        PromoteRightAgrees(u);
      }
    }
  }
  /** The class's `rebalance` agrees with the functional one called with
      the node's root flag, except that the functional one also resolves a
      `-black` child of a root that is not `+black`. */
  lemma {:induction false} RebalanceAgrees<V>(t: RbTree<V>)
    requires t.Rb?
    requires t.isRoot && t.color != DoubleBlack ==> !HasColor(t.left, NegativeBlack) && !HasColor(t.right, NegativeBlack)
    ensures Rebalance(t).Ok? ==> F.Rebalance(ToFunctional(t), t.isRoot) == Ok(ToFunctional(Rebalance(t).value))
    decreases |Keys(t)|, 1
  {
    HasColorAgrees(t.left, NegativeBlack);
    HasColorAgrees(t.right, NegativeBlack);
    var r := ResolveNegative(t);
    if r.Ok? {
      if t.color != DoubleBlack || !(HasColor(t.left, NegativeBlack) || HasColor(t.right, NegativeBlack)) {
        FixRedsAgree(t);
      } else if HasColor(t.left, NegativeBlack) {
        ResolveLeftAgrees(t);
      } else {
        ResolveRightAgrees(t);
      }
    }
  }

  /** The double rotation of lines 191-200 against that of
      red-black-tree/index.js:158-167. */
  lemma RotateFromLeftAgrees<V>(t: RbTree<V>)
    requires t.Rb? && HasColor(t.left, NegativeBlack) && RotateFromLeft(t).Ok?
    ensures F.RotateAwayLeft(ToFunctional(t)) == Ok(ToFunctional(RotateFromLeft(t).value))
  {
    var a := RotateLeft(t.left).value;
    var t1 := UpdateNode(t, Updates(Some(a), None, None, None)).value;
    InnerLeftRotationAgrees(t);
    RotationsAgree(t1);
    var f := ToFunctional(t);
    var t2 := RotateRight(t1).value;
    RepaintLeftAgrees(t2);
    var ll := UpdateNode(t2.left.left, Paint(Red)).value;
    var l := UpdateNode(t2.left, Updates(Some(ll), None, Some(Black), None)).value;
    var r := UpdateNode(t2.right, Paint(Black)).value;
    assert RotateFromLeft(t).value == UpdateNode(t2, Updates(Some(l), Some(r), None, None)).value;
  }

  /** The first, inner rotation of lines 192 and 202. */
  lemma InnerLeftRotationAgrees<V>(t: RbTree<V>)
    requires t.Rb? && RotateLeft(t.left).Ok?
    ensures var f := ToFunctional(t);
      && Bst.RotateLeft(f.left).Ok?
      && ToFunctional(UpdateNode(t, Updates(Some(RotateLeft(t.left).value), None, None, None)).value)
           == Bst.Node(f.key, f.payload, Bst.RotateLeft(f.left).value, f.right)
  {
    RotationsAgree(t.left);
  }

  lemma InnerRightRotationAgrees<V>(t: RbTree<V>)
    requires t.Rb? && RotateRight(t.right).Ok?
    ensures var f := ToFunctional(t);
      && Bst.RotateRight(f.right).Ok?
      && ToFunctional(UpdateNode(t, Updates(None, Some(RotateRight(t.right).value), None, None)).value)
           == Bst.Node(f.key, f.payload, f.left, Bst.RotateRight(f.right).value)
  {
    RotationsAgree(t.right);
  }

  /** The colours lines 196-199 give after the double rotation. */
  lemma RepaintLeftAgrees<V>(t2: RbTree<V>)
    requires t2.Rb? && t2.left.Rb? && t2.left.left.Rb? && t2.right.Rb?
    ensures var b := ToFunctional(t2);
      var ll := UpdateNode(t2.left.left, Paint(Red)).value;
      var l := UpdateNode(t2.left, Updates(Some(ll), None, Some(Black), None)).value;
      var r := UpdateNode(t2.right, Paint(Black)).value;
      ToFunctional(UpdateNode(t2, Updates(Some(l), Some(r), None, None)).value) ==
        Bst.Node(b.key, b.payload,
                 Bst.Node(b.left.key, F.Colored(Black, b.left.payload.value), F.Redden(b.left.left), b.left.right),
                 F.Blacken(b.right))
  {
    PaintAgrees(t2.left.left, Red);
    PaintAgrees(t2.right, Black);
  }

  lemma RotateFromRightAgrees<V>(t: RbTree<V>)
    requires t.Rb? && HasColor(t.right, NegativeBlack) && RotateFromRight(t).Ok?
    ensures F.RotateAwayRight(ToFunctional(t)) == Ok(ToFunctional(RotateFromRight(t).value))
  {
    var a := RotateRight(t.right).value;
    var t1 := UpdateNode(t, Updates(None, Some(a), None, None)).value;
    InnerRightRotationAgrees(t);
    RotationsAgree(t1);
    var f := ToFunctional(t);
    var t2 := RotateLeft(t1).value;
    RepaintRightAgrees(t2);
    var l := UpdateNode(t2.left, Paint(Black)).value;
    var rr := UpdateNode(t2.right.right, Paint(Red)).value;
    var r := UpdateNode(t2.right, Updates(None, Some(rr), Some(Black), None)).value;
    assert RotateFromRight(t).value == UpdateNode(t2, Updates(Some(l), Some(r), None, None)).value;
  }

  /** The colours lines 208-212 give after the double rotation. */
  lemma RepaintRightAgrees<V>(t2: RbTree<V>)
    requires t2.Rb? && t2.right.Rb? && t2.right.right.Rb? && t2.left.Rb?
    ensures var b := ToFunctional(t2);
      var l := UpdateNode(t2.left, Paint(Black)).value;
      var rr := UpdateNode(t2.right.right, Paint(Red)).value;
      var r := UpdateNode(t2.right, Updates(None, Some(rr), Some(Black), None)).value;
      ToFunctional(UpdateNode(t2, Updates(Some(l), Some(r), None, None)).value) ==
        Bst.Node(b.key, b.payload,
                 F.Blacken(b.left),
                 Bst.Node(b.right.key, F.Colored(Black, b.right.payload.value), b.right.left, F.Redden(b.right.right)))
  {
    PaintAgrees(t2.left, Black);
    PaintAgrees(t2.right.right, Red);
  }

  lemma {:induction false} ResolveLeftAgrees<V>(t: RbTree<V>)
    requires t.Rb? && t.color == DoubleBlack && HasColor(t.left, NegativeBlack)
    ensures Rebalance(t).Ok? ==> F.Rebalance(ToFunctional(t), t.isRoot) == Ok(ToFunctional(Rebalance(t).value))
    decreases |Keys(t)|, 0
  {
    HasColorAgrees(t.left, NegativeBlack);
    var r := ResolveNegative(t);
    if r.Ok? {
      var t3 := RotateFromLeft(t).value;
      RotateFromLeftAgrees(t);
      RebalanceAgrees(t3.left);
      var nl := Rebalance(t3.left).value;
      var t4 := UpdateNode(t3, Updates(Some(nl), None, None, None)).value;
      assert r == Ok(t4);
      FixRedsAgree(t4);
      var f, g := ToFunctional(t), ToFunctional(t3);
      assert F.Rebalance(f, t.isRoot) == F.FixReds(Bst.Node(g.key, g.payload, F.Rebalance(g.left, false).value, g.right), t.isRoot);
    }
  }

  lemma {:induction false} ResolveRightAgrees<V>(t: RbTree<V>)
    requires t.Rb? && t.color == DoubleBlack && !HasColor(t.left, NegativeBlack) && HasColor(t.right, NegativeBlack)
    ensures Rebalance(t).Ok? ==> F.Rebalance(ToFunctional(t), t.isRoot) == Ok(ToFunctional(Rebalance(t).value))
    decreases |Keys(t)|, 0
  {
    HasColorAgrees(t.left, NegativeBlack);
    HasColorAgrees(t.right, NegativeBlack);
    var r := ResolveNegative(t);
    if r.Ok? {
      var t3 := RotateFromRight(t).value;
      RotateFromRightAgrees(t);
      RebalanceAgrees(t3.right);
      var nr := Rebalance(t3.right).value;
      var t4 := UpdateNode(t3, Updates(None, Some(nr), None, None)).value;
      assert r == Ok(t4);
      FixRedsAgree(t4);
      var f, g := ToFunctional(t), ToFunctional(t3);
      assert F.Rebalance(f, t.isRoot) == F.FixReds(Bst.Node(g.key, g.payload, g.left, F.Rebalance(g.right, false).value), t.isRoot);
    }
  }

  lemma PromoteLeftAgrees<V>(t: RbTree<V>)
    requires t.Rb? && t.left.Rb? && t.left.left.Rb? && (t.color == Black || t.color == DoubleBlack)
    ensures F.PromoteLeft(ToFunctional(t), t.isRoot) == Ok(ToFunctional(PromoteLeft(t)))
  {
    RotationsAgree(t);
    var w := RotateRight(t).value;
    PaintAgrees(w.left, Black);
    PaintAgrees(w.right, Black);
  }

  lemma PromoteRightAgrees<V>(t: RbTree<V>)
    requires t.Rb? && t.right.Rb? && t.right.right.Rb? && (t.color == Black || t.color == DoubleBlack)
    ensures F.PromoteRight(ToFunctional(t), t.isRoot) == Ok(ToFunctional(PromoteRight(t)))
  {
    RotationsAgree(t);
    var w := RotateLeft(t).value;
    PaintAgrees(w.left, Black);
    PaintAgrees(w.right, Black);
  }

  // ---------------------------------------------------------------------
  // set keeps a red-black tree a red-black tree (lib/red-black-tree/index.test.js:45-59)

  /** No node is flagged as the root. */
  predicate NotRoot<V>(t: RbTree<V>) {
    t.Nil? || (!t.isRoot && NotRoot(t.left) && NotRoot(t.right))
  }

  /** Only the top node may be flagged as the root. */
  predicate RootAtMostAtTop<V>(t: RbTree<V>) {
    t.Nil? || (NotRoot(t.left) && NotRoot(t.right))
  }

  /** What the tests check of a tree the class builds: the root is flagged,
      no other node is, and the colours form a red-black tree. */
  predicate IsRedBlack<V>(t: RbTree<V>) {
    t.Rb? && t.isRoot && RootAtMostAtTop(t) && F.IsRedBlack(ToFunctional(t))
  }

  lemma PaintKeepsFlags<V>(t: RbTree<V>, c: Color)
    requires t.Rb? && NotRoot(t)
    ensures NotRoot(UpdateNode(t, Paint(c)).value)
  {
  }

  lemma RotationsKeepFlags<V>(t: RbTree<V>)
    requires NotRoot(t)
    ensures RotateLeft(t).Ok? ==> NotRoot(RotateLeft(t).value)
    ensures RotateRight(t).Ok? ==> NotRoot(RotateRight(t).value)
  {
    if t.Rb? {
      assert NotRoot(t.left) && NotRoot(t.right);
    }
  }

  lemma {:induction false} FixRedsKeepsFlags<V>(t: RbTree<V>)
    requires t.Rb? && RootAtMostAtTop(t)
    ensures FixReds(t).value.isRoot == t.isRoot && RootAtMostAtTop(FixReds(t).value)
  {
    if t.color != Black && t.color != DoubleBlack {
    } else if HasColor(t.left, Red) && HasColor(t.right, Red) {
      PaintKeepsFlags(t.left, Black);
      PaintKeepsFlags(t.right, Black);
    } else if HasColor(t.left, Red) {
      FixLeftKeepsFlags(t);
    } else {
      FixRightKeepsFlags(t);
    }
  }

  lemma FixLeftKeepsFlags<V>(t: RbTree<V>)
    requires t.Rb? && HasColor(t.left, Red) && RootAtMostAtTop(t)
    ensures FixLeft(t).value.isRoot == t.isRoot && RootAtMostAtTop(FixLeft(t).value)
  {
    RotationsKeepFlags(t.left);
    var u := if HasColor(t.left.right, Red) then UpdateNode(t, Updates(Some(RotateLeft(t.left).value), None, None, None)).value else t;
    assert RootAtMostAtTop(u) && u.isRoot == t.isRoot;
    if HasColor(u.left.left, Red) {
      var w := RotateRight(u).value;
      PaintKeepsFlags(w.left, Black);
      PaintKeepsFlags(w.right, Black);
    } else {
      FixRightKeepsFlags(u);
    }
  }

  lemma FixRightKeepsFlags<V>(t: RbTree<V>)
    requires t.Rb? && RootAtMostAtTop(t)
    ensures FixRight(t).value.isRoot == t.isRoot && RootAtMostAtTop(FixRight(t).value)
  {
    if !HasColor(t.left, Red) && HasColor(t.right, Red) {
      RotationsKeepFlags(t.right);
      var u := if HasColor(t.right.left, Red) then UpdateNode(t, Updates(None, Some(RotateRight(t.right).value), None, None)).value else t;
      assert RootAtMostAtTop(u) && u.isRoot == t.isRoot;
      if HasColor(u.right.right, Red) {
        var w := RotateLeft(u).value;
        PaintKeepsFlags(w.left, Black);
        PaintKeepsFlags(w.right, Black);
      }
    }
  }

  /** The colours and balance of a subtree below the root. */
  predicate Sound<V>(t: RbTree<V>) {
    var f := ToFunctional(t);
    F.Legal(f) && F.Balanced(f) && F.NoRedRed(f) && NotRoot(t)
  }

  /** What a child comes back as from `set`: fit to hang below a black node. */
  predicate Inserted<V>(before: RbTree<V>, after: RbTree<V>) {
    var f := ToFunctional(after);
    && F.Inserted(f) && F.BlackHeight(f) == F.BlackHeight(ToFunctional(before)) && NotRoot(after)
    && (!HasColor(before, Red) ==> F.NoRedRed(f))
  }

  /** A child of the parent's `set`, as `cast` makes it. */
  function CastChild<V>(b: Base<V>): RbTree<V> {
    Cast(b, Red, false)
  }

  lemma {:induction false} SetChildInserted<V>(c: RbTree<V>, key: int, value: V)
    requires Sound(c)
    ensures SetChild(c, key, value).Ok? && Inserted(c, CastChild(SetChild(c, key, value).value))
    decreases c, 2
  {
    if c.Rb? {
      SetInserted(c, key, value);
    }
  }

  lemma SoundInserted<V>(c: RbTree<V>)
    requires Sound(c)
    ensures Inserted(c, c)
  {
  }

  /** The node `set` hands to `rebalance`: the child on the key's side comes
      back inserted, the other is unchanged. */
  lemma {:induction false} SetNodeSound<V>(t: RbTree<V>, key: int, value: V)
    requires t.Rb? && RootAtMostAtTop(t)
    requires var f := ToFunctional(t); F.Legal(f) && F.Balanced(f) && F.NoRedRed(f)
    ensures SuperSet(t, key, value).Ok?
    ensures var n := Cast(Bare(SuperSet(t, key, value).value), t.color, t.isRoot);
      && n.Rb? && n.color == t.color && n.isRoot == t.isRoot && RootAtMostAtTop(n)
      && Inserted(t.left, n.left) && Inserted(t.right, n.right)
      && var f := ToFunctional(n);
        F.Legal(f) && F.Balanced(f) && F.BlackHeight(f) == F.BlackHeight(ToFunctional(t))
    decreases t, 0
  {
    var f := ToFunctional(t);
    assert F.Legal(f.left) && F.Legal(f.right) && F.Balanced(f.left) && F.Balanced(f.right);
    assert F.NoRedRed(f.left) && F.NoRedRed(f.right);
    assert Sound(t.left) && Sound(t.right);
    SoundInserted(t.left);
    SoundInserted(t.right);
    var l, r := t.left, t.right;
    if key < t.key {
      SetChildInserted(t.left, key, value);
      l := CastChild(SetChild(t.left, key, value).value);
    } else if key > t.key {
      SetChildInserted(t.right, key, value);
      r := CastChild(SetChild(t.right, key, value).value);
    }
    var p := SuperSet(t, key, value).value;
    var n := Cast(Bare(p), t.color, t.isRoot);
    assert n == Rb(t.key, n.value, l, r, t.color, t.isRoot);
    HungInserted(t, l, r, n.value);
  }

  /** A node whose children came back from `set` keeps its colour rules and
      black height. */
  lemma HungInserted<V>(t: RbTree<V>, l: RbTree<V>, r: RbTree<V>, value: V)
    requires t.Rb? && Inserted(t.left, l) && Inserted(t.right, r)
    requires var f := ToFunctional(t); F.Legal(f) && F.Balanced(f)
    ensures var f := ToFunctional(Rb(t.key, value, l, r, t.color, t.isRoot));
      F.Legal(f) && F.Balanced(f) && F.BlackHeight(f) == F.BlackHeight(ToFunctional(t))
  {
  }

  /** `set` below the root: never throws, and what comes back is fit to be
      the child of a black node. */
  lemma {:induction false} SetInserted<V>(t: RbTree<V>, key: int, value: V)
    requires t.Rb? && Sound(t)
    ensures Set(t, key, value).Ok? && Inserted(t, Set(t, key, value).value)
    decreases t, 1
  {
    SetNodeSound(t, key, value);
    var n := Cast(Bare(SuperSet(t, key, value).value), t.color, t.isRoot);
    assert Set(t, key, value) == FixReds(n) by {
      assert ResolveNegative(n) == Ok(n);
    }
    if t.color == Black {
      BlackNodeRepaired(t, n);
    } else {
      RedNodeUntouched(t, n);
    }
  }

  /** A black node whose children came back from `set` is repaired by
      `fixReds` into a tree fit to hang below a black node. */
  lemma BlackNodeRepaired<V>(t: RbTree<V>, n: RbTree<V>)
    requires t.Rb? && Sound(t) && t.color == Black
    requires n.Rb? && n.color == Black && !n.isRoot && RootAtMostAtTop(n)
    requires Inserted(t.left, n.left) && Inserted(t.right, n.right)
    requires var f := ToFunctional(n);
      F.Legal(f) && F.Balanced(f) && F.BlackHeight(f) == F.BlackHeight(ToFunctional(t))
    ensures Inserted(t, FixReds(n).value)
  {
    FixRedsAgree(n);
    FixRedsKeepsFlags(n);
    F.FixRedsRepairs(ToFunctional(n), false);
  }

  /** A red node cannot have a red child, so after `set` its children obey
      the red-red rule and `fixReds` leaves it alone. */
  lemma RedNodeUntouched<V>(t: RbTree<V>, n: RbTree<V>)
    requires t.Rb? && Sound(t) && t.color == Red
    requires n.Rb? && n.color == Red && !n.isRoot && RootAtMostAtTop(n)
    requires Inserted(t.left, n.left) && Inserted(t.right, n.right)
    requires var f := ToFunctional(n);
      F.Legal(f) && F.Balanced(f) && F.BlackHeight(f) == F.BlackHeight(ToFunctional(t))
    ensures FixReds(n) == Ok(n) && Inserted(t, n)
  {
    var f := ToFunctional(t);
    assert f.payload.color == Red;
    assert !HasColor(t.left, Red) && !HasColor(t.right, Red);
  }

  /** `set` keeps a red-black tree a red-black tree: the property the tests
      check after every insertion. */
  lemma SetKeepsRedBlack<V>(t: RbTree<V>, key: int, value: V)
    requires IsRedBlack(t)
    ensures Set(t, key, value).Ok? && IsRedBlack(Set(t, key, value).value)
  {
    SetNodeSound(t, key, value);
    var n := Cast(Bare(SuperSet(t, key, value).value), t.color, t.isRoot);
    assert ResolveNegative(n) == Ok(n);
    FixRedsAgree(n);
    FixRedsKeepsFlags(n);
    F.FixRedsRepairs(ToFunctional(n), true);
  }

  /** A new tree is a red-black tree. */
  lemma NewIsRedBlack<V>(key: int, value: V)
    ensures IsRedBlack(New(key, value))
  {
    var f := ToFunctional(New(key, value));
    assert f == Bst.Node(key, F.Colored(Black, value), Bst.Nil, Bst.Nil);
    assert F.Legal(f) && F.Balanced(f) && F.NoRedRed(f);
  }

  // ---------------------------------------------------------------------
  // Map semantics, carried over from the plain search tree

  /** `set` leaves the in-order items of the plain search tree's `set`:
      recolouring and rotations move no item. */
  lemma {:induction false} SetItems<V>(t: RbTree<V>, key: int, value: V)
    requires t.Rb?
    ensures Set(t, key, value).Ok? ==>
      Items(Set(t, key, value).value) == Bst.Items(Bst.Set(Strip(t), key, value, Bst.Overwrite))
    decreases t, 1
  {
    SuperSetItems(t, key, value);
  }

  lemma {:induction false} SuperSetItems<V>(t: RbTree<V>, key: int, value: V)
    requires t.Rb?
    ensures SuperSet(t, key, value).Ok? ==>
      BaseItems(Bare(SuperSet(t, key, value).value)) == Bst.Items(Bst.Set(Strip(t), key, value, Bst.Overwrite))
    decreases t, 0
  {
    if key < t.key {
      SetChildItems(t.left, key, value);
    } else if key > t.key {
      SetChildItems(t.right, key, value);
    }
  }

  lemma {:induction false} SetChildItems<V>(c: RbTree<V>, key: int, value: V)
    ensures SetChild(c, key, value).Ok? ==>
      BaseItems(SetChild(c, key, value).value) == Bst.Items(Bst.Set(Strip(c), key, value, Bst.Overwrite))
    decreases c, 2
  {
    if c.Rb? {
      SetItems(c, key, value);
    }
  }

  /** `delete` leaves the in-order items of the plain search tree's
      `remove`. */
  lemma {:induction false} DeleteItems<V>(t: RbTree<V>, key: int)
    requires t.Rb?
    ensures Delete(t, key).Ok? ==> Items(Delete(t, key).value) == Bst.Items(Bst.Remove(Strip(t), key))
    decreases t, 1
  {
    SuperDeleteItems(t, key);
    var r := Delete(t, key);
    if r.Ok? {
      var d := SuperDelete(t, key).value;
      if d != Instance(Nil) {
        var t0 := if d.Instance? then UpdateNode(d.tree, Updates(None, None, Some(t.color), Some(t.isRoot))).value
                  else Cast(d, t.color, t.isRoot);
        assert Items(t0) == BaseItems(d);
        var t1 := Recolor(t, key, t0).value;
        var t2 := AbsorbDoubleBlack(t1).value;
        assert r == Rebalance(t2);
      }
    }
  }

  lemma {:induction false} SuperDeleteItems<V>(t: RbTree<V>, key: int)
    requires t.Rb?
    ensures SuperDelete(t, key).Ok? ==>
      BaseItems(SuperDelete(t, key).value) == Bst.Items(Bst.Remove(Strip(t), key))
    decreases t, 0
  {
    if key == t.key {
      if t.left.Rb? && t.right.Rb? {
        DeleteItems(t.right, First(t.right).key);
        SuccessorItems(t);
      }
    } else if key < t.key {
      DeleteChildItems(t.left, key);
    } else {
      DeleteChildItems(t.right, key);
    }
  }

  /** A node with two children gives way to the first node of its right
      subtree, on both representations. */
  lemma SuccessorItems<V>(t: RbTree<V>)
    requires t.Rb? && t.left.Rb? && t.right.Rb?
    requires var n := First(t.right); var r := Delete(t.right, n.key);
      r.Ok? ==> Items(r.value) == Bst.Items(Bst.Remove(Strip(t.right), n.key))
    ensures SuperDelete(t, t.key).Ok? ==>
      BaseItems(SuperDelete(t, t.key).value) == Bst.Items(Bst.Remove(Strip(t), t.key))
  {
    var next := First(t.right);
    FirstStrips(t.right);
    assert Bst.Remove(Strip(t), t.key)
      == Bst.Node(next.key, next.value, Strip(t.left), Bst.Remove(Strip(t.right), next.key));
  }

  /** The leftmost node is the same in both representations. */
  lemma {:induction false} FirstStrips<V>(t: RbTree<V>)
    ensures Bst.First(Strip(t)) == Strip(First(t))
  {
    if t.Rb? && t.left.Rb? {
      FirstStrips(t.left);
    }
  }

  lemma {:induction false} DeleteChildItems<V>(c: RbTree<V>, key: int)
    ensures DeleteChild(c, key).Ok? ==> Items(DeleteChild(c, key).value) == Bst.Items(Bst.Remove(Strip(c), key))
    decreases c, 2
  {
    if c.Rb? {
      DeleteItems(c, key);
    }
  }

  /** After `set`, the key maps to the new value and every other key to what
      it mapped to before; the tree stays a search tree. */
  lemma SetLookup<V>(t: RbTree<V>, key: int, value: V, other: int)
    requires t.Rb? && Bst.IsBst(Strip(t))
    ensures var r := Set(t, key, value);
      r.Ok? ==>
        && Bst.IsBst(Strip(r.value)) && Bst.KeySet(Strip(r.value)) == Bst.KeySet(Strip(t)) + {key}
        && Bst.Lookup(Strip(r.value), key) == Some(value)
        && (other != key ==> Bst.Lookup(Strip(r.value), other) == Bst.Lookup(Strip(t), other))
  {
    var r := Set(t, key, value);
    SetItems(t, key, value);
    if r.Ok? {
      var b := Bst.Set(Strip(t), key, value, Bst.Overwrite);
      Bst.SameItemsSameLookup(b, Strip(r.value));
      Bst.SetLookup(Strip(t), key, value, Bst.Overwrite, other);
    }
  }

  /** After `delete`, the key is absent and every other key maps to what it
      mapped to before; the tree stays a search tree. */
  lemma DeleteLookup<V>(t: RbTree<V>, key: int, other: int)
    requires t.Rb? && Bst.IsBst(Strip(t))
    ensures var r := Delete(t, key);
      r.Ok? ==>
        && Bst.IsBst(Strip(r.value)) && Bst.KeySet(Strip(r.value)) == Bst.KeySet(Strip(t)) - {key}
        && Bst.Lookup(Strip(r.value), key) == None
        && (other != key ==> Bst.Lookup(Strip(r.value), other) == Bst.Lookup(Strip(t), other))
  {
    var r := Delete(t, key);
    DeleteItems(t, key);
    if r.Ok? {
      var b := Bst.Remove(Strip(t), key);
      Bst.SameItemsSameLookup(b, Strip(r.value));
      Bst.RemoveLookup(Strip(t), key, if other == key then key + 1 else other);
    }
  }

  // ---------------------------------------------------------------------
  // The promoted colour (lib/red-black-tree/index.js:233, 248), read from the
  // node rotated down; PromotionAsWritten has the source's reading

  /** With the colour taken before the rotation, promoting a red child
      with a red outer grandchild keeps the black height of a black or
      `+black` node below the root. */
  lemma PromoteLeftKeepsBlackHeight<V>(t: RbTree<V>)
    requires t.Rb? && !t.isRoot && (t.color == Black || t.color == DoubleBlack)
    requires HasColor(t.left, Red) && HasColor(t.left.left, Red)
    ensures F.BlackHeight(ToFunctional(PromoteLeft(t))) == F.BlackHeight(ToFunctional(t))
  {
    var r := PromoteLeft(t);
    var ll := t.left.left;
    assert r.left == UpdateNode(ll, Paint(Black)).value;
    assert F.BlackHeight(ToFunctional(r.left)) == F.BlackHeight(ToFunctional(ll.left)) + 1;
    assert F.BlackHeight(ToFunctional(ll)) == F.BlackHeight(ToFunctional(ll.left));
    assert F.BlackHeight(ToFunctional(t.left)) == F.BlackHeight(ToFunctional(ll));
  }

  lemma PromoteRightKeepsBlackHeight<V>(t: RbTree<V>)
    requires t.Rb? && !t.isRoot && (t.color == Black || t.color == DoubleBlack)
    requires HasColor(t.right, Red) && HasColor(t.right.right, Red)
    ensures F.BlackHeight(ToFunctional(PromoteRight(t))) == F.BlackHeight(ToFunctional(t))
  {
    var r := PromoteRight(t);
    assert r.left == UpdateNode(Rb(t.key, t.value, t.left, t.right.left, t.color, false), Paint(Black)).value;
    assert F.BlackHeight(ToFunctional(r.left)) == F.BlackHeight(ToFunctional(t.left)) + 1;
  }

  // ---------------------------------------------------------------------
  // The worked examples of lib/red-black-tree/index.test.js

  /** A node below the root, holding its key as its value. */
  function N(key: int, c: Color, left: RbTree<int>, right: RbTree<int>): RbTree<int> {
    Rb(key, key, left, right, c, false)
  }

  /** The root, holding its key as its value. */
  function Root(key: int, c: Color, left: RbTree<int>, right: RbTree<int>): RbTree<int> {
    Rb(key, key, left, right, c, true)
  }

  /** Lines 12-19: setting the key of a lone root again replaces its value. */
  lemma ReplaceRootValue()
    ensures Set(New(5, 5), 5, 50) == Ok(Rb(5, 50, Nil, Nil, Black, true))
  {
    var p := Plain(5, 50, Instance(Nil), Instance(Nil));
    assert SuperSet(New(5, 5), 5, 50) == Ok(p);
    assert Cast(Bare(p), Black, true) == Rb(5, 50, Nil, Nil, Black, true);
  }

  /** Lines 21-32: a smaller key hangs as a red left child of the root. */
  lemma HangLeft()
    ensures Set(New(5, 5), 3, 3) == Ok(Root(5, Black, N(3, Red, Nil, Nil), Nil))
  {
    var p := Plain(5, 5, Bare(Plain(3, 3, Instance(Nil), Instance(Nil))), Instance(Nil));
    assert SuperSet(New(5, 5), 3, 3) == Ok(p);
    var n := Root(5, Black, N(3, Red, Nil, Nil), Nil);
    assert Cast(Bare(p), Black, true) == n;
    assert FixReds(n) == Ok(n);
  }

  /** Lines 33-44: a larger key hangs as a red right child of the root. */
  lemma HangRight()
    ensures Set(New(5, 5), 7, 7) == Ok(Root(5, Black, Nil, N(7, Red, Nil, Nil)))
  {
    var p := Plain(5, 5, Instance(Nil), Bare(Plain(7, 7, Instance(Nil), Instance(Nil))));
    assert SuperSet(New(5, 5), 7, 7) == Ok(p);
    var n := Root(5, Black, Nil, N(7, Red, Nil, Nil));
    assert Cast(Bare(p), Black, true) == n;
    assert FixReds(n) == Ok(n);
  }

  /** Lines 45-60: a third node gives a black root over two black children. */
  lemma ThirdNodeFlips()
    ensures Set(Root(5, Black, N(3, Red, Nil, Nil), Nil), 7, 7)
      == Ok(Root(5, Black, N(3, Black, Nil, Nil), N(7, Black, Nil, Nil)))
  {
    var t := Root(5, Black, N(3, Red, Nil, Nil), Nil);
    var p := Plain(5, 5, Instance(N(3, Red, Nil, Nil)), Bare(Plain(7, 7, Instance(Nil), Instance(Nil))));
    assert SuperSet(t, 7, 7) == Ok(p);
    var n := Root(5, Black, N(3, Red, Nil, Nil), N(7, Red, Nil, Nil));
    assert Cast(Bare(p), Black, true) == n;
    assert FixReds(n) == Ok(Flip(n));
  }

  /** Lines 560-564: deleting the only node gives `null`. */
  lemma DeleteOnlyNode()
    ensures Delete(New(7, 7), 7) == Ok(Nil)
  {
    assert SuperDelete(New(7, 7), 7) == Ok(Instance(Nil));
  }

  /** Lines 566-585: deleting the root of a two-node tree leaves its child
      as a black root. */
  lemma DeleteRootOverLeft()
    ensures Delete(Root(7, Black, N(5, Red, Nil, Nil), Nil), 7) == Ok(Root(5, Black, Nil, Nil))
  {
    var t := Root(7, Black, N(5, Red, Nil, Nil), Nil);
    assert SuperDelete(t, 7) == Ok(Instance(N(5, Red, Nil, Nil)));
    var t0 := Root(5, Black, Nil, Nil);
    assert UpdateNode(N(5, Red, Nil, Nil), Updates(None, None, Some(Black), Some(true))).value == t0;
    assert Recolor(t, 7, t0) == Ok(t0);
    assert Rebalance(t0) == Ok(t0);
  }

  lemma DeleteRootOverRight()
    ensures Delete(Root(7, Black, Nil, N(9, Red, Nil, Nil)), 7) == Ok(Root(9, Black, Nil, Nil))
  {
    var t := Root(7, Black, Nil, N(9, Red, Nil, Nil));
    assert SuperDelete(t, 7) == Ok(Instance(N(9, Red, Nil, Nil)));
    var t0 := Root(9, Black, Nil, Nil);
    assert UpdateNode(N(9, Red, Nil, Nil), Updates(None, None, Some(Black), Some(true))).value == t0;
    assert Recolor(t, 7, t0) == Ok(t0);
    assert Rebalance(t0) == Ok(t0);
  }

  /** Lines 586-605: deleting the red child of a two-node tree leaves the
      black root alone. */
  lemma DeleteLeftChild()
    ensures Delete(Root(7, Black, N(5, Red, Nil, Nil), Nil), 5) == Ok(Root(7, Black, Nil, Nil))
  {
    var t := Root(7, Black, N(5, Red, Nil, Nil), Nil);
    assert Delete(N(5, Red, Nil, Nil), 5) == Ok(Nil);
    var p := Plain(7, 7, Instance(Nil), Instance(Nil));
    assert SuperDelete(t, 5) == Ok(Bare(p));
    var t0 := Root(7, Black, Nil, Nil);
    assert Cast(Bare(p), Black, true) == t0;
    assert Recolor(t, 5, t0) == Ok(t0);
    assert Rebalance(t0) == Ok(t0);
  }

  lemma DeleteRightChild()
    ensures Delete(Root(7, Black, Nil, N(9, Red, Nil, Nil)), 9) == Ok(Root(7, Black, Nil, Nil))
  {
    var t := Root(7, Black, Nil, N(9, Red, Nil, Nil));
    assert Delete(N(9, Red, Nil, Nil), 9) == Ok(Nil);
    var p := Plain(7, 7, Instance(Nil), Instance(Nil));
    assert SuperDelete(t, 9) == Ok(Bare(p));
    var t0 := Root(7, Black, Nil, Nil);
    assert Cast(Bare(p), Black, true) == t0;
    assert Recolor(t, 9, t0) == Ok(t0);
    assert Rebalance(t0) == Ok(t0);
  }

  /** The tree of lines 751-778: seven black nodes. */
  function FullTree(): RbTree<int> {
    Root(7, Black, N(5, Black, N(4, Black, Nil, Nil), N(6, Black, Nil, Nil)),
                   N(9, Black, N(8, Black, Nil, Nil), N(10, Black, Nil, Nil)))
  }

  /** Lines 751-760, setting 5 after 7. */
  lemma SecondInsertion()
    ensures Set(New(7, 7), 5, 5) == Ok(Root(7, Black, N(5, Red, Nil, Nil), Nil))
  {
    var p := Plain(7, 7, Bare(Plain(5, 5, Instance(Nil), Instance(Nil))), Instance(Nil));
    assert SuperSet(New(7, 7), 5, 5) == Ok(p);
    var n := Root(7, Black, N(5, Red, Nil, Nil), Nil);
    assert Cast(Bare(p), Black, true) == n;
    assert FixReds(n) == Ok(n);
  }

  /** Lines 751-760, setting 9: the root's two red children turn black. */
  lemma ThirdInsertion()
    ensures Set(Root(7, Black, N(5, Red, Nil, Nil), Nil), 9, 9)
      == Ok(Root(7, Black, N(5, Black, Nil, Nil), N(9, Black, Nil, Nil)))
  {
    var t := Root(7, Black, N(5, Red, Nil, Nil), Nil);
    var p := Plain(7, 7, Instance(N(5, Red, Nil, Nil)), Bare(Plain(9, 9, Instance(Nil), Instance(Nil))));
    assert SuperSet(t, 9, 9) == Ok(p);
    var n := Root(7, Black, N(5, Red, Nil, Nil), N(9, Red, Nil, Nil));
    assert Cast(Bare(p), Black, true) == n;
    assert FixReds(n) == Ok(Flip(n));
  }

  /** Below the root, a smaller key hangs red under a black childless node. */
  lemma HangBelowRoot()
    ensures Set(N(5, Black, Nil, Nil), 4, 4) == Ok(N(5, Black, N(4, Red, Nil, Nil), Nil))
  {
    var p := Plain(5, 5, Bare(Plain(4, 4, Instance(Nil), Instance(Nil))), Instance(Nil));
    assert SuperSet(N(5, Black, Nil, Nil), 4, 4) == Ok(p);
    var n := N(5, Black, N(4, Red, Nil, Nil), Nil);
    assert Cast(Bare(p), Black, false) == n;
    assert FixReds(n) == Ok(n);
  }

  /** Lines 751-760, setting 4. */
  lemma FourthInsertion()
    ensures Set(Root(7, Black, N(5, Black, Nil, Nil), N(9, Black, Nil, Nil)), 4, 4)
      == Ok(Root(7, Black, N(5, Black, N(4, Red, Nil, Nil), Nil), N(9, Black, Nil, Nil)))
  {
    HangBelowRoot();
    var t := Root(7, Black, N(5, Black, Nil, Nil), N(9, Black, Nil, Nil));
    var c := N(5, Black, N(4, Red, Nil, Nil), Nil);
    var p := Plain(7, 7, Instance(c), Instance(N(9, Black, Nil, Nil)));
    assert SuperSet(t, 4, 4) == Ok(p);
    var n := Root(7, Black, c, N(9, Black, Nil, Nil));
    assert Cast(Bare(p), Black, true) == n;
    assert FixReds(n) == Ok(n);
  }

  /** Below the root, a black node over a red child takes a second red
      child and turns red over two black ones. */
  lemma FlipBelowRoot()
    ensures Set(N(5, Black, N(4, Red, Nil, Nil), Nil), 6, 6)
      == Ok(N(5, Red, N(4, Black, Nil, Nil), N(6, Black, Nil, Nil)))
  {
    var t := N(5, Black, N(4, Red, Nil, Nil), Nil);
    var p := Plain(5, 5, Instance(N(4, Red, Nil, Nil)), Bare(Plain(6, 6, Instance(Nil), Instance(Nil))));
    assert SuperSet(t, 6, 6) == Ok(p);
    var n := N(5, Black, N(4, Red, Nil, Nil), N(6, Red, Nil, Nil));
    assert Cast(Bare(p), Black, false) == n;
    assert FixReds(n) == Ok(Flip(n));
  }

  /** Lines 751-760, setting 6. */
  lemma FifthInsertion()
    ensures Set(Root(7, Black, N(5, Black, N(4, Red, Nil, Nil), Nil), N(9, Black, Nil, Nil)), 6, 6)
      == Ok(Root(7, Black, N(5, Red, N(4, Black, Nil, Nil), N(6, Black, Nil, Nil)), N(9, Black, Nil, Nil)))
  {
    FlipBelowRoot();
    var t := Root(7, Black, N(5, Black, N(4, Red, Nil, Nil), Nil), N(9, Black, Nil, Nil));
    var c := N(5, Red, N(4, Black, Nil, Nil), N(6, Black, Nil, Nil));
    var p := Plain(7, 7, Instance(c), Instance(N(9, Black, Nil, Nil)));
    assert SuperSet(t, 6, 6) == Ok(p);
    var n := Root(7, Black, c, N(9, Black, Nil, Nil));
    assert Cast(Bare(p), Black, true) == n;
    assert FixLeft(n) == FixRight(n) == Ok(n);
  }

  /** Below the root, a larger key hangs red under a black childless node. */
  lemma HangRightBelowRoot()
    ensures Set(N(9, Black, Nil, Nil), 8, 8) == Ok(N(9, Black, N(8, Red, Nil, Nil), Nil))
  {
    var p := Plain(9, 9, Bare(Plain(8, 8, Instance(Nil), Instance(Nil))), Instance(Nil));
    assert SuperSet(N(9, Black, Nil, Nil), 8, 8) == Ok(p);
    var n := N(9, Black, N(8, Red, Nil, Nil), Nil);
    assert Cast(Bare(p), Black, false) == n;
    assert FixReds(n) == Ok(n);
  }

  /** Lines 751-760, setting 8. */
  lemma SixthInsertion()
    ensures Set(Root(7, Black, N(5, Red, N(4, Black, Nil, Nil), N(6, Black, Nil, Nil)), N(9, Black, Nil, Nil)), 8, 8)
      == Ok(Root(7, Black, N(5, Red, N(4, Black, Nil, Nil), N(6, Black, Nil, Nil)), N(9, Black, N(8, Red, Nil, Nil), Nil)))
  {
    HangRightBelowRoot();
    var l := N(5, Red, N(4, Black, Nil, Nil), N(6, Black, Nil, Nil));
    var t := Root(7, Black, l, N(9, Black, Nil, Nil));
    var c := N(9, Black, N(8, Red, Nil, Nil), Nil);
    var p := Plain(7, 7, Instance(l), Instance(c));
    assert SuperSet(t, 8, 8) == Ok(p);
    var n := Root(7, Black, l, c);
    assert Cast(Bare(p), Black, true) == n;
    assert FixLeft(n) == FixRight(n) == Ok(n);
  }

  /** Below the root, the second red child of 9 turns 9 red over two black
      children. */
  lemma FlipRightBelowRoot()
    ensures Set(N(9, Black, N(8, Red, Nil, Nil), Nil), 10, 10)
      == Ok(N(9, Red, N(8, Black, Nil, Nil), N(10, Black, Nil, Nil)))
  {
    var t := N(9, Black, N(8, Red, Nil, Nil), Nil);
    var p := Plain(9, 9, Instance(N(8, Red, Nil, Nil)), Bare(Plain(10, 10, Instance(Nil), Instance(Nil))));
    assert SuperSet(t, 10, 10) == Ok(p);
    var n := N(9, Black, N(8, Red, Nil, Nil), N(10, Red, Nil, Nil));
    assert Cast(Bare(p), Black, false) == n;
    assert FixReds(n) == Ok(Flip(n));
  }

  /** Lines 751-760, setting 10: both children of the root are red and
      are flipped black again. */
  lemma SeventhInsertion()
    ensures Set(Root(7, Black, N(5, Red, N(4, Black, Nil, Nil), N(6, Black, Nil, Nil)), N(9, Black, N(8, Red, Nil, Nil), Nil)), 10, 10)
      == Ok(FullTree())
  {
    FlipRightBelowRoot();
    var l := N(5, Red, N(4, Black, Nil, Nil), N(6, Black, Nil, Nil));
    var t := Root(7, Black, l, N(9, Black, N(8, Red, Nil, Nil), Nil));
    var c := N(9, Red, N(8, Black, Nil, Nil), N(10, Black, Nil, Nil));
    var p := Plain(7, 7, Instance(l), Instance(c));
    assert SuperSet(t, 10, 10) == Ok(p);
    var n := Root(7, Black, l, c);
    assert Cast(Bare(p), Black, true) == n;
    assert FixReds(n) == Ok(Flip(n));
  }

  /** Below the root, deleting the leftmost leaf makes its parent `+black`
      and its sibling red. */
  lemma DeleteLeftmostLeaf()
    ensures Delete(N(5, Black, N(4, Black, Nil, Nil), N(6, Black, Nil, Nil)), 4)
      == Ok(N(5, DoubleBlack, Nil, N(6, Red, Nil, Nil)))
  {
    var t := N(5, Black, N(4, Black, Nil, Nil), N(6, Black, Nil, Nil));
    assert Delete(N(4, Black, Nil, Nil), 4) == Ok(Nil);
    var p := Plain(5, 5, Instance(Nil), Instance(N(6, Black, Nil, Nil)));
    assert SuperDelete(t, 4) == Ok(Bare(p));
    var t0 := N(5, Black, Nil, N(6, Black, Nil, Nil));
    assert Cast(Bare(p), Black, false) == t0;
    var t1 := N(5, DoubleBlack, Nil, N(6, Red, Nil, Nil));
    assert Recolor(t, 4, t0) == Ok(t1);
    assert AbsorbDoubleBlack(t1) == Ok(t1);
    assert Rebalance(t1) == Ok(t1);
  }

  /** Lines 751-778: the `+black` node passes its black up to the root,
      which leaves a red right child. */
  lemma DeleteFromFullTree()
    ensures Delete(FullTree(), 4)
      == Ok(Root(7, Black, N(5, Black, Nil, N(6, Red, Nil, Nil)),
                           N(9, Red, N(8, Black, Nil, Nil), N(10, Black, Nil, Nil))))
  {
    DeleteLeftmostLeaf();
    var l := N(5, DoubleBlack, Nil, N(6, Red, Nil, Nil));
    var r := N(9, Black, N(8, Black, Nil, Nil), N(10, Black, Nil, Nil));
    var p := Plain(7, 7, Instance(l), Instance(r));
    assert SuperDelete(FullTree(), 4) == Ok(Bare(p));
    var d := Root(7, Black, l, r);
    assert Cast(Bare(p), Black, true) == d;
    assert Recolor(FullTree(), 4, d) == Ok(d);
    var e := Root(7, Black, N(5, Black, Nil, N(6, Red, Nil, Nil)), N(9, Red, N(8, Black, Nil, Nil), N(10, Black, Nil, Nil)));
    assert AbsorbDoubleBlack(d) == Ok(e);
    assert FixReds(e) == Ok(e);
  }

  /** A red-black tree whose key 3 is a black leaf with a sibling holding
      two red children. */
  function PromotionTree(): RbTree<int> {
    Root(10, Black, N(5, Black, N(3, Black, Nil, Nil), N(7, Black, N(6, Red, Nil, Nil), N(8, Red, Nil, Nil))),
                    N(15, Black, N(12, Black, Nil, Nil), N(18, Black, Nil, Nil)))
  }

  /** `PromotionTree` without 3. */
  function PromotedTree(): RbTree<int> {
    Root(10, Black, N(6, Black, N(5, Black, Nil, Nil), N(7, Black, Nil, N(8, Red, Nil, Nil))),
                    N(15, Black, N(12, Black, Nil, Nil), N(18, Black, Nil, Nil)))
  }

  /** Below the root, deleting 3 leaves 5 `+black` over a red sibling with
      two red children. */
  lemma DeleteBlackLeaf()
    ensures Delete(N(5, Black, N(3, Black, Nil, Nil), N(7, Black, N(6, Red, Nil, Nil), N(8, Red, Nil, Nil))), 3)
      == Rebalance(N(5, DoubleBlack, Nil, N(7, Red, N(6, Red, Nil, Nil), N(8, Red, Nil, Nil))))
  {
    var s := N(7, Black, N(6, Red, Nil, Nil), N(8, Red, Nil, Nil));
    var l := N(5, Black, N(3, Black, Nil, Nil), s);
    assert Delete(N(3, Black, Nil, Nil), 3) == Ok(Nil);
    var p := Plain(5, 5, Instance(Nil), Instance(s));
    assert SuperDelete(l, 3) == Ok(Bare(p));
    var t0 := N(5, Black, Nil, s);
    assert Cast(Bare(p), Black, false) == t0;
    var u := N(5, DoubleBlack, Nil, N(7, Red, N(6, Red, Nil, Nil), N(8, Red, Nil, Nil)));
    assert Recolor(l, 3, t0) == Ok(u);
    assert AbsorbDoubleBlack(u) == Ok(u);
  }

  /** The red subtree is rotated up, and with the colour taken before the
      rotation 6 comes out black. */
  lemma PromoteBelowRoot()
    ensures Rebalance(N(5, DoubleBlack, Nil, N(7, Red, N(6, Red, Nil, Nil), N(8, Red, Nil, Nil))))
      == Ok(N(6, Black, N(5, Black, Nil, Nil), N(7, Black, Nil, N(8, Red, Nil, Nil))))
  {
    var u := N(5, DoubleBlack, Nil, N(7, Red, N(6, Red, Nil, Nil), N(8, Red, Nil, Nil)));
    assert ResolveNegative(u) == Ok(u);
    assert RotateRight(u.right) == Ok(N(6, Red, Nil, N(7, Red, Nil, N(8, Red, Nil, Nil))));
    var v := N(5, DoubleBlack, Nil, N(6, Red, Nil, N(7, Red, Nil, N(8, Red, Nil, Nil))));
    assert FixReds(u) == Ok(PromoteRight(v));
  }

  lemma DeleteBelowRoot()
    ensures Delete(N(5, Black, N(3, Black, Nil, Nil), N(7, Black, N(6, Red, Nil, Nil), N(8, Red, Nil, Nil))), 3)
      == Ok(N(6, Black, N(5, Black, Nil, Nil), N(7, Black, Nil, N(8, Red, Nil, Nil))))
  {
    DeleteBlackLeaf();
    PromoteBelowRoot();
  }

  /** Deleting 3 from `PromotionTree` gives `PromotedTree`. */
  lemma DeleteWithPromotion()
    ensures Delete(PromotionTree(), 3) == Ok(PromotedTree())
  {
    DeleteBelowRoot();
    var d := Rb(10, 10, N(6, Black, N(5, Black, Nil, Nil), N(7, Black, Nil, N(8, Red, Nil, Nil))),
                N(15, Black, N(12, Black, Nil, Nil), N(18, Black, Nil, Nil)), Black, true);
    assert SuperDelete(PromotionTree(), 3) == Ok(Bare(Plain(10, 10, Instance(d.left), Instance(d.right))));
    assert Recolor(PromotionTree(), 3, d) == Ok(d);
    assert AbsorbDoubleBlack(d) == Ok(d);
    assert FixReds(d) == Ok(d);
  }

  /** Both trees of the example are red-black trees. */
  lemma PromotionTreesAreRedBlack()
    ensures IsRedBlack(PromotionTree()) && IsRedBlack(PromotedTree())
  {
    var f := ToFunctional(PromotionTree());
    assert F.Balanced(f.left) && F.Balanced(f.right) && F.NoRedRed(f.left);
    var g := ToFunctional(PromotedTree());
    assert F.Balanced(g.left) && F.Balanced(g.right) && F.NoRedRed(g.left);
  }

  /** Lines 43-50: deleting a black childless child whose sibling is
      missing throws. */
  lemma InvalidTree()
    ensures Delete(Root(5, Black, N(3, Black, Nil, Nil), Nil), 3) == Err("Invalid tree")
  {
    assert Delete(N(3, Black, Nil, Nil), 3) == Ok(Nil);
  }

  /** Lines 606-619 expect a red left child after deleting the root of a
      three-node tree. With the successor removed through the child's own
      `delete`, the key compared at lines 43-72 is the root's and not the
      successor's, so no black is passed on and the result is unbalanced. */
  lemma DeleteRootOfThree()
    ensures Delete(Root(7, Black, N(5, Black, Nil, Nil), N(9, Black, Nil, Nil)), 7)
      == Ok(Rb(9, 9, N(5, Black, Nil, Nil), Nil, Black, true))
  {
    var t := Root(7, Black, N(5, Black, Nil, Nil), N(9, Black, Nil, Nil));
    assert Delete(N(9, Black, Nil, Nil), 9) == Ok(Nil);
    var p := Plain(9, 9, Instance(N(5, Black, Nil, Nil)), Instance(Nil));
    assert SuperDelete(t, 7) == Ok(Bare(p));
    var t0 := Rb(9, 9, N(5, Black, Nil, Nil), Nil, Black, true);
    assert Cast(Bare(p), Black, true) == t0;
    assert Recolor(t, 7, t0) == Ok(t0);
    assert AbsorbDoubleBlack(t0) == Ok(t0);
    assert Rebalance(t0) == Ok(t0);
  }

  /** The tree that comes out has one black node on its left path and none
      on its right. */
  lemma RootOfThreeUnbalanced()
    ensures !F.Balanced(ToFunctional(Rb(9, 9, N(5, Black, Nil, Nil), Nil, Black, true)))
  {
  }
}
