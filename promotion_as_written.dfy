/** `rebalance`, `set` and `delete` of lib/red-black-tree/index.js exactly as
    written. At lines 231-236 and 246-251 the tree is rotated first and the
    new top's colour is then computed from `tree.isRoot` and `tree.color` of
    the ROTATED tree: its top is the red child, so `tree.color === '+black'`
    cannot hold there. `ImmutableRedBlackTree` reads the colour of the node
    rotated down instead; this module keeps the source's reading, proves
    that the two agree everywhere except when a `+black` node below the root
    is rotated down, and exhibits a deletion where the source's reading
    leaves a tree that is not balanced. */
module PromotionAsWritten {
  import opened Wrappers
  import opened Colors
  import opened ImmutableRedBlackTree
  import F = RedBlackTree

  // ---------------------------------------------------------------------
  // The two promotions (lib/red-black-tree/index.js:230-236, 245-251)

  /** Lines 230-236 as written: rotate right, blacken both children and
      colour the top by the rotated tree, whose top is the left child. */
  function PromoteLeftAsWritten<V>(t: RbTree<V>): (r: RbTree<V>)
    requires t.Rb? && t.left.Rb? && t.left.left.Rb?
    ensures r == UpdateNode(PromoteLeft(t), Paint(if t.isRoot || t.left.color == DoubleBlack then Black else Red)).value
    ensures HasColor(t.left, Red) ==> (r == PromoteLeft(t) <==> t.isRoot || t.color != DoubleBlack)
  {
    var w := RotateRight(t).value;
    var l := UpdateNode(w.left, Paint(Black)).value;
    var r := UpdateNode(w.right, Paint(Black)).value;
    UpdateNode(w, Updates(Some(l), Some(r), Some(if w.isRoot || w.color == DoubleBlack then Black else Red), None)).value
  }

  /** Lines 245-251 as written, the mirror image. */
  function PromoteRightAsWritten<V>(t: RbTree<V>): (r: RbTree<V>)
    requires t.Rb? && t.right.Rb? && t.right.right.Rb?
    ensures r == UpdateNode(PromoteRight(t), Paint(if t.isRoot || t.right.color == DoubleBlack then Black else Red)).value
    ensures HasColor(t.right, Red) ==> (r == PromoteRight(t) <==> t.isRoot || t.color != DoubleBlack)
  {
    var w := RotateLeft(t).value;
    var l := UpdateNode(w.left, Paint(Black)).value;
    var r := UpdateNode(w.right, Paint(Black)).value;
    UpdateNode(w, Updates(Some(l), Some(r), Some(if w.isRoot || w.color == DoubleBlack then Black else Red), None)).value
  }

  /** A `+black` 8 below the root over red 7, 6, 5 on its left: as written
      7 comes out red and the leftmost path carries one black less. */
  lemma PromoteLeftAsWrittenLosesBlack()
    ensures var t := N(8, DoubleBlack, N(7, Red, N(6, Red, N(5, Red, Nil, Nil), Nil), Nil), Nil);
      && F.BlackHeight(ToFunctional(t)) == 2
      && F.BlackHeight(ToFunctional(PromoteLeftAsWritten(t))) == 1
      && F.BlackHeight(ToFunctional(PromoteLeft(t))) == 2
  {
    var t := N(8, DoubleBlack, N(7, Red, N(6, Red, N(5, Red, Nil, Nil), Nil), Nil), Nil);
    assert PromoteLeftAsWritten(t) == N(7, Red, N(6, Black, N(5, Red, Nil, Nil), Nil), N(8, Black, Nil, Nil));
    assert PromoteLeft(t) == N(7, Black, N(6, Black, N(5, Red, Nil, Nil), Nil), N(8, Black, Nil, Nil));
  }

  /** A `+black` 5 below the root over red 6, 7, 8 on its right: as written
      6 comes out red and the leftmost path carries one black less. */
  lemma PromoteRightAsWrittenLosesBlack()
    ensures var t := N(5, DoubleBlack, Nil, N(6, Red, Nil, N(7, Red, Nil, N(8, Red, Nil, Nil))));
      && F.BlackHeight(ToFunctional(t)) == 2
      && F.BlackHeight(ToFunctional(PromoteRightAsWritten(t))) == 1
      && F.BlackHeight(ToFunctional(PromoteRight(t))) == 2
  {
    var t := N(5, DoubleBlack, Nil, N(6, Red, Nil, N(7, Red, Nil, N(8, Red, Nil, Nil))));
    assert PromoteRightAsWritten(t) == N(6, Red, N(5, Black, Nil, Nil), N(7, Black, Nil, N(8, Red, Nil, Nil)));
    assert PromoteRight(t) == N(6, Black, N(5, Black, Nil, Nil), N(7, Black, Nil, N(8, Red, Nil, Nil)));
  }

  // ---------------------------------------------------------------------
  // rebalance as written (lib/red-black-tree/index.js:183-257)

  function RebalanceAsWritten<V>(t: RbTree<V>): (r: Result<RbTree<V>>)
    ensures t.Nil? ==> r == Err("Cannot rebalance an empty tree")
    ensures r.Ok? ==> r.value.Rb? && Items(r.value) == Items(t) && Keys(r.value) == Keys(t)
    decreases |Keys(t)|, 2
  {
    if t.Nil? then Err("Cannot rebalance an empty tree")
    else
      var t1 :- ResolveNegativeAsWritten(t);
      FixRedsAsWritten(t1)
  }

  /** Lines 190-214, rebalancing the rotated side with the source's reading. */
  function ResolveNegativeAsWritten<V>(t: RbTree<V>): (r: Result<RbTree<V>>)
    requires t.Rb?
    ensures r.Ok? ==> r.value.Rb? && Items(r.value) == Items(t) && Keys(r.value) == Keys(t)
    ensures r.Ok? ==> r.value.isRoot == t.isRoot
    decreases |Keys(t)|, 1
  {
    if t.color != DoubleBlack then Ok(t)
    else if HasColor(t.left, NegativeBlack) then
      var t3 :- RotateFromLeft(t);
      var nl :- RebalanceAsWritten(t3.left);
      assert Items(nl) == Items(t3.left) && Keys(nl) == Keys(t3.left);
      UpdateNode(t3, Updates(Some(nl), None, None, None))
    else if HasColor(t.right, NegativeBlack) then
      var t3 :- RotateFromRight(t);
      var nr :- RebalanceAsWritten(t3.right);
      assert Items(nr) == Items(t3.right) && Keys(nr) == Keys(t3.right);
      UpdateNode(t3, Updates(None, Some(nr), None, None))
    else Ok(t)
  }

  /** Lines 216-256 with the promotions as written. */
  function FixRedsAsWritten<V>(t: RbTree<V>): (r: Result<RbTree<V>>)
    requires t.Rb?
    ensures r.Ok? && r.value.Rb? && Items(r.value) == Items(t) && Keys(r.value) == Keys(t)
  {
    if t.color != Black && t.color != DoubleBlack then Ok(t)
    else if HasColor(t.left, Red) && HasColor(t.right, Red) then Ok(Flip(t))
    else if HasColor(t.left, Red) then FixLeftAsWritten(t)
    else FixRightAsWritten(t)
  }

  function FixLeftAsWritten<V>(t: RbTree<V>): (r: Result<RbTree<V>>)
    requires t.Rb? && HasColor(t.left, Red)
    ensures r.Ok? && r.value.Rb? && Items(r.value) == Items(t) && Keys(r.value) == Keys(t)
  {
    var u := if HasColor(t.left.right, Red) then UpdateNode(t, Updates(Some(RotateLeft(t.left).value), None, None, None)).value else t;
    if HasColor(u.left.left, Red) then Ok(PromoteLeftAsWritten(u)) else FixRightAsWritten(u)
  }

  function FixRightAsWritten<V>(t: RbTree<V>): (r: Result<RbTree<V>>)
    requires t.Rb?
    ensures r.Ok? && r.value.Rb? && Items(r.value) == Items(t) && Keys(r.value) == Keys(t)
  {
    if !HasColor(t.left, Red) && HasColor(t.right, Red) then
      var u := if HasColor(t.right.left, Red) then UpdateNode(t, Updates(None, Some(RotateRight(t.right).value), None, None)).value else t;
      if HasColor(u.right.right, Red) then Ok(PromoteRightAsWritten(u)) else Ok(u)
    else Ok(t)
  }

  /** A node that is not `+black`, or is the root. */
  predicate ReadsAlike<V>(t: RbTree<V>)
    requires t.Rb?
  {
    t.isRoot || t.color != DoubleBlack
  }

  lemma FixLeftAsWrittenAgrees<V>(t: RbTree<V>)
    requires t.Rb? && HasColor(t.left, Red) && ReadsAlike(t)
    ensures FixLeftAsWritten(t) == FixLeft(t)
  {
    var u := if HasColor(t.left.right, Red) then UpdateNode(t, Updates(Some(RotateLeft(t.left).value), None, None, None)).value else t;
    assert HasColor(u.left, Red) && u.isRoot == t.isRoot && u.color == t.color;
    if HasColor(u.left.left, Red) {
      assert PromoteLeftAsWritten(u) == PromoteLeft(u);
    } else {
      FixRightAsWrittenAgrees(u);
    }
  }

  lemma FixRightAsWrittenAgrees<V>(t: RbTree<V>)
    requires t.Rb? && ReadsAlike(t)
    ensures FixRightAsWritten(t) == FixRight(t)
  {
    if !HasColor(t.left, Red) && HasColor(t.right, Red) {
      var u := if HasColor(t.right.left, Red) then UpdateNode(t, Updates(None, Some(RotateRight(t.right).value), None, None)).value else t;
      assert HasColor(u.right, Red) && u.isRoot == t.isRoot && u.color == t.color;
      if HasColor(u.right.right, Red) {
        assert PromoteRightAsWritten(u) == PromoteRight(u);
      }
    }
  }

  /** Away from a `+black` node below the root, the source's red fixing is
      the model's. */
  lemma FixRedsAsWrittenAgrees<V>(t: RbTree<V>)
    requires t.Rb? && ReadsAlike(t)
    ensures FixRedsAsWritten(t) == FixReds(t)
  {
    if t.color != Black && t.color != DoubleBlack {
    } else if HasColor(t.left, Red) && HasColor(t.right, Red) {
    } else if HasColor(t.left, Red) {
      FixLeftAsWrittenAgrees(t);
    } else {
      FixRightAsWrittenAgrees(t);
    }
  }

  /** Away from a `+black` node below the root, the source's `rebalance` is
      the model's: the nested `rebalance` of lines 201 and 212 is called on
      a node just painted black. */
  lemma {:induction false} RebalanceAsWrittenAgrees<V>(t: RbTree<V>)
    requires t.Rb? && ReadsAlike(t)
    ensures RebalanceAsWritten(t) == Rebalance(t)
    decreases |Keys(t)|
  {
    if t.color != DoubleBlack {
      FixRedsAsWrittenAgrees(t);
    } else if HasColor(t.left, NegativeBlack) {
      var a := RotateFromLeft(t);
      if a.Ok? {
        var t3 := a.value;
        assert |Keys(t3.left)| < |Keys(t3)| == |Keys(t)|;
        RebalanceAsWrittenAgrees(t3.left);
        var b := Rebalance(t3.left);
        if b.Ok? {
          var t4 := UpdateNode(t3, Updates(Some(b.value), None, None, None)).value;
          FixRedsAsWrittenAgrees(t4);
        }
      }
    } else if HasColor(t.right, NegativeBlack) {
      var a := RotateFromRight(t);
      if a.Ok? {
        var t3 := a.value;
        assert |Keys(t3.right)| < |Keys(t3)| == |Keys(t)|;
        RebalanceAsWrittenAgrees(t3.right);
        var b := Rebalance(t3.right);
        if b.Ok? {
          var t4 := UpdateNode(t3, Updates(None, Some(b.value), None, None)).value;
          FixRedsAsWrittenAgrees(t4);
        }
      }
    } else {
      FixRedsAsWrittenAgrees(t);
    }
  }

  // ---------------------------------------------------------------------
  // set as written (lib/red-black-tree/index.js:27-29)

  function SetAsWritten<V>(t: RbTree<V>, key: int, value: V): (r: Result<RbTree<V>>)
    requires t.Rb?
    ensures r.Ok? ==> r.value.Rb?
    decreases t, 1
  {
    var p :- SuperSetAsWritten(t, key, value);
    RebalanceAsWritten(Cast(Bare(p), t.color, t.isRoot))
  }

  function SuperSetAsWritten<V>(t: RbTree<V>, key: int, value: V): (r: Result<Plain<V>>)
    requires t.Rb?
    ensures r.Ok? ==> r.value.key == t.key && r.value.value == (if key == t.key then value else t.value)
    decreases t, 0
  {
    if key == t.key then Ok(Plain(key, value, Instance(t.left), Instance(t.right)))
    else if key < t.key then
      var l :- SetChildAsWritten(t.left, key, value);
      Ok(Plain(t.key, t.value, l, Instance(t.right)))
    else
      var r :- SetChildAsWritten(t.right, key, value);
      Ok(Plain(t.key, t.value, Instance(t.left), r))
  }

  function SetChildAsWritten<V>(c: RbTree<V>, key: int, value: V): (r: Result<Base<V>>)
    ensures c.Nil? ==> r == Ok(Bare(Plain(key, value, Instance(Nil), Instance(Nil))))
    decreases c, 2
  {
    if c.Nil? then Ok(Bare(Plain(key, value, Instance(Nil), Instance(Nil))))
    else
      var n :- SetAsWritten(c, key, value);
      Ok(Instance(n))
  }

  /** No node is `+black`. */
  predicate NoDoubleBlack<V>(t: RbTree<V>) {
    t.Nil? || (t.color != DoubleBlack && NoDoubleBlack(t.left) && NoDoubleBlack(t.right))
  }

  /** A red-black tree has only red and black nodes. */
  lemma {:induction false} LegalHasNoDoubleBlack<V>(t: RbTree<V>)
    requires F.Legal(ToFunctional(t))
    ensures NoDoubleBlack(t)
  {
    if t.Rb? {
      LegalHasNoDoubleBlack(t.left);
      LegalHasNoDoubleBlack(t.right);
    }
  }

  /** On a tree without `+black` nodes, which every red-black tree is, the
      source's `set` is the model's: every node it rebalances keeps its own
      colour. */
  lemma {:induction false} SetAsWrittenAgrees<V>(t: RbTree<V>, key: int, value: V)
    requires t.Rb? && NoDoubleBlack(t)
    ensures SetAsWritten(t, key, value) == Set(t, key, value)
    decreases t, 1
  {
    SuperSetAsWrittenAgrees(t, key, value);
    var p := SuperSet(t, key, value);
    if p.Ok? {
      RebalanceAsWrittenAgrees(Cast(Bare(p.value), t.color, t.isRoot));
    }
  }

  lemma {:induction false} SuperSetAsWrittenAgrees<V>(t: RbTree<V>, key: int, value: V)
    requires t.Rb? && NoDoubleBlack(t)
    ensures SuperSetAsWritten(t, key, value) == SuperSet(t, key, value)
    decreases t, 0
  {
    if key < t.key {
      SetChildAsWrittenAgrees(t.left, key, value);
    } else if key > t.key {
      SetChildAsWrittenAgrees(t.right, key, value);
    }
  }

  lemma {:induction false} SetChildAsWrittenAgrees<V>(c: RbTree<V>, key: int, value: V)
    requires NoDoubleBlack(c)
    ensures SetChildAsWritten(c, key, value) == SetChild(c, key, value)
    decreases c, 2
  {
    if c.Rb? {
      SetAsWrittenAgrees(c, key, value);
    }
  }

  lemma SetOnRedBlackAgrees<V>(t: RbTree<V>, key: int, value: V)
    requires IsRedBlack(t)
    ensures SetAsWritten(t, key, value) == Set(t, key, value)
  {
    LegalHasNoDoubleBlack(t);
    SetAsWrittenAgrees(t, key, value);
  }

  // ---------------------------------------------------------------------
  // delete as written (lib/red-black-tree/index.js:31-94)

  function DeleteAsWritten<V>(t: RbTree<V>, key: int): (r: Result<RbTree<V>>)
    requires t.Rb?
    ensures key == t.key && t.left.Nil? && t.right.Nil? ==> r == Ok(Nil)
    decreases t, 1
  {
    var d :- SuperDeleteAsWritten(t, key);
    if d == Instance(Nil) then Ok(Nil)
    else
      var t0 := if d.Instance? then UpdateNode(d.tree, Updates(None, None, Some(t.color), Some(t.isRoot))).value
                else Cast(d, t.color, t.isRoot);
      var t1 :- Recolor(t, key, t0);
      var t2 :- AbsorbDoubleBlack(t1);
      RebalanceAsWritten(t2)
  }

  function SuperDeleteAsWritten<V>(t: RbTree<V>, key: int): (r: Result<Base<V>>)
    requires t.Rb?
    ensures r.Ok? && key != t.key ==> r.value.Bare? && r.value.node.key == t.key && r.value.node.value == t.value
    decreases t, 0
  {
    if key == t.key then
      if t.left.Rb? && t.right.Rb? then
        var next := First(t.right);
        var r :- DeleteAsWritten(t.right, next.key);
        Ok(Bare(Plain(next.key, next.value, Instance(t.left), Instance(r))))
      else if t.left.Rb? then Ok(Instance(t.left))
      else Ok(Instance(t.right))
    else if key < t.key then
      var l :- DeleteChildAsWritten(t.left, key);
      Ok(Bare(Plain(t.key, t.value, Instance(l), Instance(t.right))))
    else
      var r :- DeleteChildAsWritten(t.right, key);
      Ok(Bare(Plain(t.key, t.value, Instance(t.left), Instance(r))))
  }

  function DeleteChildAsWritten<V>(c: RbTree<V>, key: int): (r: Result<RbTree<V>>)
    ensures c.Nil? ==> r == Ok(Nil)
    decreases c, 2
  {
    if c.Nil? then Ok(Nil) else DeleteAsWritten(c, key)
  }

  /** Below the root, deleting 3 leaves 5 `+black` over a red sibling with
      two red children; as written the rotated-up 6 comes out red. */
  lemma DeleteBelowRootAsWritten()
    ensures DeleteAsWritten(N(5, Black, N(3, Black, Nil, Nil), N(7, Black, N(6, Red, Nil, Nil), N(8, Red, Nil, Nil))), 3)
      == Ok(N(6, Red, N(5, Black, Nil, Nil), N(7, Black, Nil, N(8, Red, Nil, Nil))))
  {
    var s := N(7, Black, N(6, Red, Nil, Nil), N(8, Red, Nil, Nil));
    var l := N(5, Black, N(3, Black, Nil, Nil), s);
    assert DeleteAsWritten(N(3, Black, Nil, Nil), 3) == Ok(Nil);
    var p := Plain(5, 5, Instance(Nil), Instance(s));
    assert SuperDeleteAsWritten(l, 3) == Ok(Bare(p));
    var t0 := N(5, Black, Nil, s);
    assert Cast(Bare(p), Black, false) == t0;
    var u := N(5, DoubleBlack, Nil, N(7, Red, N(6, Red, Nil, Nil), N(8, Red, Nil, Nil)));
    assert Recolor(l, 3, t0) == Ok(u);
    assert AbsorbDoubleBlack(u) == Ok(u);
    assert ResolveNegativeAsWritten(u) == Ok(u);
    assert RotateRight(u.right) == Ok(N(6, Red, Nil, N(7, Red, Nil, N(8, Red, Nil, Nil))));
    var v := N(5, DoubleBlack, Nil, N(6, Red, Nil, N(7, Red, Nil, N(8, Red, Nil, Nil))));
    assert FixRedsAsWritten(u) == Ok(PromoteRightAsWritten(v));
    PromoteRightAsWrittenLosesBlack();
  }

  /** What the source leaves after deleting 3 from `PromotionTree`. */
  function SourcePromotedTree(): RbTree<int> {
    Root(10, Black, N(6, Red, N(5, Black, Nil, Nil), N(7, Black, Nil, N(8, Red, Nil, Nil))),
                    N(15, Black, N(12, Black, Nil, Nil), N(18, Black, Nil, Nil)))
  }

  lemma DeletePromotionAsWritten()
    ensures DeleteAsWritten(PromotionTree(), 3) == Ok(SourcePromotedTree())
  {
    DeleteBelowRootAsWritten();
    var d := SourcePromotedTree();
    assert SuperDeleteAsWritten(PromotionTree(), 3) == Ok(Bare(Plain(10, 10, Instance(d.left), Instance(d.right))));
    assert Recolor(PromotionTree(), 3, d) == Ok(d);
    assert AbsorbDoubleBlack(d) == Ok(d);
    assert FixRedsAsWritten(d) == Ok(d);
  }

  /** The left side of `SourcePromotedTree` carries one black, its right
      side two. */
  lemma SourcePromotedTreeUnbalanced()
    ensures !F.Balanced(ToFunctional(SourcePromotedTree()))
  {
    var f := ToFunctional(SourcePromotedTree());
    assert F.BlackHeight(f.left) == 1 && F.BlackHeight(f.right) == 2;
  }

  /** As written, deleting 3 from the red-black tree `PromotionTree` gives a
      tree that is not balanced, where the model gives the red-black
      `PromotedTree`. */
  lemma DeleteAsWrittenUnbalances()
    ensures IsRedBlack(PromotionTree())
    ensures DeleteAsWritten(PromotionTree(), 3) == Ok(SourcePromotedTree())
    ensures !F.Balanced(ToFunctional(SourcePromotedTree()))
    ensures Delete(PromotionTree(), 3) == Ok(PromotedTree()) && IsRedBlack(PromotedTree())
  {
    PromotionTreesAreRedBlack();
    DeleteWithPromotion();
    DeletePromotionAsWritten();
    SourcePromotedTreeUnbalanced();
  }
}
