/** The mutable binary search tree of lib/binary-search-tree/index.js: `Node`
    objects whose `left`, `right` and `value` fields are rewired in place,
    and a wrapper object holding the `root`. Each node keeps, as ghost state,
    the set of nodes below it and the subtree it stands for as a persistent
    search tree, so every operation is stated against the persistent one. */
module MutableBinarySearchTree {
  import opened Wrappers
  import Bst = BinarySearchTree

  /** The subtree a possibly-null node stands for. */
  ghost function ModelOf<V>(n: Node?<V>): Bst.Tree<V>
    reads n
  {
    if n == null then Bst.Nil else n.Model
  }

  /** The objects of a possibly-null subtree. */
  ghost function ReprOf<V>(n: Node?<V>): set<Node<V>>
    reads n
  {
    if n == null then {} else n.Repr
  }

  class Node<V> {
    const key: int
    var value: V
    var left: Node?<V>
    var right: Node?<V>
    /** The nodes of this subtree, this one included. */
    ghost var Repr: set<Node<V>>
    /** This subtree as a persistent tree. */
    ghost var Model: Bst.Tree<V>

    /** The subtrees are disjoint and acyclic, and `Model` mirrors the
        fields. */
    ghost predicate Valid()
      reads this, Repr
      decreases Repr
    {
      && this in Repr
      && (left != null ==> left in Repr) && (right != null ==> right in Repr)
      && Repr == {this} + ReprOf(left) + ReprOf(right)
      && (left != null ==> this !in left.Repr && left.Valid())
      && (right != null ==> this !in right.Repr && right.Valid())
      && ReprOf(left) !! ReprOf(right)
      && Model == Bst.Node(key, value, ModelOf(left), ModelOf(right))
    }

    /** Lines 9-14: a node without children. */
    constructor (key: int, value: V)
      ensures Valid() && fresh(Repr)
      ensures Model == Bst.Node(key, value, Bst.Nil, Bst.Nil)
    {
      this.key := key;
      this.value := value;
      left := null;
      right := null;
      Repr := {this};
      Model := Bst.Node(key, value, Bst.Nil, Bst.Nil);
    }

    /** Hangs `l` and `r` below this node, as the assignments to `left`
        and `right` in `set` and `delete` do. */
    method Relink(l: Node?<V>, r: Node?<V>)
      requires l != null ==> l.Valid() && this !in l.Repr
      requires r != null ==> r.Valid() && this !in r.Repr
      requires ReprOf(l) !! ReprOf(r)
      modifies this`left, this`right, this`Repr, this`Model
      ensures left == l && right == r
      ensures Valid() && Repr == {this} + old(ReprOf(l)) + old(ReprOf(r))
      ensures Model == Bst.Node(key, value, old(ModelOf(l)), old(ModelOf(r)))
    {
      left := l;
      right := r;
      Repr := {this} + ReprOf(l) + ReprOf(r);
      Model := Bst.Node(key, value, ModelOf(l), ModelOf(r));
    }

    /** Lines 16-24: follows the search path to the key's value, or `null`. */
    method Get(k: int) returns (r: Option<V>)
      requires Valid()
      ensures r == Bst.Lookup(Model, k)
      decreases Repr
    {
      if k < key {
        if left != null {
          r := left.Get(k);
        } else {
          r := None;
        }
      } else if k == key {
        r := Some(value);
      } else {
        if right != null {
          r := right.Get(k);
        } else {
          r := None;
        }
      }
    }

    /** Lines 26-42: overwrites the value of the key's node, or hangs a new
        leaf where the search path ends. */
    method Set(k: int, v: V)
      requires Valid()
      modifies Repr
      ensures Valid() && fresh(Repr - old(Repr))
      ensures Model == Bst.Set(old(Model), k, v, Bst.Overwrite)
      decreases Repr, 1
    {
      if k < key {
        SetLeft(k, v);
      } else if k == key {
        value := v;
        Model := Bst.Node(key, value, ModelOf(left), ModelOf(right));
      } else {
        SetRight(k, v);
      }
    }

    /** Lines 28-32. */
    method SetLeft(k: int, v: V)
      requires Valid() && k < key
      modifies Repr
      ensures Valid() && fresh(Repr - old(Repr))
      ensures Model == Bst.Set(old(Model), k, v, Bst.Overwrite)
      decreases Repr, 0
    {
      if left != null {
        left.Set(k, v);
        Relink(left, right);
      } else {
        var leaf := new Node(k, v);
        Relink(leaf, right);
      }
    }

    /** Lines 36-40. */
    method SetRight(k: int, v: V)
      requires Valid() && k > key
      modifies Repr
      ensures Valid() && fresh(Repr - old(Repr))
      ensures Model == Bst.Set(old(Model), k, v, Bst.Overwrite)
      decreases Repr, 0
    {
      if right != null {
        right.Set(k, v);
        Relink(left, right);
      } else {
        var leaf := new Node(k, v);
        Relink(left, leaf);
      }
    }

    /** Lines 44-69, with the fall-through at the end of the method (a key
        that is not there) returning the node itself; see `DeleteAsWritten`
        for the method as it reads. Returns the new root of this subtree.
        No node changes its value. */
    method Delete(k: int) returns (r: Node?<V>)
      requires Valid() && Bst.IsBst(Model)
      modifies Repr`left, Repr`right, Repr`Repr, Repr`Model
      ensures r != null ==> r.Valid() && r.Repr <= old(Repr)
      ensures ModelOf(r) == Bst.Remove(old(Model), k)
      decreases Repr, 2
    {
      if k < key && left != null {
        r := DeleteFromLeft(k);
      } else if k == key {
        r := DeleteHere();
      } else if right != null && k > key {
        r := DeleteFromRight(k);
      } else if right != null {
        r := DeletePastLeft(k);
      } else {
        r := this;
      }
    }

    /** Lines 45-47. */
    method DeleteFromLeft(k: int) returns (r: Node?<V>)
      requires Valid() && Bst.IsBst(Model) && k < key && left != null
      modifies Repr`left, Repr`right, Repr`Repr, Repr`Model
      ensures r != null ==> r.Valid() && r.Repr <= old(Repr)
      ensures ModelOf(r) == Bst.Remove(old(Model), k)
      decreases Repr, 0
    {
      ghost var before := Model;
      var l := left.Delete(k);
      Relink(l, right);
      r := this;
      assert Bst.Remove(before, k) == Bst.Node(key, value, Bst.Remove(before.left, k), before.right);
    }

    /** Lines 65-67. */
    method DeleteFromRight(k: int) returns (r: Node?<V>)
      requires Valid() && Bst.IsBst(Model) && k > key && right != null
      modifies Repr`left, Repr`right, Repr`Repr, Repr`Model
      ensures r != null ==> r.Valid() && r.Repr <= old(Repr)
      ensures ModelOf(r) == Bst.Remove(old(Model), k)
      decreases Repr, 0
    {
      ghost var before := Model;
      ghost var nodes := Repr;
      ghost var rightNodes := right.Repr;
      var rest := right.Delete(k);
      assert ReprOf(rest) <= rightNodes <= nodes;
      Relink(left, rest);
      r := this;
      assert Bst.Remove(before, k) == Bst.Node(key, value, before.left, Bst.Remove(before.right, k));
    }

    /** Lines 65-67 reached with a key smaller than this node's for want of
        a left child (the first test of line 45 fails): the search goes on
        to the right, where on a search tree the key cannot be. */
    method DeletePastLeft(k: int) returns (r: Node?<V>)
      requires Valid() && Bst.IsBst(Model) && k < key && left == null && right != null
      modifies Repr`left, Repr`right, Repr`Repr, Repr`Model
      ensures r != null ==> r.Valid() && r.Repr <= old(Repr)
      ensures ModelOf(r) == Bst.Remove(old(Model), k)
      decreases Repr, 0
    {
      ghost var before := Model;
      assert k !in Bst.KeySet(before);
      var rest := right.Delete(k);
      Relink(left, rest);
      r := this;
    }

    /** Lines 48-64: the node holding the key gives way to its only child,
        or, with two children, to the least node of its right subtree. */
    method DeleteHere() returns (r: Node?<V>)
      requires Valid() && Bst.IsBst(Model)
      modifies Repr`left, Repr`right, Repr`Repr, Repr`Model
      ensures r != null ==> r.Valid() && r.Repr <= old(Repr)
      ensures ModelOf(r) == Bst.Remove(old(Model), key)
      decreases Repr, 1
    {
      if left != null && right != null {
        r := ReplaceWithNext();
      } else if left != null {
        r := left;
      } else if right != null {
        r := right;
      } else {
        r := null;
      }
    }

    /** Lines 50-57: the least node of the right subtree is unhooked from
        there and takes over both subtrees. */
    method ReplaceWithNext() returns (r: Node<V>)
      requires Valid() && Bst.IsBst(Model) && left != null && right != null
      modifies Repr`left, Repr`right, Repr`Repr, Repr`Model
      ensures r.Valid() && r.Repr <= old(Repr)
      ensures r.Model == Bst.Remove(old(Model), key)
      decreases Repr, 0
    {
      var l, rt := left, right;
      ghost var nodes := Repr;
      ghost var next := Bst.First(rt.Model);
      assert Bst.Remove(Model, key) == Bst.Node(next.key, next.payload, l.Model, Bst.Remove(rt.Model, next.key));
      var minNode := rt.Least();
      var rest := rt.Delete(minNode.key);
      Absent(rest, minNode);
      minNode.Relink(l, rest);
      r := minNode;
    }

    /** Lines 50-53: follows `left` links to the node with the least key. */
    method Least() returns (m: Node<V>)
      requires Valid()
      ensures m in Repr && m.Valid() && m.left == null
      ensures m.Model == Bst.First(Model)
    {
      m := this;
      while m.left != null
        invariant m in Repr && m.Repr <= Repr && m.Valid()
        invariant Bst.First(m.Model) == Bst.First(Model)
        decreases m.Repr
      {
        m := m.left;
      }
    }

    /** Lines 71-83: the in-order walk. */
    method Entries() returns (s: seq<(int, V)>)
      requires Valid()
      ensures s == Bst.Items(Model)
      decreases Repr
    {
      var l: seq<(int, V)> := [];
      if left != null {
        l := left.Entries();
      }
      var r: seq<(int, V)> := [];
      if right != null {
        r := right.Entries();
      }
      s := l + [(key, value)] + r;
    }

    /** The shape `JSON.stringify` gives a node: its own fields, children
        included. */
    method ToJson() returns (t: Bst.Tree<V>)
      requires Valid()
      ensures t == Model
      decreases Repr
    {
      var l: Bst.Tree<V> := Bst.Nil;
      if left != null {
        l := left.ToJson();
      }
      var r: Bst.Tree<V> := Bst.Nil;
      if right != null {
        r := right.ToJson();
      }
      t := Bst.Node(key, value, l, r);
    }
  }

  /** Lines 86-122: the exported tree, an object holding the root node,
      or `null` while the tree is empty. */
  class Tree<V> {
    var root: Node?<V>
    /** This object and the nodes of the tree. */
    ghost var Repr: set<object>
    /** The tree as a persistent search tree. */
    ghost var Model: Bst.Tree<V>

    ghost predicate Valid()
      reads this, Repr
    {
      && this in Repr
      && (root != null ==> root in Repr && root.Repr <= Repr && root.Valid())
      && Model == ModelOf(root)
      && Bst.IsBst(Model)
    }

    /** Lines 89-91. */
    constructor ()
      ensures Valid() && fresh(Repr)
      ensures Model == Bst.Nil
    {
      root := null;
      Repr := {this};
      Model := Bst.Nil;
    }

    /** Lines 93-95: `null` for an empty tree, else the root's answer. */
    method Get(k: int) returns (r: Option<V>)
      requires Valid()
      ensures r == Bst.Lookup(Model, k)
      ensures r.Some? <==> k in Bst.KeySet(Model)
    {
      if root == null {
        r := None;
      } else {
        r := root.Get(k);
      }
    }

    /** Lines 97-103: an empty tree gets a root node, any other one
        delegates to its root. */
    method Set(k: int, v: V)
      requires Valid()
      modifies Repr
      ensures Valid() && fresh(Repr - old(Repr))
      ensures Model == Bst.Set(old(Model), k, v, Bst.Overwrite)
      ensures Bst.KeySet(Model) == Bst.KeySet(old(Model)) + {k}
    {
      if root == null {
        root := new Node(k, v);
      } else {
        root.Set(k, v);
      }
      Repr := Repr + root.Repr;
      Model := root.Model;
    }

    /** Lines 105-109: the root is replaced by what deleting from it
        returns. */
    method Delete(k: int)
      requires Valid()
      modifies Repr
      ensures Valid() && Repr <= old(Repr)
      ensures Model == Bst.Remove(old(Model), k)
      ensures Bst.KeySet(Model) == Bst.KeySet(old(Model)) - {k}
      ensures k !in Bst.KeySet(old(Model)) ==> Model == old(Model)
    {
      if root != null {
        root := root.Delete(k);
        Repr := {this} + ReprOf(root);
        Model := ModelOf(root);
      }
    }

    /** Lines 111-117: the entries in ascending order of their keys. */
    method Entries() returns (s: seq<(int, V)>)
      requires Valid()
      ensures s == Bst.Items(Model)
      ensures forall i, j :: 0 <= i < j < |s| ==> s[i].0 < s[j].0
    {
      if root == null {
        s := [];
      } else {
        s := root.Entries();
      }
      Bst.BstIffAscending(Model);
      Bst.ItemsHaveKeys(Model);
    }

    /** Lines 119-121: the root node, whose fields nest the whole tree, or
        `null`. */
    method ToJson() returns (t: Bst.Tree<V>)
      requires Valid()
      ensures t == Model
    {
      if root == null {
        t := Bst.Nil;
      } else {
        t := root.ToJson();
      }
    }
  }

  /** A node whose key the subtree of `n` does not hold is not one of its
      nodes. */
  lemma Absent<V>(n: Node?<V>, m: Node<V>)
    requires n != null ==> n.Valid()
    requires m.key !in Bst.KeySet(ModelOf(n))
    ensures m !in ReprOf(n)
    decreases ReprOf(n)
  {
    if n != null {
      Absent(n.left, m);
      Absent(n.right, m);
    }
  }

  // ---------------------------------------------------------------------
  // `delete` as written (lines 44-69)

  /** `Node.delete` exactly as it reads, on the persistent view of a node.
      When neither `key < this.key && this.left`, nor `key === this.key`,
      nor `this.right` holds, the method ends without a `return` and gives
      `undefined`, which the caller stores as an empty subtree. On a key
      that is there it agrees with `Bst.Remove`. */
  function DeleteAsWritten<V>(t: Bst.Tree<V>, k: int): (r: Bst.Tree<V>)
    requires t.Node?
    ensures Bst.IsBst(t) && k in Bst.KeySet(t) ==> r == Bst.Remove(t, k)
    decreases t
  {
    if k < t.key && t.left.Node? then
      Bst.Node(t.key, t.payload, DeleteAsWritten(t.left, k), t.right)
    else if k == t.key then
      if t.left.Node? && t.right.Node? then
        var next := Bst.First(t.right);
        Bst.Node(next.key, next.payload, t.left, DeleteAsWritten(t.right, next.key))
      else if t.left.Node? then t.left
      else t.right
    else if t.right.Node? then
      Bst.Node(t.key, t.payload, t.left, DeleteAsWritten(t.right, k))
    else Bst.Nil
  }

  /** Deleting a key that is not there loses entries: from a lone root the
      whole tree, and from a root with only a right child that child, since
      the search for the smaller key goes right and ends in the missing
      `return`. `Bst.Remove`, which `Node.Delete` follows, leaves both trees
      as they are. */
  lemma DeleteAsWrittenLosesEntries()
    ensures var t := Bst.Node(5, "Five", Bst.Nil, Bst.Nil);
      && Bst.IsBst(t) && 3 !in Bst.KeySet(t)
      && DeleteAsWritten(t, 3) == Bst.Nil && Bst.Remove(t, 3) == t
    ensures var t := Bst.Node(5, "Five", Bst.Nil, Bst.Node(7, "Seven", Bst.Nil, Bst.Nil));
      && Bst.IsBst(t) && 3 !in Bst.KeySet(t)
      && DeleteAsWritten(t, 3) == Bst.Node(5, "Five", Bst.Nil, Bst.Nil) && Bst.Remove(t, 3) == t
  {
  }

  // ---------------------------------------------------------------------
  // The example of lib/binary-search-tree/index.test.js:5-162

  /** The `{ title }` values of the example. */
  datatype Title = One | Three | Five | Seven | Nine

  /** The tree the example builds with keys 5, 3, 7, 1 and 9. */
  function Built(): Bst.Tree<Title> {
    Bst.Node(5, Five,
      Bst.Node(3, Three, Bst.Node(1, One, Bst.Nil, Bst.Nil), Bst.Nil),
      Bst.Node(7, Seven, Bst.Nil, Bst.Node(9, Nine, Bst.Nil, Bst.Nil)))
  }

  /** The entries of `Built()` in order. */
  lemma BuiltEntries()
    ensures Bst.Items(Built()) == [(1, One), (3, Three), (5, Five), (7, Seven), (9, Nine)]
  {
    assert Bst.Items(Built().left) == [(1, One), (3, Three)];
    assert Bst.Items(Built().right) == [(7, Seven), (9, Nine)];
  }

  /** The tree after the first three calls to `set`. */
  function Started(): Bst.Tree<Title> {
    Bst.Node(5, Five, Bst.Node(3, Three, Bst.Nil, Bst.Nil), Bst.Node(7, Seven, Bst.Nil, Bst.Nil))
  }

  /** Lines 6-23. */
  method StartExample() returns (t: Tree<Title>)
    ensures t.Valid() && t.Model == Started()
  {
    t := new Tree();
    t.Set(5, Five);
    assert t.Model == Bst.Node(5, Five, Bst.Nil, Bst.Nil);
    t.Set(3, Three);
    assert t.Model == Bst.Node(5, Five, Bst.Node(3, Three, Bst.Nil, Bst.Nil), Bst.Nil);
    t.Set(7, Seven);
  }

  /** Lines 25-75. */
  method BuildExample(t: Tree<Title>)
    requires t.Valid() && t.Model == Started()
    modifies t.Repr
    ensures t.Valid() && t.Model == Built()
  {
    t.Set(1, One);
    assert t.Model == Bst.Node(5, Five,
      Bst.Node(3, Three, Bst.Node(1, One, Bst.Nil, Bst.Nil), Bst.Nil),
      Bst.Node(7, Seven, Bst.Nil, Bst.Nil));
    t.Set(9, Nine);
  }

  /** Lines 37-48: what the built tree answers. */
  method QueryExample(t: Tree<Title>)
    requires t.Valid() && t.Model == Built()
  {
    var entries := t.Entries();
    BuiltEntries();
    assert entries == [(1, One), (3, Three), (5, Five), (7, Seven), (9, Nine)];
    var found := t.Get(9);
    assert found == Some(Nine);
    found := t.Get(42);
    assert found == None;
  }

  /** Lines 77-131: deleting 5 makes 7, the least key on its right, the new
      root; deleting 9 then unhooks a leaf. */
  method TearDownExample(t: Tree<Title>)
    requires t.Valid() && t.Model == Built()
    modifies t.Repr
    ensures t.Valid()
    ensures t.Model == Bst.Node(7, Seven, Bst.Node(3, Three, Bst.Node(1, One, Bst.Nil, Bst.Nil), Bst.Nil), Bst.Nil)
  {
    t.Delete(5);
    var json := t.ToJson();
    assert json == Bst.Node(7, Seven,
      Bst.Node(3, Three, Bst.Node(1, One, Bst.Nil, Bst.Nil), Bst.Nil),
      Bst.Node(9, Nine, Bst.Nil, Bst.Nil));
    t.Delete(9);
  }

  /** Lines 133-161: deleting 3, 1 and 7 empties the tree. */
  method EmptyExample(t: Tree<Title>)
    requires t.Valid()
    requires t.Model == Bst.Node(7, Seven, Bst.Node(3, Three, Bst.Node(1, One, Bst.Nil, Bst.Nil), Bst.Nil), Bst.Nil)
    modifies t.Repr
    ensures t.Valid() && t.Model == Bst.Nil
  {
    t.Delete(3);
    var json := t.ToJson();
    assert json == Bst.Node(7, Seven, Bst.Node(1, One, Bst.Nil, Bst.Nil), Bst.Nil);
    t.Delete(1);
    t.Delete(7);
    json := t.ToJson();
    assert json == Bst.Nil;
  }
}
