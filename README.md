# ikeru in Dafny

A Dafny model of the core of `ikeru`, a JavaScript library of persistent ordered
maps and time-series utilities, with proofs of what the code promises.

- **Persistent binary search tree** (`binary-search-tree/index.js`, module
  `BinarySearchTree`). A datatype with a payload standing for the node's other
  fields. `entries` and `traces` are sequences; `get`, `set`, `remove`, `first`
  and the two rotations are functions. Their contracts cover the key set, the
  search-tree order and map semantics.
- **Functional red-black tree** (`red-black-tree/index.js`, module `RedBlackTree`,
  with the four colours in module `Colors`). It is built on the search-tree
  datatype with a coloured payload. `set` and `remove` are proved to store what the
  plain search tree stores. `set` is proved to keep the red-black invariants. The
  structural invariants are proved to imply the tests' trace-based check.
- **Immutable red-black tree class** (`lib/red-black-tree/index.js`, module
  `ImmutableRedBlackTree`). Each instance carries an `isRoot` flag. The parent
  class's `set`/`delete` are modelled as the persistent search tree's, rebuilding
  nodes as plain parent-class nodes, which `cast` turns back into instances. Its
  rebalancing reads the promoted colour from the node rotated down (see
  Findings), and with that reading it is proved to agree with the functional
  tree's. Also proved: map semantics, and that `set` keeps a red-black tree a
  red-black tree.
- **The class's rebalancing as written** (module `PromotionAsWritten`). `rebalance`,
  `set` and `delete` read the promoted colour after the rotation, as the source
  does. They are proved to agree with the module above except where a `+black`
  node below the root is rotated down. So `set` on a red-black tree is the same
  in both. A `delete` is exhibited where the source's reading leaves an
  unbalanced tree.
- **Mutable binary search tree** (`lib/binary-search-tree/index.js`, module
  `MutableBinarySearchTree`). The `Node` and wrapper classes rewire their fields
  in place. Each node keeps a ghost footprint and the persistent tree it stands
  for, and every method is specified against the persistent tree's operations.
- **Tournament tree and k-way merge**:
  - `time-series/merge/tournament-tree/next.js` is module `TournamentTree`.
  - The two `initialize.js` builders are module `TournamentInitialize`.
  - The driver `time-series/merge/index.js` is module `SeriesMerge`.

  The merge, with the corrected `next` (see Findings), is proved to output every
  point exactly once, in time order when every series is, and to return a single
  series unchanged.
- **Time-series transforms**: `window`, `downsample`, `interpolate`, `join` and
  `extrapolate`, in modules `SeriesWindow`, `SeriesDownsample`, `SeriesInterpolate`,
  `SeriesJoin` and `SeriesExtrapolate`.
  - Times are whole numbers, an abstraction of `Date#valueOf()` (module `TimeSeries`).
  - Callbacks are function parameters.
  - Every loop of the source is a Dafny method, proved against a function that
    states the result.

Most exceptions the source throws on its own (a rotation without the needed
child, `addBlack` on `+black`, `updateNode(null)`, `Invalid tree`) are `Err` values
with the source's message, not preconditions. Three departures are listed under
"Left out":
- the search tree's rotations on an empty tree;
- `TournamentInitialize.InitializeSquared`;
- `MutableBinarySearchTree.Node.Delete`.

## Model

| member | source | states |
|---|---|---|
| BinarySearchTree.Entries | binary-search-tree/index.js:9-16 | the nodes in in-order, node i holding the i-th key-payload pair of the tree |
| BinarySearchTree.EntriesAscending | binary-search-tree/index.js:9-16 | on a search tree the entries come out in strictly ascending key order |
| BinarySearchTree.BstIffAscending | binary-search-tree/index.js:9-16 | a tree is a search tree exactly when its in-order keys are strictly ascending |
| BinarySearchTree.TracesArePaths | binary-search-tree/index.js:18-37 | a path is listed by `traces` exactly when it runs from the root through child links to a node with no children |
| BinarySearchTree.TracesSplit | binary-search-tree/index.js:24-36 | a node's traces are its own one-node path when it has no children, then the paths through its left child, then those through its right child |
| BinarySearchTree.TracesLeftToRight | binary-search-tree/index.js:18-37 | the end nodes of the traces, in order, are the childless nodes in in-order |
| BinarySearchTree.Get | binary-search-tree/index.js:39-47 | the node found holds the key and is a node of the tree; on a search tree a node is found exactly when the key is present |
| BinarySearchTree.LookupItems | binary-search-tree/index.js:39-47 | on a search tree `get` finds payload p under key k exactly when (k, p) is an in-order item |
| BinarySearchTree.Set | binary-search-tree/index.js:49-58 | the result is a node, its key set is the old one plus the key, and it is a search tree when the input is |
| BinarySearchTree.SetNode | binary-search-tree/index.js:54-55 | an existing key's node keeps its children and merges in the payload; on a search tree a new key gets a fresh childless node |
| BinarySearchTree.SetLookup | binary-search-tree/index.js:49-58 | after `set`, the key maps to the merged (or new) payload and every other key to its old payload |
| BinarySearchTree.SetOther | binary-search-tree/index.js:56-57 | `set` leaves the node of every other key present or absent as before, with the same payload |
| BinarySearchTree.First | binary-search-tree/index.js:78-82 | the leftmost node: the first entry, with no left child; on a search tree its key is the least key |
| BinarySearchTree.GetFirst | binary-search-tree/index.js:78-82 | looking up the first node's key finds that node |
| BinarySearchTree.Remove | binary-search-tree/index.js:60-76 | an absent key leaves the tree unchanged; on a search tree the result is a search tree whose key set is the old one minus the key |
| BinarySearchTree.RemoveTwoChildren | binary-search-tree/index.js:66-72 | a node with two children is replaced by the first node of its right subtree, which is removed from there |
| BinarySearchTree.RemoveLookup | binary-search-tree/index.js:60-76 | after `remove` the key maps to nothing and every other key to its old payload |
| BinarySearchTree.RotateRight | binary-search-tree/index.js:84-91 | succeeds exactly when there is a left child (else the source's error), keeping the in-order items and keys |
| BinarySearchTree.RotateLeft | binary-search-tree/index.js:93-100 | succeeds exactly when there is a right child (else the source's error), keeping the in-order items and keys |
| BinarySearchTree.RotationsInverse | binary-search-tree/index.js:84-100 | each rotation undoes the other |
| BinarySearchTree.RotationKeepsOrder | binary-search-tree/index.js:84-100 | a rotation keeps the key set, and the result is a search tree exactly when the input is |
| Colors.AddBlack | red-black-tree/index.js:242-252 | defined on every colour but `+black`, and adds one to the black weight |
| Colors.SubtractBlack | red-black-tree/index.js:254-264 | defined on every colour but `-black`, and takes one off the black weight |
| Colors.ColorStepsInverse | red-black-tree/index.js:242-264 | `addBlack` and `subtractBlack` undo each other wherever defined |
| Colors.Absorb | red-black-tree/index.js:87-91 | fails exactly on a `+black` node below the root; black at the root; below it one black weight more |
| Colors.Demote | red-black-tree/index.js:206 | fails exactly on a `-black` node below the root; black at the root; below it one black weight less |
| RedBlackTree.Redden | red-black-tree/index.js:143-145 | empty stays empty; a node gets colour red with fields and children kept |
| RedBlackTree.Blacken | red-black-tree/index.js:147-149 | empty stays empty; a node gets colour black with fields and children kept |
| RedBlackTree.SubtractAt | red-black-tree/index.js:93-96 | fails exactly on a `-black` node; otherwise the node with `subtractBlack` of its colour, empty for empty |
| RedBlackTree.RotationContents | binary-search-tree/index.js:84-100 | the search-tree rotations keep the in-order contents of a coloured tree |
| RedBlackTree.RotateAwayLeft | red-black-tree/index.js:158-167 | the double rotation at a `-black` left child keeps the contents and keys |
| RedBlackTree.RotateAwayRight | red-black-tree/index.js:168-177 | the mirror-image double rotation keeps the contents and keys |
| RedBlackTree.Rebalance | red-black-tree/index.js:151-240 | whatever it rotates or recolours, a successful result is a node with the same contents and keys |
| RedBlackTree.FixReds | red-black-tree/index.js:181-239 | the red-red repair keeps the contents and keys |
| RedBlackTree.Flip | red-black-tree/index.js:182-194 | both red children turn black and the node turns red, or black at the root; contents kept |
| RedBlackTree.FixLeft | red-black-tree/index.js:196-215 | the left-hand repair keeps the contents and keys |
| RedBlackTree.FixRight | red-black-tree/index.js:217-236 | the right-hand repair keeps the contents and keys |
| RedBlackTree.PromoteLeft | red-black-tree/index.js:205-213 | defined exactly when the demoted colour is; the new top takes it and both children turn black; contents kept |
| RedBlackTree.PromoteRight | red-black-tree/index.js:226-234 | the mirror image of `PromoteLeft` |
| RedBlackTree.Set | red-black-tree/index.js:14-39 | a successful `set` gives a node; an empty tree gives a new leaf, black at the root and red elsewhere; the key's own node keeps its colour and children and takes the merged fields |
| RedBlackTree.Remove | red-black-tree/index.js:41-141 | an empty tree, or the key's own childless node, gives `null`, and only those do; see RemoveMatchesBst and RemoveLookup for the rest |
| RedBlackTree.RemoveStep | red-black-tree/index.js:52-118 | a successful step gives a node; the key's node with one child is replaced by that child in the node's colour |
| RedBlackTree.RemoveAbsorbs | red-black-tree/index.js:120-138 | a `+black` child after the step moves the black up before the rebalance: the removal is the rebalance of the node recoloured with `addBlack` (black at the root) over both children recoloured with `subtractBlack`, and it fails when one of those colour steps has no result |
| RedBlackTree.SetMatchesBst | red-black-tree/index.js:14-39 | `set` leaves the same in-order contents as the plain search tree's `set` on the uncoloured tree |
| RedBlackTree.RemoveMatchesBst | red-black-tree/index.js:41-141 | `remove` leaves the same in-order contents as the plain search tree's `remove` |
| RedBlackTree.RemoveStepMatchesBst | red-black-tree/index.js:52-118 | the replacement step of `remove` agrees with the plain tree's removal |
| RedBlackTree.LeftStepMatchesBst | red-black-tree/index.js:78-97 | removal on the left, with the sibling recoloured, agrees with the plain tree |
| RedBlackTree.RightStepMatchesBst | red-black-tree/index.js:98-117 | removal on the right, with the sibling recoloured, agrees with the plain tree |
| RedBlackTree.SuccessorMatchesBst | red-black-tree/index.js:53-70 | a node with two children takes the first node of its right subtree, as in the plain tree |
| RedBlackTree.StripFirst | red-black-tree/index.js:54 | `bst.first` finds the same node with or without colours |
| RedBlackTree.SetLookup | red-black-tree/index.js:14-39 | map semantics of `set` on a search tree: still a search tree, the key maps to the merged (or new) value, others unchanged |
| RedBlackTree.RemoveLookup | red-black-tree/index.js:41-141 | map semantics of `remove` on a search tree: still a search tree without the key, the key maps to nothing, others unchanged |
| RedBlackTree.FlipRepairs | red-black-tree/index.js:182-194 | at a black node with two red children the flip repairs the subtree |
| RedBlackTree.PromoteLeftRepairs | red-black-tree/index.js:205-213 | at a black node with a red left child over a red child, the rotation repairs the subtree |
| RedBlackTree.PromoteRightRepairs | red-black-tree/index.js:226-234 | the mirror image of `PromoteLeftRepairs` |
| RedBlackTree.FixLeftRepairs | red-black-tree/index.js:196-215 | the left-hand repair of a black node after an insertion on its left repairs the subtree |
| RedBlackTree.FixRightRepairs | red-black-tree/index.js:217-236 | the right-hand repair of a black node after an insertion on its right repairs the subtree |
| RedBlackTree.FixRedsRepairs | red-black-tree/index.js:181-239 | a black node whose children come out of an insertion is repaired: legal colours, same black height, no red-red pair |
| RedBlackTree.SetInserted | red-black-tree/index.js:14-39 | below the root `set` keeps the colours legal and the black height, with a red-red pair at most at the top |
| RedBlackTree.SetKeepsRedBlack | red-black-tree/index.js:14-39 | `set` from the root keeps a red-black tree red-black: black root, legal colours, balanced, no red-red pair |
| RedBlackTree.BlackTopRepaired | red-black-tree/index.js:151-239 | at the black root with a child fresh from `set`, `rebalance` comes down to the red-red repair, which repairs it |
| RedBlackTree.PathWeightOfTrace | red-black-tree/index.test.js:912-945 | on a balanced tree every trace carries the tree's black height |
| RedBlackTree.NoRedRedOnTrace | red-black-tree/index.test.js:912-945 | without a red-red pair, no trace has two reds in a row |
| RedBlackTree.TracesOfRedBlack | red-black-tree/index.test.js:912-945 | the tests' trace checks hold of every balanced red-red-free tree |
| RedBlackTree.FirstInsertions | red-black-tree/index.test.js:861-890 | 7 gives a black root and 5 then hangs red on its left |
| RedBlackTree.ThirdInsertion | red-black-tree/index.test.js:861-890 | inserting 9 flips the red pair into three black nodes |
| RedBlackTree.FourthInsertion | red-black-tree/index.test.js:861-890 | 4 hangs red below the black 5 |
| RedBlackTree.FifthInsertion | red-black-tree/index.test.js:861-890 | 6 makes 5 red over black 4 and 6 |
| RedBlackTree.SixthInsertion | red-black-tree/index.test.js:861-890 | 8 hangs red below the black 9 |
| RedBlackTree.SeventhInsertion | red-black-tree/index.test.js:861-890 | 10 gives the seven-node tree the test draws |
| RedBlackTree.InsertionScenario | red-black-tree/index.test.js:861-890 | inserting 7, 5, 9, 4, 6, 8, 10 gives the tree the test draws |
| RedBlackTree.RemoveScenario | red-black-tree/index.test.js:861-890 | then removing 4 gives root 7 black, 5 black over a red 6, and 9 red over black 8 and 10 |
| ImmutableRedBlackTree.New | lib/red-black-tree/index.js:14-25 | a new tree has no children, is black and is the root |
| ImmutableRedBlackTree.Cast | lib/red-black-tree/index.js:97-112 | an instance is kept; a plain node becomes an instance with the given colour and root flag; items kept |
| ImmutableRedBlackTree.CastPlainTree | lib/red-black-tree/index.js:97-112 | casting a wholly plain tree colours every node below the top red and clears its root flag |
| ImmutableRedBlackTree.UpdateNode | lib/red-black-tree/index.js:114-135 | throws exactly on `null`; otherwise replaces exactly the named fields and copies the rest |
| ImmutableRedBlackTree.SubtractAt | lib/red-black-tree/index.js:55-57 | fails exactly on a `-black` node; items kept |
| ImmutableRedBlackTree.RotateLeft | lib/red-black-tree/index.js:137-146 | succeeds exactly with a right child (else the source's message); the new top takes the root flag, the old top loses it; items kept |
| ImmutableRedBlackTree.RotateRight | lib/red-black-tree/index.js:148-157 | the mirror image of `RotateLeft` |
| ImmutableRedBlackTree.RotationsInverse | lib/red-black-tree/index.js:137-157 | each rotation undoes the other when the node brought up did not claim to be the root |
| ImmutableRedBlackTree.Rebalance | lib/red-black-tree/index.js:183-257 | throws on an empty tree; when it succeeds, a node with the same items and keys |
| ImmutableRedBlackTree.ResolveNegative | lib/red-black-tree/index.js:190-214 | resolving a `-black` child keeps items, keys and the root flag |
| ImmutableRedBlackTree.RotateFromLeft | lib/red-black-tree/index.js:191-201 | the double rotation at a `-black` left child keeps items and keys |
| ImmutableRedBlackTree.RotateFromRight | lib/red-black-tree/index.js:202-212 | the mirror image of `RotateFromLeft` |
| ImmutableRedBlackTree.FixReds | lib/red-black-tree/index.js:216-254 | the red-red repair never throws and keeps items and keys |
| ImmutableRedBlackTree.Flip | lib/red-black-tree/index.js:217-223 | both children turn black and the node red, or black at the root |
| ImmutableRedBlackTree.FixLeft | lib/red-black-tree/index.js:225-238 | the left-hand repair never throws and keeps items and keys |
| ImmutableRedBlackTree.FixRight | lib/red-black-tree/index.js:240-253 | the right-hand repair never throws and keeps items and keys |
| ImmutableRedBlackTree.PromotedColor | lib/red-black-tree/index.js:230-252 | red or black; black exactly at the root or where a `+black` node is rotated down (the corrected reading, see Findings) |
| ImmutableRedBlackTree.PromoteLeft | lib/red-black-tree/index.js:230-237 | rotated right; the new top takes the promoted colour and the root flag; both children are black |
| ImmutableRedBlackTree.PromoteRight | lib/red-black-tree/index.js:245-252 | the mirror image of `PromoteLeft` |
| ImmutableRedBlackTree.Set | lib/red-black-tree/index.js:27-29 | a successful `set` gives a node; see SetItems, SetLookup and SetKeepsRedBlack |
| ImmutableRedBlackTree.SuperSet | binary-search-tree/index.js:49-58 | the rebuilt node keeps its key; it takes the new value exactly when it holds the key, and then keeps both children |
| ImmutableRedBlackTree.SetChild | binary-search-tree/index.js:54 | a missing child becomes a plain leaf holding just the pair; an instance child stays an instance |
| ImmutableRedBlackTree.Delete | lib/red-black-tree/index.js:31-94 | deleting a childless node's own key gives `null`, and `null` comes only from the parent's `delete` giving `null`; see DeleteItems and DeleteLookup |
| ImmutableRedBlackTree.SuperDelete | binary-search-tree/index.js:60-76 | the key's node with fewer than two children gives way to its child (or `null`); otherwise a plain node, holding the same key and value when the key is elsewhere |
| ImmutableRedBlackTree.DeleteChild | lib/red-black-tree/index.js:31-36 | deleting from a missing child gives `null` |
| ImmutableRedBlackTree.Recolor | lib/red-black-tree/index.js:43-73 | after deleting a black childless child, the node turns `+black` (black at the root) and the sibling takes one black less; the source's error when the sibling is missing; otherwise unchanged |
| ImmutableRedBlackTree.AbsorbDoubleBlack | lib/red-black-tree/index.js:75-89 | a `+black` child passes one black up and both children take one black less; otherwise unchanged |
| ImmutableRedBlackTree.PaintAgrees | lib/red-black-tree/index.js:114-135 | repainting is the functional tree's colour update |
| ImmutableRedBlackTree.RotationsAgree | lib/red-black-tree/index.js:137-157 | the class's rotations are the search tree's rotations |
| ImmutableRedBlackTree.FlipAgrees | lib/red-black-tree/index.js:217-223 | the class's flip is the functional flip |
| ImmutableRedBlackTree.FixLeftAgrees | lib/red-black-tree/index.js:225-238 | the class's left-hand repair is the functional one |
| ImmutableRedBlackTree.FixRightAgrees | lib/red-black-tree/index.js:240-253 | the class's right-hand repair is the functional one |
| ImmutableRedBlackTree.FixRedsAgree | lib/red-black-tree/index.js:216-254 | the class's red-red repair computes the functional tree's colours and shape |
| ImmutableRedBlackTree.PromoteLeftAgrees | lib/red-black-tree/index.js:230-237 | the class's promotion is the functional one |
| ImmutableRedBlackTree.PromoteRightAgrees | lib/red-black-tree/index.js:245-252 | the class's promotion is the functional one |
| ImmutableRedBlackTree.RotateFromLeftAgrees | lib/red-black-tree/index.js:191-201 | the class's double rotation is that of red-black-tree/index.js:158-167 |
| ImmutableRedBlackTree.RotateFromRightAgrees | lib/red-black-tree/index.js:202-212 | the class's double rotation is that of red-black-tree/index.js:168-177 |
| ImmutableRedBlackTree.ResolveLeftAgrees | lib/red-black-tree/index.js:190-201 | rebalancing a `+black` node with a `-black` left child agrees with the functional tree |
| ImmutableRedBlackTree.ResolveRightAgrees | lib/red-black-tree/index.js:202-213 | likewise for a `-black` right child |
| ImmutableRedBlackTree.RebalanceAgrees | lib/red-black-tree/index.js:183-257 | the class's `rebalance` agrees with the functional one wherever both apply |
| ImmutableRedBlackTree.RotationsKeepFlags | lib/red-black-tree/index.js:137-157 | rotations of trees with no root flag set keep it unset |
| ImmutableRedBlackTree.FixRedsKeepsFlags | lib/red-black-tree/index.js:216-254 | the red-red repair keeps the top's root flag and sets none below |
| ImmutableRedBlackTree.SetNodeSound | lib/red-black-tree/index.js:27-29 | the node handed to `rebalance` has the key's child freshly inserted and the other unchanged |
| ImmutableRedBlackTree.SetInserted | lib/red-black-tree/index.js:27-29 | on a sound subtree `set` never throws and gives a node with legal colours and the same black height, a red-red pair at most at its top |
| ImmutableRedBlackTree.BlackNodeRepaired | lib/red-black-tree/index.js:216-254 | a black node whose children come from `set` is repaired by the red-red fix |
| ImmutableRedBlackTree.RedNodeUntouched | lib/red-black-tree/index.js:216-256 | a red node whose children come from `set` is left alone by `rebalance` |
| ImmutableRedBlackTree.SetKeepsRedBlack | lib/red-black-tree/index.js:27-29 | `set` never throws on a red-black tree and keeps it red-black, with only the root flagged |
| ImmutableRedBlackTree.NewIsRedBlack | lib/red-black-tree/index.js:14-25 | a new tree is a red-black tree |
| ImmutableRedBlackTree.SetItems | lib/red-black-tree/index.js:27-29 | a successful `set` leaves the in-order items of the plain search tree's `set` |
| ImmutableRedBlackTree.DeleteItems | lib/red-black-tree/index.js:31-94 | a successful `delete` leaves the in-order items of the plain search tree's `remove` |
| ImmutableRedBlackTree.SetLookup | lib/red-black-tree/index.js:27-29 | whenever `set` succeeds: still a search tree, the key set gains the key, the key maps to the new value and others are unchanged |
| ImmutableRedBlackTree.DeleteLookup | lib/red-black-tree/index.js:31-94 | whenever `delete` succeeds: still a search tree, the key set loses the key, the key maps to nothing and others are unchanged |
| ImmutableRedBlackTree.PromoteLeftKeepsBlackHeight | lib/red-black-tree/index.js:230-237 | with the colour read before the rotation the black height is kept |
| ImmutableRedBlackTree.PromoteRightKeepsBlackHeight | lib/red-black-tree/index.js:245-252 | likewise on the right |
| ImmutableRedBlackTree.ReplaceRootValue | lib/red-black-tree/index.test.js:12-19 | setting the lone root's key replaces its value |
| ImmutableRedBlackTree.HangLeft | lib/red-black-tree/index.test.js:21-32 | a smaller key hangs red on the left of the root |
| ImmutableRedBlackTree.HangRight | lib/red-black-tree/index.test.js:33-44 | a larger key hangs red on the right of the root |
| ImmutableRedBlackTree.ThirdNodeFlips | lib/red-black-tree/index.test.js:45-60 | 5, 3, 7 give three black nodes |
| ImmutableRedBlackTree.DeleteOnlyNode | lib/red-black-tree/index.test.js:560-564 | deleting the only node gives `null` |
| ImmutableRedBlackTree.DeleteRootOverLeft | lib/red-black-tree/index.test.js:566-574 | deleting a root over a left child leaves that child as a black root |
| ImmutableRedBlackTree.DeleteRootOverRight | lib/red-black-tree/index.test.js:576-584 | likewise on the right |
| ImmutableRedBlackTree.DeleteLeftChild | lib/red-black-tree/index.test.js:586-594 | deleting the red left child leaves the black root alone |
| ImmutableRedBlackTree.DeleteRightChild | lib/red-black-tree/index.test.js:596-604 | likewise on the right |
| ImmutableRedBlackTree.SecondInsertion | lib/red-black-tree/index.test.js:751-763 | 5 hangs red on the left of the root 7 |
| ImmutableRedBlackTree.ThirdInsertion | lib/red-black-tree/index.test.js:751-763 | 9 flips 5 and 9 black under the black root |
| ImmutableRedBlackTree.FourthInsertion | lib/red-black-tree/index.test.js:751-763 | 4 hangs red below the black 5 |
| ImmutableRedBlackTree.FifthInsertion | lib/red-black-tree/index.test.js:751-763 | 6 makes 5 red over black 4 and 6 |
| ImmutableRedBlackTree.SixthInsertion | lib/red-black-tree/index.test.js:751-763 | 8 hangs red below the black 9 |
| ImmutableRedBlackTree.SeventhInsertion | lib/red-black-tree/index.test.js:751-763 | the seventh insertion of the example gives seven black nodes |
| ImmutableRedBlackTree.DeleteFromFullTree | lib/red-black-tree/index.test.js:751-778 | deleting 4 gives root 7, 5 black over a red 6, and 9 red over black 8 and 10 |
| ImmutableRedBlackTree.DeleteWithPromotion | lib/red-black-tree/index.js:245-252 | deleting 3 from a red-black tree whose sibling has two red children promotes with the corrected colour |
| ImmutableRedBlackTree.PromotionTreesAreRedBlack | lib/red-black-tree/index.js:31-94 | both trees of that deletion are red-black trees |
| ImmutableRedBlackTree.InvalidTree | lib/red-black-tree/index.js:43-52 | deleting a black childless child with no sibling throws `Invalid tree` |
| ImmutableRedBlackTree.DeleteRootOfThree | lib/red-black-tree/index.test.js:606-619 | what the model gives for deleting the root of 7, 5, 9 |
| ImmutableRedBlackTree.RootOfThreeUnbalanced | lib/red-black-tree/index.test.js:606-619 | that result is not balanced |
| PromotionAsWritten.PromoteLeftAsWritten | lib/red-black-tree/index.js:230-236 | the corrected promotion with the top recoloured by the left child's colour; below a red child it equals the corrected one exactly at the root or away from a `+black` node |
| PromotionAsWritten.PromoteRightAsWritten | lib/red-black-tree/index.js:245-251 | the mirror image of `PromoteLeftAsWritten` |
| PromotionAsWritten.PromoteLeftAsWrittenLosesBlack | lib/red-black-tree/index.js:233 | a `+black` 8 below the root over red 7, 6, 5: as written the black height drops from 2 to 1; corrected it stays 2 |
| PromotionAsWritten.PromoteRightAsWrittenLosesBlack | lib/red-black-tree/index.js:248 | a `+black` 5 below the root over red 6, 7, 8: as written the black height drops from 2 to 1; corrected it stays 2 |
| PromotionAsWritten.RebalanceAsWritten | lib/red-black-tree/index.js:183-257 | throws on an empty tree; when it succeeds, a node with the same items and keys |
| PromotionAsWritten.ResolveNegativeAsWritten | lib/red-black-tree/index.js:190-214 | keeps items, keys and the root flag |
| PromotionAsWritten.FixRedsAsWritten | lib/red-black-tree/index.js:216-256 | never throws and keeps items and keys |
| PromotionAsWritten.FixLeftAsWritten | lib/red-black-tree/index.js:225-238 | never throws and keeps items and keys |
| PromotionAsWritten.FixRightAsWritten | lib/red-black-tree/index.js:240-253 | never throws and keeps items and keys |
| PromotionAsWritten.FixLeftAsWrittenAgrees | lib/red-black-tree/index.js:225-238 | at the root or away from a `+black` node, the source's left-hand repair is the model's |
| PromotionAsWritten.FixRightAsWrittenAgrees | lib/red-black-tree/index.js:240-253 | likewise on the right |
| PromotionAsWritten.FixRedsAsWrittenAgrees | lib/red-black-tree/index.js:216-256 | likewise for the whole red-red repair |
| PromotionAsWritten.RebalanceAsWrittenAgrees | lib/red-black-tree/index.js:183-257 | at the root or away from a `+black` node, the source's `rebalance` is the model's, nested `rebalance` included |
| PromotionAsWritten.SetAsWritten | lib/red-black-tree/index.js:27-29 | a successful `set` gives a node |
| PromotionAsWritten.SuperSetAsWritten | binary-search-tree/index.js:49-58 | the rebuilt node keeps its key and takes the new value exactly when it holds the key |
| PromotionAsWritten.SetChildAsWritten | binary-search-tree/index.js:54 | a missing child becomes a plain leaf |
| PromotionAsWritten.LegalHasNoDoubleBlack | lib/red-black-tree/index.js:4 | a tree of only red and black nodes has no `+black` node |
| PromotionAsWritten.SetAsWrittenAgrees | lib/red-black-tree/index.js:27-29 | on a tree without `+black` nodes the source's `set` is the model's |
| PromotionAsWritten.SuperSetAsWrittenAgrees | binary-search-tree/index.js:49-58 | likewise for the parent's step |
| PromotionAsWritten.SetChildAsWrittenAgrees | binary-search-tree/index.js:54 | likewise for a child |
| PromotionAsWritten.SetOnRedBlackAgrees | lib/red-black-tree/index.js:27-29 | on a red-black tree the source's `set` is the model's |
| PromotionAsWritten.DeleteAsWritten | lib/red-black-tree/index.js:31-94 | deleting a childless node's own key gives `null` |
| PromotionAsWritten.SuperDeleteAsWritten | binary-search-tree/index.js:60-76 | a key elsewhere leaves a plain node with the same key and value |
| PromotionAsWritten.DeleteChildAsWritten | lib/red-black-tree/index.js:31-36 | deleting from a missing child gives `null` |
| PromotionAsWritten.DeleteBelowRootAsWritten | lib/red-black-tree/index.js:245-252 | below the root, deleting 3 from 5 over 3 and black 7 (with red 6 and 8) gives a red 6 over black 5 and 7 |
| PromotionAsWritten.DeletePromotionAsWritten | lib/red-black-tree/index.js:31-94 | as written, deleting 3 from `PromotionTree` gives 10 over a red 6 |
| PromotionAsWritten.SourcePromotedTreeUnbalanced | lib/red-black-tree/index.js:245-252 | that tree carries one black on its left and two on its right |
| PromotionAsWritten.DeleteAsWrittenUnbalances | lib/red-black-tree/index.js:31-94 | from the red-black `PromotionTree`, the source's `delete` of 3 leaves an unbalanced tree and the model's the red-black `PromotedTree` |
| MutableBinarySearchTree.Node.constructor | lib/binary-search-tree/index.js:9-14 | a fresh node without children |
| MutableBinarySearchTree.Node.Relink | lib/binary-search-tree/index.js:55-56 | hangs two disjoint subtrees below the node, its model the node over their models |
| MutableBinarySearchTree.Node.Get | lib/binary-search-tree/index.js:16-24 | the lookup of the persistent search tree the node stands for |
| MutableBinarySearchTree.Node.Set | lib/binary-search-tree/index.js:26-42 | the new model is the persistent `set` with the value replaced; only fresh nodes are added |
| MutableBinarySearchTree.Node.SetLeft | lib/binary-search-tree/index.js:27-32 | likewise for a smaller key |
| MutableBinarySearchTree.Node.SetRight | lib/binary-search-tree/index.js:35-41 | likewise for a larger key |
| MutableBinarySearchTree.Node.Delete | lib/binary-search-tree/index.js:44-69 | the returned subtree stands for the persistent `remove`, made of the old nodes |
| MutableBinarySearchTree.Node.DeleteFromLeft | lib/binary-search-tree/index.js:45-47 | deleting a smaller key below the left child is the persistent `remove` |
| MutableBinarySearchTree.Node.DeleteFromRight | lib/binary-search-tree/index.js:65-67 | deleting a larger key below the right child is the persistent `remove` |
| MutableBinarySearchTree.Node.DeletePastLeft | lib/binary-search-tree/index.js:65-67 | a smaller key with no left child searched on the right leaves the persistent `remove` |
| MutableBinarySearchTree.Node.DeleteHere | lib/binary-search-tree/index.js:48-64 | the node of the key gives way to its only child, or to the least node of its right subtree |
| MutableBinarySearchTree.Node.ReplaceWithNext | lib/binary-search-tree/index.js:49-57 | the least node on the right takes over both subtrees |
| MutableBinarySearchTree.Node.Least | lib/binary-search-tree/index.js:50-53 | the `while` loop reaches the node without a left child, the persistent `first` |
| MutableBinarySearchTree.Node.Entries | lib/binary-search-tree/index.js:71-83 | the in-order items of the persistent tree |
| MutableBinarySearchTree.Node.ToJson | lib/binary-search-tree/index.js:3-14 | the nested fields of the node and its children, i.e. its persistent model |
| MutableBinarySearchTree.Tree.constructor | lib/binary-search-tree/index.js:89-91 | an empty tree |
| MutableBinarySearchTree.Tree.Get | lib/binary-search-tree/index.js:93-95 | the persistent lookup; a value exactly for a present key |
| MutableBinarySearchTree.Tree.Set | lib/binary-search-tree/index.js:97-103 | the persistent `set`; the key set gains the key |
| MutableBinarySearchTree.Tree.Delete | lib/binary-search-tree/index.js:105-109 | the persistent `remove`; the key set loses the key and an absent key changes nothing |
| MutableBinarySearchTree.Tree.Entries | lib/binary-search-tree/index.js:111-117 | the in-order items, in strictly ascending key order |
| MutableBinarySearchTree.Tree.ToJson | lib/binary-search-tree/index.js:119-121 | the root's nested fields, or `null`: the persistent model |
| MutableBinarySearchTree.Absent | lib/binary-search-tree/index.js:26-42 | a node with a key the subtree does not hold is not one of its nodes |
| MutableBinarySearchTree.DeleteAsWritten | lib/binary-search-tree/index.js:44-69 | `delete` as written; on a present key of a search tree it is the persistent `remove` |
| MutableBinarySearchTree.DeleteAsWrittenLosesEntries | lib/binary-search-tree/index.js:65-69 | as written, deleting an absent key loses a lone root, or the right child of a root |
| MutableBinarySearchTree.BuiltEntries | lib/binary-search-tree/index.test.js:5-75 | the example tree's entries are 1, 3, 5, 7, 9 in order |
| MutableBinarySearchTree.StartExample | lib/binary-search-tree/index.test.js:5-23 | the first three `set` calls build the expected tree |
| MutableBinarySearchTree.BuildExample | lib/binary-search-tree/index.test.js:25-75 | adding 1 and 9 gives the full example tree |
| MutableBinarySearchTree.TearDownExample | lib/binary-search-tree/index.test.js:77-131 | deleting 5 makes 7 the root; deleting 9 unhooks a leaf |
| MutableBinarySearchTree.EmptyExample | lib/binary-search-tree/index.test.js:133-161 | deleting 3, 1 and 7 empties the tree |
| TournamentTree.Pop | time-series/merge/tournament-tree/next.js:8-22 | a leaf whose contents are the queue, valid, ordered when the queue is |
| TournamentTree.Winner | time-series/merge/tournament-tree/next.js:32 | one of the two, with no smaller key than either; the second unless the first is strictly smaller |
| TournamentTree.NextAsWritten | time-series/merge/tournament-tree/next.js:8-39 | `next` as written keeps the shape of the tree |
| TournamentTree.Next | time-series/merge/tournament-tree/next.js:8-39 | the corrected `next` keeps the shape of the tree |
| TournamentTree.ValidRoot | time-series/merge/tournament-tree/next.js:32-38 | the root has no value exactly when its key is `Infinity` and exactly when nothing is left; otherwise its key is its value's |
| TournamentTree.RootIsMinimum | time-series/merge/tournament-tree/next.js:32-38 | the root's value is an item of the tree and no item has a smaller key |
| TournamentTree.NextKeepsValid | time-series/merge/tournament-tree/next.js:24-38 | every node's key and value stay those of the winner of its children |
| TournamentTree.NextKeepsOrdered | time-series/merge/tournament-tree/next.js:8-15 | every leaf stays in ascending key order |
| TournamentTree.NextTakesRoot | time-series/merge/tournament-tree/next.js:8-39 | `next` removes exactly the root's value from the items |
| TournamentTree.ExhaustedFixed | time-series/merge/tournament-tree/next.js:16-22 | on an exhausted subtree both versions change nothing |
| TournamentTree.NextAsWrittenAgrees | time-series/merge/tournament-tree/next.js:24-31 | without ties between finite keys the source's `next` is the corrected one |
| TournamentTree.TieDropsAnItem | time-series/merge/tournament-tree/next.js:24-31 | with two equal heads the source's `next` drops one of them |
| TournamentInitialize.CeilLog2 | time-series/tournament-tree/initialize.js:10 | the least c with k at most 2^c |
| TournamentInitialize.LeafCount | time-series/tournament-tree/initialize.js:10 | 0 for no queues; otherwise the least power of two at least k |
| TournamentInitialize.Leaves | time-series/tournament-tree/initialize.js:11-36 | one leaf per index |
| TournamentInitialize.Pairs | time-series/tournament-tree/initialize.js:43-56 | one round halves the level |
| TournamentInitialize.PairsKeep | time-series/tournament-tree/initialize.js:39-59 | a round keeps the items in order and keeps every subtree valid and ordered |
| TournamentInitialize.RoundsKeep | time-series/tournament-tree/initialize.js:38-61 | the final root holds every item of the level in order, valid and ordered when the level is; no root only for no leaves |
| TournamentInitialize.RoundsOnPowerOfTwo | time-series/tournament-tree/initialize.js:38-61 | on a power-of-two level the rounds never read past the end and give a root |
| TournamentInitialize.LeavesFlat | time-series/tournament-tree/initialize.js:11-36 | the leaves hold the queues' items in order, padding adds none, and each leaf is valid and ordered when its queue is |
| TournamentInitialize.InitialTreeSound | time-series/tournament-tree/initialize.js:8-61 | a root exactly when there is a queue; that root is valid, holds every item of every queue in order, and is ordered when they are |
| TournamentInitialize.PairRound | time-series/tournament-tree/initialize.js:40-58 | the inner loop is one round on an even level and throws on an odd one |
| TournamentInitialize.PlayRounds | time-series/tournament-tree/initialize.js:38-61 | the outer loop computes the rounds |
| TournamentInitialize.Initialize | time-series/tournament-tree/initialize.js:4-62 | the power-of-two builder computes `InitialTree` |
| TournamentInitialize.InitializeSquared | time-series/merge/tournament-tree/initialize.js:4-53 | the squared builder computes `SquaredTree` |
| TournamentInitialize.SquaredLosesLoneQueue | time-series/merge/tournament-tree/initialize.js:10 | one queue gives no leaves and no root, while the power-of-two builder gives its leaf |
| TournamentInitialize.SquaredIgnoresSecondQueue | time-series/merge/tournament-tree/initialize.js:10 | two queues give one leaf, the first queue's |
| TournamentInitialize.SquaredFailsOnFiveQueues | time-series/merge/tournament-tree/initialize.js:10 | five queues give nine leaves and the first round throws |
| TournamentInitialize.SquaredAgrees | time-series/merge/tournament-tree/initialize.js:10 | for 3 to 4 and 9 to 16 queues the two builders agree |
| SeriesMerge.FirstValueAsWritten | time-series/merge/index.js:9-11 | reading `value` of what the builder returns |
| SeriesMerge.NoSeriesAsWrittenThrows | time-series/merge/index.js:9-11 | as written, merging no series throws |
| SeriesMerge.TakeKeepsPending | time-series/merge/index.js:11-14 | one round of the loop keeps its state and shrinks the tree |
| SeriesMerge.MergeStart | time-series/merge/index.js:9-10 | the loop's state holds before the first round |
| SeriesMerge.MergeStep | time-series/merge/index.js:11-14 | the loop's state is kept by every round |
| SeriesMerge.MergeEnd | time-series/merge/index.js:15 | at the end everything was taken, in time order when every series is, and a single series unchanged |
| SeriesMerge.Merge | time-series/merge/index.js:5-16 | every point of every series exactly once; in time order when every series is; one series unchanged; `[]` for none |
| SeriesMerge.FourSeriesMerge | time-series/merge/index.test.js:19-48 | any time-ordered arrangement of the points of the three series and the empty one, which `Merge` promises, is the nine points in time order |
| SeriesMerge.SameDateMerge | time-series/merge/index.test.js:50-58 | two points with the same time both come out of `Merge` |
| SeriesWindow.StartScan | time-series/window/index.js:13-19 | the first index at or after `i` whose time is not before `start`, or the length |
| SeriesWindow.EndScanAsWritten | time-series/window/index.js:21-24 | the scan down as written: stops at a time not after `end`, or at index 0 |
| SeriesWindow.EndScan | time-series/window/index.js:21-24 | the scan down allowed to -1: the last index whose time is not after `end`, or -1 |
| SeriesWindow.InRangeSplit | time-series/window/index.js:26 | a series of points before, in and after the window keeps exactly the middle |
| SeriesWindow.WindowInRange | time-series/window/index.js:9-26 | on a series in time order the slice between the scans is exactly the points from `start` to `end` |
| SeriesWindow.Window | time-series/window/index.js:9-26 | the loops compute the slice between the scans, which is the points in range on a series in time order |
| SeriesWindow.LatePointKeptAsWritten | time-series/window/index.js:22 | as written, a lone point after `end` is kept |
| SeriesWindow.JanuaryWindow | time-series/window/index.test.js:5-24 | seven points windowed to January keep the three January points |
| SeriesWindow.OnePointWindow | time-series/window/index.test.js:33-39 | a one-point series inside the window is returned whole |
| SeriesDownsample.RunsAreRuns | time-series/downsample/index.js:9-21 | the groups the loop builds concatenate to the series, are non-empty, share a group time within, and differ from their neighbours |
| SeriesDownsample.RunGroupingUnique | time-series/downsample/index.js:11-21 | a series has exactly one such grouping |
| SeriesDownsample.DownsampledByRuns | time-series/downsample/index.js:23 | one output point per run, `transform(runTime, runPoints)`, in run order |
| SeriesDownsample.Downsample | time-series/downsample/index.js:4-24 | the loop and the map compute the downsampled series |
| SeriesDownsample.QuarterDownsample | time-series/downsample/index.test.js:8-38 | three months of points give three monthly sums |
| SeriesInterpolate.PushesLength | time-series/interpolate/index.js:10-15 | after n rounds the loop has pushed n points plus what was generated for the first n gaps |
| SeriesInterpolate.PushesPrefix | time-series/interpolate/index.js:10-15 | later rounds only append |
| SeriesInterpolate.Layout | time-series/interpolate/index.js:8-17 | point i sits at its offset, with what `generate` made for it and its successor right after it |
| SeriesInterpolate.InterpolatedLength | time-series/interpolate/index.js:10-16 | the output has one point per input and per generated point, and ends with the last input |
| SeriesInterpolate.InterpolatedEnds | time-series/interpolate/index.js:8-17 | nothing for no points, a single point returned as is, otherwise first and last points kept at the ends |
| SeriesInterpolate.InterpolatedChronological | time-series/interpolate/index.js:8-17 | with a `generate` that keeps to its gaps, a series in time order stays in time order |
| SeriesInterpolate.Interpolate | time-series/interpolate/index.js:4-18 | the loop computes the interpolated series |
| SeriesInterpolate.InterpolatedAsWritten | time-series/interpolate/index.js:8-17 | `[undefined]` for no points; otherwise the interpolated series, point by point |
| SeriesInterpolate.EmptyAsWritten | time-series/interpolate/index.js:16 | as written, an empty series gives `[undefined]` |
| SeriesInterpolate.AsWrittenAgrees | time-series/interpolate/index.js:8-17 | on a series with points, the source's pushes are the interpolated series |
| SeriesInterpolate.FillingDays | time-series/interpolate/index.test.js:8-41 | Jan 1, 3, 4, 6 and 9 filled day by day give Jan 1 to Jan 9 |
| SeriesInterpolate.EmptyAndSinglePoint | time-series/interpolate/index.test.js:43-49 | no points give nothing and one point gives itself |
| SeriesJoin.Column | time-series/join/index.js:9 | one entry per series, in list order: its i-th point, or `undefined` past its end |
| SeriesJoin.Join | time-series/join/index.js:4-11 | throws exactly on an empty list; otherwise one point per point of the first series, `combine(time, column)` |
| SeriesJoin.JoinKeepFirst | time-series/join/index.js:8-10 | a `combine` keeping the first series' point gives the first series back |
| SeriesJoin.TwoSeriesSum | time-series/join/index.test.js:5-29 | two series of three days add up day by day |
| SeriesExtrapolate.Extrapolate | time-series/extrapolate/index.js:4-14 | the generated points before, then the series unchanged, then the generated points after; length the sum of the three |
| SeriesExtrapolate.ExtrapolateChronological | time-series/extrapolate/index.js:9-13 | points generated in time order before the first and after the last point keep a series in time order |
| SeriesExtrapolate.DayEachSide | time-series/extrapolate/index.test.js:8-27 | Jan 15 and 16 with a day added at each end give Jan 14 to Jan 17 |
| TimeSeries.ChronologicalUnique | time-series/merge/index.test.js:19-48 | two series in time order with distinct times and the same points are equal |

## Left out

- I/O-free as the library is, these parts of it are not modelled:
  - the laziness of the `entries`, `traces` and iterator generators, which are sequences here;
  - reference identity and structural sharing, for which the model states structural equality;
  - floating-point `Math.log2`, `Math.ceil` and `**`, replaced by whole-number logarithms;
  - `Infinity`, replaced by a key constructor of its own;
  - `Date` objects, replaced by whole-number times.
- JSON serialisation is modelled only as the nested shape of the fields. No text is produced or parsed.
- The parent class of lib/red-black-tree/index.js is not part of this model. `super.set` and `super.delete` are taken to behave like binary-search-tree/index.js's `set` and `remove`. They rebuild the node on the path as a plain node and call the child's own `set`/`delete`.
- time-series/merge/tournament-tree/index.js and time-series/time-series-point.js are not part of this model.
  - Which builder the merge driver imports is therefore not known.
  - `SeriesMerge.Merge` uses the power-of-two builder. The squared builder loses the only series when there is one (see Findings) and throws on an empty series.
- The repository's description says the merge breaks ties in favour of the lower input index. The code picks `parent2`, the later series, on equal keys. The model follows the code.
- The repository's description has `traces` reach every empty subtree. The code stops only at nodes without children. The model follows the code (`BinarySearchTree.TracesArePaths`).
- SeriesMerge.Merge: uses the corrected `TournamentTree.Next`, where the source's time-series/merge/tournament-tree/next.js:24-31 drops a point on tied times; it gives `[]` for no series, where the source throws (time-series/merge/index.js:9-11); and it states no order among points with equal times, because none is promised by a stable rule.
- SeriesDownsample.QuarterDownsample: follows what the test at time-series/downsample/index.test.js:26 means, not what it does. Its `group` returns a number, and time-series/downsample/index.js:14 calls `.getTime()` on that number, which throws a TypeError at the second point. With whole-number times the model cannot express that difference.
- RedBlackTree.Remove: the contents and map semantics are proved, but not the preservation of the red-black invariants after removal; that proof is not part of this model.
- BinarySearchTree.RotateRight: on an empty tree it returns the source's "Can only right rotate" message, while the source reads `left` of `null` and throws a TypeError at binary-search-tree/index.js:87.
- BinarySearchTree.RotateLeft: likewise, where the source throws a TypeError at binary-search-tree/index.js:96.
- ImmutableRedBlackTree.PromotedColor: reads the colour of the node rotated down, not of the rotated tree as lib/red-black-tree/index.js:233 and 248 do. The two differ only when a `+black` node below the root is rotated down (see Findings). The source's reading is module `PromotionAsWritten`.
- ImmutableRedBlackTree.PromoteLeft: uses `PromotedColor`, the corrected colour; the source's is `PromotionAsWritten.PromoteLeftAsWritten`.
- ImmutableRedBlackTree.PromoteRight: uses the corrected colour; the source's is `PromotionAsWritten.PromoteRightAsWritten`.
- ImmutableRedBlackTree.FixLeft: uses the corrected colour; `PromotionAsWritten.FixLeftAsWrittenAgrees` shows it is the source's except at a `+black` node below the root.
- ImmutableRedBlackTree.FixRight: likewise, by `PromotionAsWritten.FixRightAsWrittenAgrees`.
- ImmutableRedBlackTree.FixReds: likewise, by `PromotionAsWritten.FixRedsAsWrittenAgrees`.
- ImmutableRedBlackTree.Rebalance: likewise, by `PromotionAsWritten.RebalanceAsWrittenAgrees`.
- ImmutableRedBlackTree.Set: uses the corrected `Rebalance`; by `PromotionAsWritten.SetOnRedBlackAgrees` it is the source's `set` on every red-black tree.
- ImmutableRedBlackTree.Delete: uses the corrected `Rebalance`, so it is not the source's `delete` where a `+black` node below the root is rotated down; `PromotionAsWritten.DeleteAsWrittenUnbalances` shows such a case.
- ImmutableRedBlackTree.FixLeftAgrees: the agreement with the functional tree holds for the corrected colour, not for the source's colour at a `+black` node below the root.
- ImmutableRedBlackTree.FixRightAgrees: likewise.
- ImmutableRedBlackTree.FixRedsAgree: likewise.
- ImmutableRedBlackTree.PromoteLeftAgrees: likewise; its precondition admits a `+black` node, where only the corrected colour agrees.
- ImmutableRedBlackTree.PromoteRightAgrees: likewise.
- ImmutableRedBlackTree.RebalanceAgrees: likewise.
- ImmutableRedBlackTree.Delete: the red-black invariants after `delete` are not proved; they are shown only on the test scenarios.
- ImmutableRedBlackTree.DeleteRootOfThree: with the assumed parent class, deleting the root of 7, 5, 9 gives an unbalanced tree. The test at lib/red-black-tree/index.test.js:606-619 expects a red 5 under a black 9, which depends on the unseen parent.
- The test at lib/red-black-tree/index.test.js:731-749 draws a five-node tree but repeats the code of the four-node test before it, so it is not modelled as a scenario of its own.
- TournamentInitialize.InitializeSquared: requires at least one queue and a non-empty queue at every index below its leaf count. With no queues the source's leaf loop never ends. With an empty queue `getKey(undefined)` throws, and the model does not carry that exception.
- MutableBinarySearchTree.Node.Delete: requires a search tree and returns the node itself where the source falls off the end. The source's behaviour is `MutableBinarySearchTree.DeleteAsWritten`.
- Callbacks (`getKey`, `group`, `transform`, `generate`, `combine`, `generateBefore`, `generateAfter`) are total pure functions. Exceptions or side effects inside them are not modelled.
- Subtypes of `Node` beyond key, value and children are not modelled. In binary-search-tree/index.js the other fields are a payload merged by a caller-given function standing for the object spread.

## Findings

| source | as written | input that shows it | evidently intended | confidence | as-written member | corrected member |
|---|---|---|---|---|---|---|
| time-series/merge/tournament-tree/next.js:24-31 | every child whose key equals the node's key is advanced | two queues `[1]` and `[1]`: after the root's 1 is taken, both leaves are advanced and the other 1 is lost | advance only the child the node copied its value from | not executed | TournamentTree.NextAsWritten, TournamentTree.TieDropsAnItem | TournamentTree.Next, TournamentTree.NextTakesRoot, SeriesMerge.Merge |
| time-series/merge/tournament-tree/initialize.js:10 | `Math.ceil(Math.log2(k)) ** 2` leaves | one series gives no leaves; two give one leaf; five give nine leaves and the first round reads past the end | `2 ** Math.ceil(Math.log2(k))`, as in time-series/tournament-tree/initialize.js:10 | not executed | TournamentInitialize.InitializeSquared, TournamentInitialize.SquaredLosesLoneQueue | TournamentInitialize.Initialize, TournamentInitialize.InitialTreeSound |
| time-series/merge/index.js:9-11 | `tournamentTree.value` is read from whatever the builder returns | `merge()` with no series: the builder returns `undefined` and the loop condition throws, where the test at time-series/merge/index.test.js:5-7 expects `[]` | `[]` for no series | not executed | SeriesMerge.FirstValueAsWritten, SeriesMerge.NoSeriesAsWrittenThrows | SeriesMerge.Merge |
| time-series/window/index.js:22 | the downward scan stops at index 0 (`endIndex > 0`) | `[{time: 5}]` windowed to `[0, 3]` keeps the point | scan down to -1 (`endIndex >= 0`) so that no point after `end` is kept | not executed | SeriesWindow.EndScanAsWritten, SeriesWindow.LatePointKeptAsWritten | SeriesWindow.Window, SeriesWindow.WindowInRange |
| time-series/interpolate/index.js:16 | the last point is pushed unconditionally | `interpolate([], gen)` gives `[undefined]`, where the test at time-series/interpolate/index.test.js:44 expects `[]` | push the last point only when there is one | not executed | SeriesInterpolate.InterpolatedAsWritten, SeriesInterpolate.EmptyAsWritten | SeriesInterpolate.Interpolate, SeriesInterpolate.InterpolatedEnds |
| lib/red-black-tree/index.js:233,248 | the promoted colour reads `tree.color` after the rotation, which is the red child's, so the `+black` test never holds | a `+black` 5 below the root over red 6, 7, 8 on its right: 6 comes out red and the black height drops from 2 to 1; deleting 3 from `PromotionTree` leaves 10 over a red 6, unbalanced | read the colour of the node rotated down | not executed | PromotionAsWritten.PromoteLeftAsWritten, PromotionAsWritten.PromoteLeftAsWrittenLosesBlack, PromotionAsWritten.PromoteRightAsWritten, PromotionAsWritten.PromoteRightAsWrittenLosesBlack, PromotionAsWritten.DeleteAsWritten, PromotionAsWritten.DeleteAsWrittenUnbalances | ImmutableRedBlackTree.PromotedColor, ImmutableRedBlackTree.PromoteLeft, ImmutableRedBlackTree.PromoteRight, ImmutableRedBlackTree.PromoteLeftKeepsBlackHeight, ImmutableRedBlackTree.PromoteRightKeepsBlackHeight, ImmutableRedBlackTree.FixLeft, ImmutableRedBlackTree.FixRight, ImmutableRedBlackTree.FixReds, ImmutableRedBlackTree.Rebalance, ImmutableRedBlackTree.Delete, ImmutableRedBlackTree.DeleteWithPromotion |
| lib/binary-search-tree/index.js:44-69 | `delete` has no final `return` | deleting 3 from a lone root 5 empties the tree; from 5 with right child 7 it loses 7 | return the node itself, leaving the tree unchanged | not executed | MutableBinarySearchTree.DeleteAsWritten, MutableBinarySearchTree.DeleteAsWrittenLosesEntries | MutableBinarySearchTree.Node.Delete, MutableBinarySearchTree.Tree.Delete |
