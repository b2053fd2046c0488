# splayset in Dafny

A model of splayset, an ordered set of numbers kept in a splay tree, with
proofs about it. There are two variants of the set.

- **lib/splay.js** is the current one. It does a top-down splay (the
  "simple top-down splay" of Sleator and Tarjan) by rewriting the child
  links of the caller's nodes in place. `has`, `insert` and `build` are
  built on it.
- **index.js** is an earlier, non-mutating variant. It copies a node
  whenever it changes one of its children. Its recursive `splayStep` never
  reassembles the tree: it returns only the node where the descent
  stopped.

Files:

- `trees.dfy` (module `BinaryTrees`) holds the value trees both variants
  are compared against: the comparator, the in-order sequence, the item
  set, the search-tree property and the tests' plain search `testHas`.
- `splay_nodes.dfy` (module `SplayNodes`) holds the heap side of
  lib/splay.js:
  - `Node` is a class with a constant `item` and mutable `left`/`right`;
  - a ghost `HTree` names the nodes of a tree in their shape;
  - `Linked` says the heap's links are exactly that shape;
  - `Distinct` says no node occurs twice.
- `splay_shapes.dfy` (module `SplayShapes`) holds a ghost description of
  the splay loop, one step per iteration.
  - `Descend` walks down and returns where the loop stops, with the left
    and right chains it built.
  - `Assemble` hangs the chains below the stopping node.
  - `SplayShape` is the whole operation.
  - The lemmas show that splaying keeps the in-order sequence, the items,
    the search-tree property and the node set. They also show that the
    indicator is 0 exactly when the item is present, and otherwise the new
    root is the item's successor or predecessor.
- `insert_shapes.dfy` (module `InsertShapes`) describes `insert` and
  `build` in the same terms.
- `splay.dfy` (module `SplayLib`) holds the imperative model:
  - `Splay` is a `while` loop over node references. Its helpers
    `RotateRight`, `RotateLeft`, `LinkRight`, `LinkLeft` and
    `AssembleChains` are the blocks that the source marks with comments.
  - `Has`, `Insert` and `Build` are built on `Splay`.
  - Each method is proved to leave the heap in exactly the shape the ghost
    description gives.
- `examples_lib.dfy` (module `SplayExamples`) holds the shapes that the
  tests of lib/splay.js pin down: Sleator and Tarjan's Fig. 4, 5a and 5b,
  and `build` of ascending and descending input.
- `splay_set.dfy` (module `SplaySet`) is the pure model of index.js.

For lib/splay.js, where the documented contract and the code differ, the
model follows the code. For index.js it models both the code as written
and the evidently intended `rotateRight`, and builds `splay`, `has` and
`insert` on the latter.

- **Hit in lib/splay.js `insert`.** When the item is already present,
  `insert` returns `set`, the root from before splaying
  (lib/splay.js:50-51). The splay has moved that node down, so the tree
  returned can be missing items. This is logged under Findings.
  `SplayLib.Insert`, `SplayLib.Build` and `InsertShapes.BuildShape` keep
  the written behaviour (`InsertShapes.InsertShapeAsWritten`).
  `InsertShapes.InsertShape` returns the splayed root instead and serves as
  the corrected reference; `InsertShapes.AsWrittenAgrees` proves the two
  agree except on a hit that moved the old root.
- **Miss in lib/splay.js `insert`.** On a miss, when the new root already
  has a child on the item's side, `insert` writes the new leaf over that
  child's inner link (lib/splay.js:54 and 58). Whatever hung there is lost.
  `SplayShapes.SplaySideIsChain` proves that the child on that side is the
  chain built on that side. Its inner link is
  empty only in special cases. `InsertShapes.InsertOverwritesGrandchild`
  exhibits a search tree where an item disappears. So `insert` is not a
  set union in general. The model keeps the written behaviour, because no
  single intended fix is evident from the code, and the tests of `build`
  pin shapes that come from this code.
- **index.js.** `rotateRight` is declared with no parameter
  (index.js:74). This is logged under Findings. `linkLeft` and `linkRight`
  throw away the copy they make (index.js:24 and 69), so index.js's
  `splay` returns only the stopping node, and its `insert` returns a tree
  made of that node's subtree and the new leaf. The model keeps this.
  As written, the first left zig-zig throws; `SplaySet.SplayStepAsWritten`
  models that, and the other index.js members use the corrected
  `rotateRight`.

## Model

| member | source | states |
|---|---|---|
| BinaryTrees.Compare | lib/splay.js:10 | the default comparator's sign answers the three-way comparison: negative, zero or positive exactly when the first item is smaller, equal or larger (also index.js:5) |
| BinaryTrees.MemberIffPresent | test/lib/splay.test.js:20-27 | on a search tree, the tests' plain search `testHas` finds exactly the items present |
| SplayNodes.Node.constructor | lib/splay.js:42 | a new node holds the item and has no children |
| SplayNodes.Find | lib/splay.js:50-51 | the subtree below a given node of the splayed tree is rooted at that node, holds only nodes and items of the tree, and is a search tree when the tree is |
| SplayNodes.FindWellFormed | lib/splay.js:50-51 | the subtree below a node of a tree the heap links is itself linked in the heap |
| SplayShapes.Descend | lib/splay.js:138-182 | the loop stops at a node whose comparison with the item is the returned indicator; a negative indicator means that node has no left child, a positive one that it has no right child |
| SplayShapes.SplayShape | lib/splay.js:130-190 | the empty tree gives `[-1, empty]`; otherwise the indicator is the comparison of the item with the new root's item |
| SplayShapes.LinkRightInorder | lib/splay.js:155-158 | `link_right` moves the current node and its right subtree onto the right chain without changing the in-order sequence of the left chain, the current subtree and the right chain together |
| SplayShapes.LinkLeftInorder | lib/splay.js:174-177 | the mirror image for `link_left` |
| SplayShapes.Assemble | lib/splay.js:184-188 | `assemble` reads, in order, as the left chain, the stopping node's subtree, then the right chain |
| SplayShapes.DescendInorder | lib/splay.js:138-188 | the loop invariant: from any state, what the loop and `assemble` produce reads, in order, as the left chain, then the current subtree, then the right chain |
| SplayShapes.StopInorder | lib/splay.js:141-181 | at each exit of the loop the chains are the ones built so far and any final rotation kept the in-order sequence |
| SplayShapes.SplayInorder | lib/splay.js:65-191 | `splay` keeps the in-order sequence of the tree |
| SplayShapes.SplayKeepsInorder | lib/splay.js:65-191 | `splay` keeps the in-order sequence, hence the item set and the search-tree property |
| SplayShapes.SameInorderSameItems | lib/splay.js:65-191 | two trees with the same in-order sequence hold the same items, and one is a search tree exactly when the other is |
| SplayShapes.DescendBounds | lib/splay.js:138-182 | on a search tree, every item put on the left chain is smaller than the item and every item put on the right chain is larger |
| SplayShapes.SplaySideIsChain | lib/splay.js:184-190 | in any tree, after a miss the new root's subtree on the item's side is exactly the chain the loop built on that side |
| SplayShapes.SplaySides | lib/splay.js:184-190 | on a search tree, after a miss the new root's subtree on the item's side holds only items on that side of the item |
| SplayShapes.SplayFindsNeighbour | lib/splay.js:65-191 | on a search tree the indicator is 0 exactly when the item is present; when negative the new root is the least item above it, when positive the greatest item below it |
| SplayShapes.SplayKeepsNodes | lib/splay.js:65-191 | `splay` owns exactly the nodes it was given, each once |
| SplayLib.RotateRight | lib/splay.js:147-151 | `rotate_right` in the heap: the left child becomes the current root, with the old root as its right child and the old left-right grandchild below it; the loop state is kept |
| SplayLib.RotateLeft | lib/splay.js:166-170 | the mirror image for `rotate_left` |
| SplayLib.LinkRight | lib/splay.js:155-158 | `link_right` in the heap: the current node goes onto the right chain and the walk moves to its left child; the loop state is kept |
| SplayLib.LinkLeft | lib/splay.js:174-177 | the mirror image for `link_left` |
| SplayLib.AssembleChains | lib/splay.js:184-188 | `assemble` leaves the heap linked as the assembled tree, with the stopping node as root, each node once, and exactly the nodes of the input |
| SplayLib.Splay | lib/splay.js:65-191 | the in-place splay returns the indicator and the new root of the shape `SplayShape` gives, with the heap linked as that tree over the same nodes, each once |
| SplayLib.Has | lib/splay.js:31-39 | `has` gives `[false, null]` on the empty tree and otherwise whether the indicator is 0; on a search tree that is exactly membership; the returned root is the splayed tree's |
| SplayLib.HangLeaf | lib/splay.js:53-60 | after a miss, the heap links the leaf in the slot on the item's side, or over the inner link of the child there |
| SplayLib.Insert | lib/splay.js:41-63 | `insert` allocates one node holding the item; the heap becomes `InsertShapeAsWritten` over the old nodes and that node, each once, and the returned node is its root: the leaf for an empty tree, the old root on a hit, the splayed root on a miss; it is never null on a non-empty tree |
| SplayLib.BuildNext | lib/splay.js:24-26 | one round of `build`'s loop inserts the next item into the tree built from the items before it |
| SplayLib.Build | lib/splay.js:19-29 | `build` gives null for a non-array; otherwise the tree of inserting each item in turn from the empty tree, as `insert` is written, with one fresh node per item |
| InsertShapes.Attach | lib/splay.js:53-60 | after a miss the splayed root stays the root and the leaf becomes one of its tree's nodes |
| InsertShapes.InsertShape | lib/splay.js:41-63 | the corrected `insert`: never empty, rooted at the splayed root, and holding the leaf on an empty tree or a miss |
| InsertShapes.InsertShapeAsWritten | lib/splay.js:41-63 | `insert` as written: on a non-empty tree the result is non-empty unless the splay found the item; that it is non-empty on a hit too, where the tree holds each node once, is `InsertKeepsNodes` |
| InsertShapes.AsWrittenAgrees | lib/splay.js:50-51 | the written and the corrected `insert` agree on an empty tree, on a miss, and on a hit at the root |
| InsertShapes.AttachKeepsBST | lib/splay.js:53-60 | hanging a leaf whose item lies between its side's subtree and the root keeps a search tree, even over an occupied link, and the leaf's item is then present |
| InsertShapes.InsertKeepsBST | lib/splay.js:41-63 | on a search tree both the written and the corrected `insert` return a search tree; the corrected one always holds the item, the written one whenever the item was absent |
| InsertShapes.BuildShape | lib/splay.js:19-29 | the tree `build` returns, as the fold of the written `insert` over the items from the empty tree; its properties are in the rows below |
| InsertShapes.BuildIsBST | lib/splay.js:19-29 | `build` of any array returns a search tree |
| InsertShapes.AttachNodes | lib/splay.js:53-60 | hanging the leaf keeps each node once and uses only the splayed tree's nodes and the leaf |
| InsertShapes.AttachItems | lib/splay.js:53-60 | hanging the leaf adds no item but the leaf's |
| InsertShapes.AttachAddsItem | lib/splay.js:53-60 | when the overwritten link was empty and the leaf lies between its side's subtree and the root, the leaf's item is added and the search-tree property kept |
| InsertShapes.InsertKeepsNodes | lib/splay.js:41-63 | `insert` keeps each node once, uses only the old nodes and the new one, and on a non-empty tree returns a non-empty tree, hit or miss |
| InsertShapes.InsertItemsBound | lib/splay.js:41-63 | `insert` returns no item except the old ones and the inserted one |
| InsertShapes.InsertAtRoot | lib/splay.js:48-51 | when the root holds the item, the splay stops at once and `insert` returns the tree unchanged |
| InsertShapes.InsertFoundKeeps | lib/splay.js:48-51 | on a search tree holding the item, the corrected `insert` returns a search tree with the same items and the item at the root |
| InsertShapes.InsertFillsSlot | lib/splay.js:53-60 | on a search tree without the item the indicator is nonzero, and when the root's child on the item's side is empty the leaf takes that slot |
| InsertShapes.InsertAddsItem | lib/splay.js:41-63 | on a search tree without the item, when the written link was empty, `insert` returns a search tree of the old items plus the new one |
| InsertShapes.InsertReturnsMovedRoot | lib/splay.js:50-51 | as written, inserting 2 into the tree 1 with right child 2 returns just the node 1, holding {1}; returning the splayed root keeps {1, 2} |
| InsertShapes.InsertOverwritesGrandchild | lib/splay.js:53-56 | inserting 22 into 10(_, 30(20(_, 25), _)) splays to 25 with 10(_, 20) on its left and writes the leaf over 10's right link, so 20 is lost |
| InsertShapes.BuildStep | lib/splay.js:24-26 | building one more item inserts it into the tree built so far |
| InsertShapes.BuildKeepsNodes | lib/splay.js:19-29 | a built tree holds each of its nodes once, all allocated by its insertions, and only items of the input |
| SplayExamples.SplayFig4 | test/lib/splay.test.js:160-236 | splaying 63 in the tree of Fig. 4 gives the shape the test records, which differs from the figure's |
| SplayExamples.SplayFig5a | test/lib/splay.test.js:237-280 | splaying 1 at the bottom of a left path gives the tree of Fig. 5a |
| SplayExamples.SplayFig5b | test/lib/splay.test.js:281-332 | splaying 40 at the bottom of a zig-zag path gives the tree of Fig. 5b |
| SplayExamples.AscendingInserts | test/lib/splay.test.js:67-70 | the four insertions of `build([4, 8, 12, 16, 20])`, one step each |
| SplayExamples.DescendingInserts | test/lib/splay.test.js:71-83 | the four insertions of `build([20, 16, 12, 8, 4])`, one step each |
| SplayExamples.BuildAscending | test/lib/splay.test.js:67-70 | `build([4, 8, 12, 16, 20])` is 16 with left path 12, 8, 4 and right child 20 |
| SplayExamples.BuildDescending | test/lib/splay.test.js:71-83 | `build([20, 16, 12, 8, 4])` is 8 with left child 4 and right path 12, 16, 20 |
| SplaySet.Left | index.js:9 | `left` of null is null; a child holds only items of its parent and is strictly smaller |
| SplaySet.Right | index.js:10 | the same for `right` |
| SplaySet.SetLeft | index.js:12 | `setLeft` gives a copy of the node with only the left child replaced, and null for null |
| SplaySet.SetRight | index.js:13 | `setRight` gives a copy of the node with only the right child replaced, and null for null |
| SplaySet.SetLeftLaws | index.js:12 | reading back the child just set gives it, setting the existing child changes nothing, a second set overrides the first, and the other child is untouched |
| SplaySet.SetRightLaws | index.js:13 | the same laws for `setRight` |
| SplaySet.RotateLeft | index.js:29-60 | `rotateLeft` keeps the in-order sequence where there is a right child to promote, and gives null where there is none, because `setLeft` of null is null |
| SplaySet.RotateRight | index.js:74-103 | `rotateRight`, taking the node as its argument, is the mirror image |
| SplaySet.RotateLeftShape | index.js:29-60 | `rotateLeft` makes the right child the root, with the old root on its left holding the old right-left grandchild, and keeps the search-tree property |
| SplaySet.RotateRightShape | index.js:74-103 | the mirror image for `rotateRight` |
| SplaySet.RotationsInverse | index.js:29-103 | each rotation undoes the other where the promoted child exists |
| SplaySet.LinkLeft | index.js:15-27 | `linkLeft([t, l, r])` gives `[right(t), t, r]`; the current node's in-order sequence splits around it into its left subtree and the next current subtree |
| SplaySet.LinkRight | index.js:62-72 | `linkRight([t, l, r])` gives `[left(t), l, t]`, the mirror image |
| SplaySet.SplayStep | index.js:112-148 | every call returns -1, 0 or 1 with a node: 0 means the node holds the item; -1 means the node is larger and has no left child; 1 means it is smaller and has no right child |
| SplaySet.Splay | index.js:109-151 | `splay` returns the empty set as it is and otherwise a stopped descent |
| SplaySet.SplayStepNarrows | index.js:112-148 | on a search tree, the descent narrows to a search subtree of the input that holds the item exactly when the input does |
| SplaySet.SplayFindsPresent | index.js:105-151 | on a search tree, the indicator is 0 exactly when the item is present |
| SplaySet.SplayStepAsWritten | index.js:74-148 | `splayStep` with `rotateRight` as declared: where it does not throw, it returns what the corrected step returns |
| SplaySet.AsWrittenThrows | index.js:100-102 | looking up 1 in the tests' seven-item set throws as written; with the parameter restored it stops at the leaf 4 with indicator -1 |
| SplaySet.Has | index.js:153-161 | `has` is false on the empty set, and on a search tree it is exactly membership |
| SplaySet.HasAgreesWithSearch | index.js:153-161 | on a search tree `has` agrees with plain search |
| SplaySet.Insert | index.js:163-181 | `insert` never returns null; on an empty set it is the leaf, and after a miss it holds the stopping node's items plus the item, one node more than that node's subtree |
| SplaySet.InsertIntoSearchTree | index.js:163-181 | on a search tree: an empty set gives the leaf; a present item gives the input back; an absent one goes into the empty slot of the stopping node on its side; the result is a search tree holding the item, within the old items plus the item |

## Findings

| source | as written | input that shows it | evidently intended | confidence | as-written member | corrected member |
|---|---|---|---|---|---|---|
| lib/splay.js:50-51 | on a hit `insert` returns `set`, the root from before the splay, which the splay has moved down | `insert(2, t)` where `t` is node 1 with right child node 2: the splay makes 2 the root, and node 1, returned, has no children left, so {1, 2} becomes {1} | return `splayed`, the new root (the splayed tree is unchanged in content) | high, not executed | InsertShapes.InsertReturnsMovedRoot | InsertShapes.InsertFoundKeeps |
| index.js:74-103 | `rotateRight()` declares no parameter, and its body reads `set`, which is not in scope there, so the call at index.js:125 throws | `splay(1, …)` on the set 16(8(4, 12), 24(20, 28)) of test/index.test.js:96-124 (1 < 16 and 1 < 8) | `rotateRight(set)`, the mirror image of `rotateLeft` | high, not executed | SplaySet.AsWrittenThrows | SplaySet.RotateRightShape |

## Left out

- JavaScript numbers: items are unbounded integers and `defaultCompare` is exact subtraction. The model leaves out floating-point rounding, NaN, and items that are not numbers.
- The header node in lib/splay.js:132 has `item: null`; the model gives it item 0. That item is never compared.
- `isEmpty`, `_item`, `_left` and `_right` (lib/splay.js:13-17) are folded into null checks. They are reached with null only where the code has already checked for null. index.js's `left`/`right` are modelled by `SplaySet.Left`/`SplaySet.Right`.
- The empty set is `null`. JavaScript's other falsy values, which `isEmpty` also treats as empty, are not modelled.
- `build`'s argument is `Option<seq<int>>`: `None` stands for every non-array argument, including `undefined` and `null`. Sparse arrays and array elements that are not numbers are left out.
- The input tree must be a tree: `Linked` and `Distinct` require each node to be reachable once. The source does not check this; a shared node or a cycle in the input is outside the model.
- SplayLib.Insert: no unconditional "items become old items plus the item" law. Written as the source is, the law fails on a miss when the link it writes is occupied (`InsertShapes.InsertOverwritesGrandchild`). It is proved where that link is empty (`InsertShapes.InsertAddsItem`). On a hit the written `insert` can lose items too (Findings); the corrected one keeps them (`InsertShapes.InsertFoundKeeps`). Both always return a search tree (`InsertShapes.InsertKeepsBST`).
- SplayLib.Build: no content law for `build`, for the same reason. `InsertShapes.BuildKeepsNodes` bounds its items by the input, `InsertShapes.BuildIsBST` proves the result a search tree, and the two test shapes are proved.
- SplaySet.Splay, SplaySet.Has, SplaySet.Insert: built on the corrected one-parameter `rotateRight`, so they always return. The code as written throws wherever `SplaySet.SplayStepAsWritten` gives `Threw` (index.js:100 reads `set`, which is not in scope).
- SplaySet.InsertIntoSearchTree: index.js's `insert` keeps only the stopping node's subtree, so its result is bounded by the old items plus the item rather than equal to them. This is what that code does.
- The amortised logarithmic cost of splaying is a claim about running time. There is no cost model here.
- The module exports (lib/splay.js:193-196, index.js:183-184) are left out: they only name the functions above. The `ramda` `mergeLeft` call is not modelled as a library call; `SplaySet.SetLeft`/`SplaySet.SetRight` build the copies it makes.
- test/index.test.js calls `splayset.splay` and `splayset.test.*`, which index.js does not export. Those calls are not modelled.
