/** The earlier, non-mutating splay set of index.js. Nodes are never written:
    `setLeft`/`setRight` build a copy with one child replaced, the rotations
    are built from them, and the descent is a recursive `splayStep` over a
    triple (current subtree, last node linked left, first node linked right).
    Because `linkLeft`/`linkRight` drop the copy they make, the two
    accumulators never reach the result, and `splay` returns only the
    subtree where the descent stopped. */
module SplaySet {
  import opened BinaryTrees

  /** `left(node)` / `right(node)`: a missing node has missing children;
      a child is a strictly smaller part of its parent. */
  function Left(t: Tree): (r: Tree)
    ensures Items(r) <= Items(t)
    ensures t.Node? ==> Size(r) < Size(t)
  {
    if t.Nil? then Nil else t.left
  }

  function Right(t: Tree): (r: Tree)
    ensures Items(r) <= Items(t)
    ensures t.Node? ==> Size(r) < Size(t)
  {
    if t.Nil? then Nil else t.right
  }

  /** `setLeft(node, child)`: a copy of `node` with its left child replaced;
      a missing node stays missing. */
  function SetLeft(t: Tree, child: Tree): (r: Tree)
    ensures t.Nil? ==> r == Nil
    ensures t.Node? ==> r.Node? && r.item == t.item && r.right == t.right && r.left == child
  {
    if t.Nil? then t else Node(child, t.item, t.right)
  }

  function SetRight(t: Tree, child: Tree): (r: Tree)
    ensures t.Nil? ==> r == Nil
    ensures t.Node? ==> r.Node? && r.item == t.item && r.left == t.left && r.right == child
  {
    if t.Nil? then t else Node(t.left, t.item, child)
  }

  /** Reading back the child just set gives it; setting the child a node
      already has gives the same node; a second set overrides the first. */
  lemma SetLeftLaws(t: Tree, a: Tree, b: Tree)
    requires t.Node?
    ensures Left(SetLeft(t, a)) == a
    ensures SetLeft(t, Left(t)) == t
    ensures SetLeft(SetLeft(t, a), b) == SetLeft(t, b)
    ensures Right(SetLeft(t, a)) == Right(t)
  {
  }

  lemma SetRightLaws(t: Tree, a: Tree, b: Tree)
    requires t.Node?
    ensures Right(SetRight(t, a)) == a
    ensures SetRight(t, Right(t)) == t
    ensures SetRight(SetRight(t, a), b) == SetRight(t, b)
    ensures Left(SetRight(t, a)) == Left(t)
  {
  }

  /** `rotateLeft(set)`: the right child moves up, keeping the in-order
      sequence; without a right child to promote the result is the empty
      tree (`setLeft(null, …)` is `null`). */
  function RotateLeft(t: Tree): (r: Tree)
    ensures Right(t).Nil? ==> r == Nil
    ensures Right(t).Node? ==> Inorder(r) == Inorder(t)
  {
    var rightChild := Right(t);
    SetLeft(rightChild, SetRight(t, Left(rightChild)))
  }

  /** `rotateRight`, with the parameter the source's declaration omits: the
      mirror image of RotateLeft. */
  function RotateRight(t: Tree): (r: Tree)
    ensures Left(t).Nil? ==> r == Nil
    ensures Left(t).Node? ==> Inorder(r) == Inorder(t)
  {
    var leftChild := Left(t);
    SetRight(leftChild, SetLeft(t, Right(leftChild)))
  }

  /** A left rotation makes the old right child the root, hangs the old root
      to its left with the former right-left grandchild as right child, and
      keeps the search-tree invariant. */
  lemma RotateLeftShape(t: Tree)
    requires t.Node? && t.right.Node?
    ensures RotateLeft(t) == Node(Node(t.left, t.item, t.right.left), t.right.item, t.right.right)
    ensures IsBST(RotateLeft(t)) <==> IsBST(t)
  {
    SearchTreeIffIncreasing(t);
    SearchTreeIffIncreasing(RotateLeft(t));
  }

  lemma RotateRightShape(t: Tree)
    requires t.Node? && t.left.Node?
    ensures RotateRight(t) == Node(t.left.left, t.left.item, Node(t.left.right, t.item, t.right))
    ensures IsBST(RotateRight(t)) <==> IsBST(t)
  {
    SearchTreeIffIncreasing(t);
    SearchTreeIffIncreasing(RotateRight(t));
  }

  /** The two rotations undo each other. */
  lemma RotationsInverse(t: Tree)
    ensures t.Node? && t.right.Node? ==> RotateRight(RotateLeft(t)) == t
    ensures t.Node? && t.left.Node? ==> RotateLeft(RotateRight(t)) == t
  {
  }

  /** The triple `[set, leftLast, rightFirst]` threaded through the descent. */
  datatype Walk = Walk(current: Tree, leftLast: Tree, rightFirst: Tree)

  /** `linkLeft`: the current node becomes the last node linked left and the
      descent continues into its right subtree. The copy `setRight(leftLast,
      set)` is dropped by the source, so `leftLast` keeps no trace of it and
      `rightFirst` is passed on as it is. */
  function LinkLeft(w: Walk): (r: Walk)
    ensures r.leftLast == w.current && r.rightFirst == w.rightFirst
    ensures w.current.Node? ==>
      Inorder(w.current) == Inorder(w.current.left) + [w.current.item] + Inorder(r.current)
  {
    Walk(Right(w.current), w.current, w.rightFirst)
  }

  /** `linkRight`: the mirror image; the current node becomes the first node
      linked right and the descent continues into its left subtree. */
  function LinkRight(w: Walk): (r: Walk)
    ensures r.rightFirst == w.current && r.leftLast == w.leftLast
    ensures w.current.Node? ==>
      Inorder(w.current) == Inorder(r.current) + [w.current.item] + Inorder(w.current.right)
  {
    Walk(Left(w.current), w.leftLast, w.current)
  }

  /** What `splay` returns: its (empty) input, or `[cmp, node]`. */
  datatype SplayResult = EmptySet | Stopped(cmp: int, node: Tree)

  /** The recursive `splayStep`: every call returns -1, 0 or 1 with the node
      where the descent stopped, and the indicator tells how that node
      relates to `item`: it holds `item`, or it is larger with no left child,
      or smaller with no right child. */
  function SplayStep(item: int, w: Walk): (r: SplayResult)
    requires w.current.Node?
    ensures r.Stopped? && r.node.Node?
    ensures r.cmp == 0 || r.cmp == -1 || r.cmp == 1
    ensures r.cmp == 0 ==> r.node.item == item
    ensures r.cmp == -1 ==> item < r.node.item && r.node.left.Nil?
    ensures r.cmp == 1 ==> item > r.node.item && r.node.right.Nil?
    decreases Size(w.current)
  {
    var t := w.current;
    var cmp := Compare(item, t.item);
    if cmp < 0 then
      if t.left.Nil? then Stopped(-1, t)
      else
        var cmp2 := Compare(item, Left(t).item);
        var t' := if cmp2 < 0 then RotateRight(t) else t;
        if cmp2 < 0 && Left(t').Nil? then Stopped(-1, t')
        else
          assert Size(Left(t')) < Size(t);
          SplayStep(item, LinkRight(Walk(t', w.leftLast, w.rightFirst)))
    else if cmp > 0 then
      if t.right.Nil? then Stopped(1, t)
      else
        var cmp2 := Compare(item, Right(t).item);
        var t' := if cmp2 > 0 then RotateLeft(t) else t;
        if cmp2 > 0 && Right(t').Nil? then Stopped(1, t')
        else
          assert Size(Right(t')) < Size(t);
          SplayStep(item, LinkLeft(Walk(t', w.leftLast, w.rightFirst)))
    else
      Stopped(0, t)
  }

  /** `splay`: an empty set is returned as it is; otherwise the descent
      starts with both accumulators empty. */
  function Splay(item: int, t: Tree): (r: SplayResult)
    ensures t.Nil? <==> r.EmptySet?
  {
    if t.Nil? then EmptySet else SplayStep(item, Walk(t, Nil, Nil))
  }

  /** A call of the source's `splayStep` either throws or returns. */
  datatype Outcome = Threw | Returned(result: SplayResult)

  /** `splayStep` as index.js:74-103 declares `rotateRight`: with no
      parameter, its body reads a `set` that is not in scope, so the call in
      the left-left case throws instead of rotating. Everywhere else it is
      the step above, and where it returns it agrees with it. */
  function SplayStepAsWritten(item: int, w: Walk): (r: Outcome)
    requires w.current.Node?
    ensures r.Returned? ==> r.result == SplayStep(item, w)
    decreases Size(w.current)
  {
    var t := w.current;
    var cmp := Compare(item, t.item);
    if cmp < 0 then
      if t.left.Nil? then Returned(Stopped(-1, t))
      else if Compare(item, Left(t).item) < 0 then Threw
      else
        assert Size(Left(t)) < Size(t);
        SplayStepAsWritten(item, LinkRight(Walk(t, w.leftLast, w.rightFirst)))
    else if cmp > 0 then
      if t.right.Nil? then Returned(Stopped(1, t))
      else
        var cmp2 := Compare(item, Right(t).item);
        var t' := if cmp2 > 0 then RotateLeft(t) else t;
        if cmp2 > 0 && Right(t').Nil? then Returned(Stopped(1, t'))
        else
          assert Size(Right(t')) < Size(t);
          SplayStepAsWritten(item, LinkLeft(Walk(t', w.leftLast, w.rightFirst)))
    else
      Returned(Stopped(0, t))
  }

  /** The test set of sixteen with children 8 (4, 12) and 24 (20, 28). */
  function SampleSet(): Tree
  {
    Node(Node(Leaf(4), 8, Leaf(12)), 16, Node(Leaf(20), 24, Leaf(28)))
  }

  /** Looking up 1 in that set rotates right at once (1 < 16 and 1 < 8): as
      written the call throws, while with the parameter restored it stops at
      the leaf 4 with indicator -1. */
  lemma AsWrittenThrows()
    ensures SplayStepAsWritten(1, Walk(SampleSet(), Nil, Nil)) == Threw
    ensures Splay(1, SampleSet()) == Stopped(-1, Leaf(4))
  {
    var t := SampleSet();
    RotateRightShape(t);
    var t' := RotateRight(t);
    assert SplayStep(1, Walk(t, Nil, Nil)) == SplayStep(1, LinkRight(Walk(t', Nil, Nil)));
  }

  /** On a search tree the descent only ever narrows to a search subtree
      that holds `item` exactly when the whole tree does. */
  lemma {:induction false} SplayStepNarrows(item: int, w: Walk)
    requires w.current.Node? && IsBST(w.current)
    ensures IsBST(SplayStep(item, w).node)
    ensures Items(SplayStep(item, w).node) <= Items(w.current)
    ensures item in Items(w.current) <==> item in Items(SplayStep(item, w).node)
    decreases Size(w.current)
  {
    var t := w.current;
    var cmp := Compare(item, t.item);
    if cmp < 0 && t.left.Node? {
      var cmp2 := Compare(item, Left(t).item);
      var t' := if cmp2 < 0 then RotateRight(t) else t;
      if cmp2 < 0 {
        RotateRightShape(t);
        ItemsAreInorder(t);
        ItemsAreInorder(t');
      }
      assert IsBST(t') && Items(t') == Items(t);
      if !(cmp2 < 0 && Left(t').Nil?) {
        assert Size(Left(t')) < Size(t);
        assert item < t'.item;
        assert item in Items(t') <==> item in Items(Left(t'));
        SplayStepNarrows(item, LinkRight(Walk(t', w.leftLast, w.rightFirst)));
      }
    } else if cmp > 0 && t.right.Node? {
      var cmp2 := Compare(item, Right(t).item);
      var t' := if cmp2 > 0 then RotateLeft(t) else t;
      if cmp2 > 0 {
        RotateLeftShape(t);
        ItemsAreInorder(t);
        ItemsAreInorder(t');
      }
      assert IsBST(t') && Items(t') == Items(t);
      if !(cmp2 > 0 && Right(t').Nil?) {
        assert Size(Right(t')) < Size(t);
        assert item > t'.item;
        assert item in Items(t') <==> item in Items(Right(t'));
        SplayStepNarrows(item, LinkLeft(Walk(t', w.leftLast, w.rightFirst)));
      }
    }
  }

  /** On a search tree the indicator is 0 exactly when `item` is present,
      and the node returned is a search tree made of items of the input. */
  lemma SplayFindsPresent(item: int, t: Tree)
    requires IsBST(t) && t.Node?
    ensures IsBST(Splay(item, t).node) && Items(Splay(item, t).node) <= Items(t)
    ensures Splay(item, t).cmp == 0 <==> item in Items(t)
  {
    var r := Splay(item, t);
    SplayStepNarrows(item, Walk(t, Nil, Nil));
    if r.cmp == -1 {
      assert item !in Items(r.node.left);
    } else if r.cmp == 1 {
      assert item !in Items(r.node.right);
    }
  }

  /** `has`: false on an empty set, otherwise whether the indicator is 0. */
  function Has(item: int, t: Tree): (found: bool)
    ensures t.Nil? ==> !found
    ensures IsBST(t) ==> (found <==> item in Items(t))
  {
    if t.Nil? then false
    else
      var r := Splay(item, t);
      assert IsBST(t) ==> (r.cmp == 0 <==> item in Items(t)) by {
        if IsBST(t) { SplayFindsPresent(item, t); }
      }
      r.cmp == 0
  }

  /** On a search tree `has` agrees with ordinary search. */
  lemma HasAgreesWithSearch(item: int, t: Tree)
    requires IsBST(t)
    ensures Has(item, t) == Member(item, t)
  {
    MemberIffPresent(item, t);
  }

  function Leaf(item: int): Tree
  {
    Node(Nil, item, Nil)
  }

  /** `insert`: a fresh leaf for an empty set; the input itself when the
      indicator is 0; otherwise a copy of the node where the descent stopped
      with the new leaf put in the child slot on the indicator's side. That
      slot is empty, so the copy holds the stopping node's items and `item`. */
  function Insert(item: int, t: Tree): (r: Tree)
    ensures r.Node?
    ensures t.Nil? ==> Items(r) == {item}
    ensures t.Node? && Splay(item, t).cmp != 0 ==>
      Items(r) == Items(Splay(item, t).node) + {item} &&
      Size(r) == Size(Splay(item, t).node) + 1
  {
    var node := Leaf(item);
    if t.Nil? then node
    else
      var s := Splay(item, t);
      if s.cmp == 0 then t
      else if s.cmp < 0 then SetLeft(s.node, node)
      else SetRight(s.node, node)
  }

  /** On a search tree: a present item leaves the set as it is; an absent one
      is added as a leaf in the slot the descent stopped at, which was empty,
      so the result is a search tree holding the stopping subtree's items
      plus `item` (the rest of the input is not part of the result). */
  lemma InsertIntoSearchTree(item: int, t: Tree)
    requires IsBST(t)
    ensures t.Nil? ==> Insert(item, t) == Leaf(item)
    ensures item in Items(t) ==> Insert(item, t) == t
    ensures t.Node? && item !in Items(t) ==>
      var n := Splay(item, t).node;
      (Insert(item, t) == Node(Leaf(item), n.item, n.right) && n.left.Nil? && item < n.item) ||
      (Insert(item, t) == Node(n.left, n.item, Leaf(item)) && n.right.Nil? && n.item < item)
    ensures IsBST(Insert(item, t))
    ensures item in Items(Insert(item, t))
    ensures Items(Insert(item, t)) <= Items(t) + {item}
    ensures t.Node? && item !in Items(t) ==>
      Items(Insert(item, t)) == Items(Splay(item, t).node) + {item}
  {
    if t.Node? {
      SplayFindsPresent(item, t);
    }
  }
}
