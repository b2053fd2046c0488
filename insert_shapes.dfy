/** `insert` and `build` of lib/splay.js stated on node trees. `insert`
    splays first and then writes one link of the splayed tree, so its result
    is a function of the tree's shape, the item and the fresh leaf node.
    When the item is found, the source returns the old root rather than the
    splayed one: `InsertShapeAsWritten` is the source's `insert` and the
    one `build` folds; `InsertShape` returns the splayed tree instead and
    serves as the reference it is compared with. On a miss the source writes
    the new leaf over whatever hangs in the link it picks; the lemmas below
    state when it does add the item and exhibit the case where it loses
    items. Either way the result is a search tree. */
module InsertShapes {
  import opened BinaryTrees
  import opened SplayNodes
  import opened SplayShapes

  function Leaf(n: Node): HTree
  {
    HNode(HNil, n, HNil)
  }

  lemma ValueLeaf(n: Node)
    ensures Value(Leaf(n)) == Node(Nil, n.item, Nil)
    ensures Items(Value(Leaf(n))) == {n.item}
    ensures Nodes(Leaf(n)) == {n} && Distinct(Leaf(n))
  {
  }

  /** What `insert` does once the tree is splayed: when the item was found
      the splayed tree is the answer; otherwise `leaf` hangs on the item's
      side of the new root, in the empty child slot or, when that side is
      occupied, over the inner link of the child there. */
  function Attach(s: Splayed, leaf: Node): (r: HTree)
    requires s.tree.HNode?
    ensures r.HNode? && r.node == s.tree.node
    ensures s.cmp != 0 ==> leaf in Nodes(r)
  {
    var HNode(l, x, rt) := s.tree;
    assert leaf in Nodes(Leaf(leaf));
    if s.cmp == 0 then s.tree
    else if s.cmp < 0 then
      if l.HNode? then
        var l' := HNode(l.left, l.node, Leaf(leaf));
        assert leaf in Nodes(l');
        HNode(l', x, rt)
      else HNode(Leaf(leaf), x, rt)
    else
      if rt.HNode? then
        var rt' := HNode(Leaf(leaf), rt.node, rt.right);
        assert leaf in Nodes(rt');
        HNode(l, x, rt')
      else HNode(l, x, Leaf(leaf))
  }

  /** The tree below the node `insert(item, set)` returns, `leaf` being the
      node it allocates: a lone leaf for the empty tree. */
  ghost function InsertShape(item: int, t: HTree, leaf: Node): (r: HTree)
    ensures r.HNode?
    ensures t.HNode? ==> r.node == SplayShape(item, t).tree.node
    ensures t.HNil? || SplayShape(item, t).cmp != 0 ==> leaf in Nodes(r)
  {
    if t.HNil? then Leaf(leaf) else Attach(SplayShape(item, t), leaf)
  }

  /** `insert` exactly as lib/splay.js:41-63 reads: on a hit it returns the
      node that was the root before splaying, wherever the splay moved it,
      with the subtree now below that node. It agrees with `InsertShape`
      except on a hit that moved the root. */
  ghost function InsertShapeAsWritten(item: int, t: HTree, leaf: Node): (r: HTree)
    ensures t.HNode? ==> r.HNode? || SplayShape(item, t).cmp == 0
  {
    if t.HNil? then Leaf(leaf)
    else
      var s := SplayShape(item, t);
      if s.cmp == 0 then Find(s.tree, t.node) else Attach(s, leaf)
  }

  /** The source's `insert` and the corrected one differ only on a hit
      that moved the old root away from the top. */
  lemma AsWrittenAgrees(item: int, t: HTree, leaf: Node)
    requires t.HNil? || SplayShape(item, t).cmp != 0 || t.node.item == item
    ensures InsertShapeAsWritten(item, t, leaf) == InsertShape(item, t, leaf)
  {
  }

  /** The link `insert` writes held nothing: it is the new root's empty
      child slot, or the inner link of the child there and that is empty. */
  predicate WritesEmptySlot(s: Splayed)
    requires s.tree.HNode?
  {
    (s.cmp < 0 ==> s.tree.left.HNil? || s.tree.left.right.HNil?) &&
    (s.cmp > 0 ==> s.tree.right.HNil? || s.tree.right.left.HNil?)
  }

  /** Attaching keeps each node once, and uses only the splayed tree's
      nodes and the leaf. */
  lemma AttachNodes(s: Splayed, leaf: Node)
    requires s.tree.HNode? && Distinct(s.tree) && leaf !in Nodes(s.tree)
    ensures Distinct(Attach(s, leaf))
    ensures Nodes(Attach(s, leaf)) <= Nodes(s.tree) + {leaf}
  {
    var HNode(l, x, rt) := s.tree;
    ValueLeaf(leaf);
    if s.cmp < 0 && l.HNode? {
      var HNode(l1, y, l2) := l;
      var l' := HNode(l1, y, Leaf(leaf));
      assert Attach(s, leaf) == HNode(l', x, rt);
      assert Distinct(l) && Nodes(l) == Nodes(l1) + {y} + Nodes(l2);
      assert Distinct(l') && Nodes(l') == Nodes(l1) + {y} + {leaf};
    } else if s.cmp > 0 && rt.HNode? {
      var HNode(r1, y, r2) := rt;
      var rt' := HNode(Leaf(leaf), y, r2);
      assert Attach(s, leaf) == HNode(l, x, rt');
      assert Distinct(rt) && Nodes(rt) == Nodes(r1) + {y} + Nodes(r2);
      assert Distinct(rt') && Nodes(rt') == {leaf} + {y} + Nodes(r2);
    }
  }

  /** Attaching adds no item but the leaf's. */
  lemma AttachItems(s: Splayed, leaf: Node)
    requires s.tree.HNode?
    ensures Items(Value(Attach(s, leaf))) <= Items(Value(s.tree)) + {leaf.item}
  {
    var HNode(l, x, rt) := s.tree;
    ValueLeaf(leaf);
    if s.cmp < 0 && l.HNode? {
      var HNode(l1, y, l2) := l;
      var l' := HNode(l1, y, Leaf(leaf));
      assert Attach(s, leaf) == HNode(l', x, rt);
      assert Items(Value(l)) == Items(Value(l1)) + {y.item} + Items(Value(l2));
      assert Items(Value(l')) == Items(Value(l1)) + {y.item} + {leaf.item};
    } else if s.cmp > 0 && rt.HNode? {
      var HNode(r1, y, r2) := rt;
      var rt' := HNode(Leaf(leaf), y, r2);
      assert Attach(s, leaf) == HNode(l, x, rt');
      assert Items(Value(rt)) == Items(Value(r1)) + {y.item} + Items(Value(r2));
      assert Items(Value(rt')) == {leaf.item} + {y.item} + Items(Value(r2));
    }
  }

  /** When the leaf's item lies strictly between the subtree on its side
      of the root and the root, and the written link was empty, attaching
      adds exactly that item and keeps a search tree. */
  lemma AttachAddsItem(s: Splayed, leaf: Node)
    requires s.tree.HNode? && IsBST(Value(s.tree)) && WritesEmptySlot(s) && s.cmp != 0
    requires s.cmp < 0 ==>
      leaf.item < s.tree.node.item && forall y :: y in Items(Value(s.tree.left)) ==> y < leaf.item
    requires s.cmp > 0 ==>
      s.tree.node.item < leaf.item && forall y :: y in Items(Value(s.tree.right)) ==> leaf.item < y
    ensures Items(Value(Attach(s, leaf))) == Items(Value(s.tree)) + {leaf.item}
    ensures IsBST(Value(Attach(s, leaf)))
  {
    var HNode(l, x, rt) := s.tree;
    var v := leaf.item;
    ValueLeaf(leaf);
    assert Items(Value(s.tree)) == Items(Value(l)) + {x.item} + Items(Value(rt));
    if s.cmp < 0 {
      if l.HNode? {
        var HNode(l1, y, l2) := l;
        assert l2.HNil?;
        var l' := HNode(l1, y, Leaf(leaf));
        assert Attach(s, leaf) == HNode(l', x, rt);
        assert Items(Value(l)) == Items(Value(l1)) + {y.item};
        assert Items(Value(l')) == Items(Value(l)) + {v};
        assert IsBST(Value(l'));
      } else {
        assert Attach(s, leaf) == HNode(Leaf(leaf), x, rt);
      }
    } else {
      if rt.HNode? {
        var HNode(r1, y, r2) := rt;
        assert r1.HNil?;
        var rt' := HNode(Leaf(leaf), y, r2);
        assert Attach(s, leaf) == HNode(l, x, rt');
        assert Items(Value(rt)) == {y.item} + Items(Value(r2));
        assert Items(Value(rt')) == Items(Value(rt)) + {v};
        assert IsBST(Value(rt'));
      } else {
        assert Attach(s, leaf) == HNode(l, x, Leaf(leaf));
      }
    }
  }

  /** `insert` keeps each node once, uses only the old tree's nodes and
      the fresh leaf, and never empties a tree: on a hit the old root is
      still among the splayed tree's nodes. */
  lemma InsertKeepsNodes(item: int, t: HTree, leaf: Node)
    requires Distinct(t) && leaf !in Nodes(t)
    ensures Distinct(InsertShapeAsWritten(item, t, leaf))
    ensures Nodes(InsertShapeAsWritten(item, t, leaf)) <= Nodes(t) + {leaf}
    ensures t.HNode? ==> InsertShapeAsWritten(item, t, leaf).HNode?
  {
    if t.HNode? {
      SplayKeepsNodes(item, t);
      AttachNodes(SplayShape(item, t), leaf);
    }
  }

  /** `insert` never invents an item: whatever it returns holds items of
      the old tree and the inserted one. */
  lemma InsertItemsBound(item: int, t: HTree, leaf: Node)
    requires leaf.item == item
    ensures Items(Value(InsertShapeAsWritten(item, t, leaf))) <= Items(Value(t)) + {item}
  {
    if t.HNode? {
      SplayKeepsInorder(item, t);
      AttachItems(SplayShape(item, t), leaf);
    }
  }

  /** When the item is already at the root, the splay stops at once and
      `insert` gives back the tree as it was. */
  lemma InsertAtRoot(item: int, t: HTree, leaf: Node)
    requires t.HNode? && t.node.item == item
    ensures SplayShape(item, t) == Splayed(0, t)
    ensures InsertShape(item, t, leaf) == t
    ensures Find(SplayShape(item, t).tree, t.node) == t
  {
    assert Descend(item, t, [], []) == Stop(0, t, [], []);
  }

  /** On a search tree that holds the item, `insert` returns the tree
      splayed to it: the same items, still a search tree, with the item at
      the root and the leaf left out. */
  lemma InsertFoundKeeps(item: int, t: HTree, leaf: Node)
    requires t.HNode? && IsBST(Value(t)) && item in Items(Value(t))
    ensures InsertShape(item, t, leaf).HNode? && InsertShape(item, t, leaf).node.item == item
    ensures Items(Value(InsertShape(item, t, leaf))) == Items(Value(t))
    ensures IsBST(Value(InsertShape(item, t, leaf)))
    ensures Distinct(t) ==> Nodes(InsertShape(item, t, leaf)) == Nodes(t)
  {
    SplayKeepsInorder(item, t);
    SplayFindsNeighbour(item, t);
    if Distinct(t) {
      SplayKeepsNodes(item, t);
    }
  }

  /** On a search tree without the item, when the splayed root's child on
      the item's side is empty, the leaf fills that slot below the splayed
      root, which `insert` returns. */
  lemma InsertFillsSlot(item: int, t: HTree, leaf: Node)
    requires t.HNode? && IsBST(Value(t)) && item !in Items(Value(t))
    ensures var s := SplayShape(item, t);
      s.cmp != 0 &&
      (s.cmp < 0 && s.tree.left.HNil? ==>
        InsertShapeAsWritten(item, t, leaf) == HNode(Leaf(leaf), s.tree.node, s.tree.right)) &&
      (s.cmp > 0 && s.tree.right.HNil? ==>
        InsertShapeAsWritten(item, t, leaf) == HNode(s.tree.left, s.tree.node, Leaf(leaf)))
  {
    SplayFindsNeighbour(item, t);
  }

  /** On a search tree without the item, whenever the link `insert` writes
      was empty, the result is a search tree holding the old items and the
      new one. */
  lemma InsertAddsItem(item: int, t: HTree, leaf: Node)
    requires leaf.item == item
    requires t.HNode? && IsBST(Value(t)) && item !in Items(Value(t))
    requires WritesEmptySlot(SplayShape(item, t))
    ensures Items(Value(InsertShapeAsWritten(item, t, leaf))) == Items(Value(t)) + {item}
    ensures IsBST(Value(InsertShapeAsWritten(item, t, leaf)))
  {
    SplayKeepsInorder(item, t);
    SplayFindsNeighbour(item, t);
    SplaySides(item, t);
    AttachAddsItem(SplayShape(item, t), leaf);
  }

  /** Hanging a leaf whose item lies between the subtree on its side of the
      root and the root keeps a search tree, even where it overwrites a
      link, and the leaf's item is then in the tree. */
  lemma AttachKeepsBST(s: Splayed, leaf: Node)
    requires s.tree.HNode? && IsBST(Value(s.tree))
    requires s.cmp < 0 ==>
      leaf.item < s.tree.node.item && forall y :: y in Items(Value(s.tree.left)) ==> y < leaf.item
    requires s.cmp > 0 ==>
      s.tree.node.item < leaf.item && forall y :: y in Items(Value(s.tree.right)) ==> leaf.item < y
    ensures IsBST(Value(Attach(s, leaf)))
    ensures s.cmp != 0 ==> leaf.item in Items(Value(Attach(s, leaf)))
  {
    var HNode(l, x, rt) := s.tree;
    var v := leaf.item;
    ValueLeaf(leaf);
    if s.cmp < 0 {
      if l.HNode? {
        var HNode(l1, y, l2) := l;
        var l' := HNode(l1, y, Leaf(leaf));
        assert Attach(s, leaf) == HNode(l', x, rt);
        assert Items(Value(l)) == Items(Value(l1)) + {y.item} + Items(Value(l2));
        assert Items(Value(l')) == Items(Value(l1)) + {y.item} + {v};
        assert IsBST(Value(l'));
        assert forall z :: z in Items(Value(l')) ==> z < x.item;
      } else {
        assert Attach(s, leaf) == HNode(Leaf(leaf), x, rt);
      }
    } else if s.cmp > 0 {
      if rt.HNode? {
        var HNode(r1, y, r2) := rt;
        var rt' := HNode(Leaf(leaf), y, r2);
        assert Attach(s, leaf) == HNode(l, x, rt');
        assert Items(Value(rt)) == Items(Value(r1)) + {y.item} + Items(Value(r2));
        assert Items(Value(rt')) == {v} + {y.item} + Items(Value(r2));
        assert IsBST(Value(rt'));
        assert forall z :: z in Items(Value(rt')) ==> x.item < z;
      } else {
        assert Attach(s, leaf) == HNode(l, x, Leaf(leaf));
      }
    }
  }

  /** On a search tree `insert` returns a search tree, written as it is or
      corrected; the corrected one always holds the item, the written one
      whenever the item was not there before. */
  lemma InsertKeepsBST(item: int, t: HTree, leaf: Node)
    requires leaf.item == item && IsBST(Value(t))
    ensures IsBST(Value(InsertShapeAsWritten(item, t, leaf)))
    ensures IsBST(Value(InsertShape(item, t, leaf)))
    ensures item in Items(Value(InsertShape(item, t, leaf)))
    ensures item !in Items(Value(t)) ==> item in Items(Value(InsertShapeAsWritten(item, t, leaf)))
  {
    ValueLeaf(leaf);
    if t.HNode? {
      var s := SplayShape(item, t);
      SplayKeepsInorder(item, t);
      SplaySides(item, t);
      SplayFindsNeighbour(item, t);
      AttachKeepsBST(s, leaf);
      var HNode(l, x, rt) := s.tree;
      assert Items(Value(s.tree)) == Items(Value(l)) + {x.item} + Items(Value(rt));
    }
  }

  /** As written, a hit loses items: inserting 2 into the tree 1 with right
      child 2 splays 2 to the root, finds it, and returns the old root 1,
      below which only 1 is left; returning the splayed root keeps both. */
  lemma InsertReturnsMovedRoot(n1: Node, n2: Node, leaf: Node)
    requires n1.item == 1 && n2.item == 2 && n1 != n2 && leaf != n1 && leaf != n2
    ensures var t := HNode(HNil, n1, Leaf(n2));
      SplayShape(2, t) == Splayed(0, HNode(Leaf(n1), n2, HNil)) &&
      InsertShapeAsWritten(2, t, leaf) == Leaf(n1) &&
      Items(Value(InsertShapeAsWritten(2, t, leaf))) == {1} &&
      Items(Value(InsertShape(2, t, leaf))) == {1, 2}
  {
    var t := HNode(HNil, n1, Leaf(n2));
    var stop := Stop(0, Leaf(n2), [Link(n1, HNil)], []);
    assert Descend(2, Leaf(n2), [Link(n1, HNil)], []) == stop;
    assert Descend(2, t, [], []) == stop;
    assert [Link(n1, HNil)][1..] == [];
    assert LeftBuilt([Link(n1, HNil)], HNil) == Leaf(n1);
    var st := HNode(Leaf(n1), n2, HNil);
    assert Assemble(stop) == st;
    assert SplayShape(2, t) == Splayed(0, st);
    assert n1 in Nodes(Leaf(n1));
    assert Find(st, n1) == Leaf(n1);
    assert InsertShapeAsWritten(2, t, leaf) == Find(st, n1);
    assert InsertShape(2, t, leaf) == st;
    assert Items(Value(st)) == {1, 2};
  }

  /** On a miss with the item's side occupied: inserting 22 into 10(_, 30(20(_, 25), _)) splays 25
      to the root with 10(_, 20) on its left; the leaf 22 is then written
      over 10's right link and 20 is lost. */
  lemma InsertOverwritesGrandchild(n10: Node, n20: Node, n25: Node, n30: Node, leaf: Node)
    requires n10.item == 10 && n20.item == 20 && n25.item == 25 && n30.item == 30 && leaf.item == 22
    requires n10 != n20 && n10 != n25 && n10 != n30 && n20 != n25 && n20 != n30 && n25 != n30
    requires leaf !in {n10, n20, n25, n30}
    ensures var t := HNode(HNil, n10, HNode(HNode(HNil, n20, Leaf(n25)), n30, HNil));
      SplayShape(22, t) == Splayed(-3, HNode(HNode(HNil, n10, Leaf(n20)), n25, Leaf(n30))) &&
      Value(InsertShapeAsWritten(22, t, leaf)) ==
        Node(Node(Nil, 10, Node(Nil, 22, Nil)), 25, Node(Nil, 30, Nil)) &&
      20 in Items(Value(t)) && 20 !in Items(Value(InsertShapeAsWritten(22, t, leaf)))
  {
    var t := HNode(HNil, n10, HNode(HNode(HNil, n20, Leaf(n25)), n30, HNil));
    var ls := [Link(n20, HNil), Link(n10, HNil)];
    var rs := [Link(n30, HNil)];
    var stop := Stop(-3, Leaf(n25), ls, rs);
    assert Descend(22, Leaf(n25), ls, rs) == stop;
    assert Descend(22, HNode(HNil, n20, Leaf(n25)), [Link(n10, HNil)], rs) == stop;
    assert [Link(n30, HNil)] + [] == rs && [Link(n10, HNil)] + [] == [Link(n10, HNil)];
    assert Descend(22, HNode(HNode(HNil, n20, Leaf(n25)), n30, HNil), [Link(n10, HNil)], []) == stop;
    assert Descend(22, t, [], []) == stop;
    assert ls[1..] == [Link(n10, HNil)] && ls[1..][1..] == [] && rs[1..] == [];
    assert LeftBuilt([], HNode(HNil, n10, Leaf(n20))) == HNode(HNil, n10, Leaf(n20));
    assert LeftBuilt([Link(n10, HNil)], Leaf(n20)) == HNode(HNil, n10, Leaf(n20));
    assert LeftBuilt(ls, HNil) == HNode(HNil, n10, Leaf(n20));
    assert RightBuilt(rs, HNil) == Leaf(n30);
    var st := HNode(HNode(HNil, n10, Leaf(n20)), n25, Leaf(n30));
    assert Assemble(stop) == st;
    assert SplayShape(22, t) == Splayed(-3, st);
    assert InsertShapeAsWritten(22, t, leaf) == HNode(HNode(HNil, n10, Leaf(leaf)), n25, Leaf(n30));
    ValueLeaf(leaf); ValueLeaf(n20); ValueLeaf(n25); ValueLeaf(n30);
    assert Items(Node(Nil, 10, Node(Nil, 22, Nil))) == {10, 22};
    assert Items(Node(Node(Nil, 10, Node(Nil, 22, Nil)), 25, Node(Nil, 30, Nil))) == {10, 22, 25, 30};
    assert Value(HNode(HNil, n20, Leaf(n25))) == Node(Nil, 20, Node(Nil, 25, Nil));
    assert Value(t) == Node(Nil, 10, Node(Node(Nil, 20, Node(Nil, 25, Nil)), 30, Nil));
    assert Items(Node(Node(Nil, 20, Node(Nil, 25, Nil)), 30, Nil)) == {20, 25, 30};
  }

  /** `build(a)`: `insert` folded over the items from the first, starting
      from the empty tree; `leaves[i]` is the node allocated for `a[i]`. */
  ghost function BuildShape(a: seq<int>, leaves: seq<Node>): HTree
    requires |leaves| == |a|
  {
    if a == [] then HNil
    else
      var n := |a| - 1;
      InsertShapeAsWritten(a[n], BuildShape(a[..n], leaves[..n]), leaves[n])
  }

  /** Building one more item inserts it into the tree built so far. */
  lemma BuildStep(a: seq<int>, leaves: seq<Node>, x: int, leaf: Node)
    requires |leaves| == |a|
    ensures BuildShape(a + [x], leaves + [leaf]) == InsertShapeAsWritten(x, BuildShape(a, leaves), leaf)
  {
    assert (a + [x])[..|a|] == a && (leaves + [leaf])[..|a|] == leaves;
  }

  /** Every insertion allocates a node of its own. */
  ghost predicate AllDistinct(leaves: seq<Node>)
  {
    forall i, j :: 0 <= i < j < |leaves| ==> leaves[i] != leaves[j]
  }

  lemma AllDistinctAppend(leaves: seq<Node>, leaf: Node)
    requires AllDistinct(leaves) && leaf !in leaves
    ensures AllDistinct(leaves + [leaf])
  {
    forall i, j | 0 <= i < j < |leaves| + 1
      ensures (leaves + [leaf])[i] != (leaves + [leaf])[j]
    {
      if j == |leaves| {
        assert leaves[i] in leaves;
      }
    }
  }

  /** A built tree holds each of its nodes once, all of them allocated by
      the insertions, and only items of the input. */
  lemma {:induction false} BuildKeepsNodes(a: seq<int>, leaves: seq<Node>)
    requires |leaves| == |a| && AllDistinct(leaves)
    requires forall i :: 0 <= i < |a| ==> leaves[i].item == a[i]
    ensures Distinct(BuildShape(a, leaves))
    ensures forall n :: n in Nodes(BuildShape(a, leaves)) ==> n in leaves
    ensures forall y :: y in Items(Value(BuildShape(a, leaves))) ==> y in a
    decreases |a|
  {
    if a != [] {
      var n := |a| - 1;
      var prev := BuildShape(a[..n], leaves[..n]);
      BuildKeepsNodes(a[..n], leaves[..n]);
      assert forall i :: 0 <= i < n ==> leaves[..n][i] != leaves[n];
      assert leaves[n] !in leaves[..n];
      InsertKeepsNodes(a[n], prev, leaves[n]);
      InsertItemsBound(a[n], prev, leaves[n]);
    }
  }

  /** `build` returns a search tree, whatever its input. */
  lemma {:induction false} BuildIsBST(a: seq<int>, leaves: seq<Node>)
    requires |leaves| == |a|
    requires forall i :: 0 <= i < |a| ==> leaves[i].item == a[i]
    ensures IsBST(Value(BuildShape(a, leaves)))
    decreases |a|
  {
    if a != [] {
      var n := |a| - 1;
      BuildIsBST(a[..n], leaves[..n]);
      InsertKeepsBST(a[n], BuildShape(a[..n], leaves[..n]), leaves[n]);
    }
  }
}
