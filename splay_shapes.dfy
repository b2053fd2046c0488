/** The top-down splay of lib/splay.js stated on node trees, step by step
    as the loop runs. The two accumulator chains are sequences of links,
    newest first: on the left chain each node keeps its left subtree and
    hangs (through its right link) off the node linked before it; on the
    right chain each node keeps its right subtree and hangs through its left
    link. `Descend` is the loop, `Assemble` the final relinking. */
module SplayShapes {
  import opened BinaryTrees
  import opened SplayNodes

  /** A node moved onto a chain, with the subtree it keeps. */
  datatype Link = Link(node: Node, side: HTree)

  /** The state the loop stops in: the last indicator, the current subtree,
      and the two chains. */
  datatype Stop = Stop(cmp: int, at: HTree, ls: seq<Link>, rs: seq<Link>)

  /** What `splay` returns: `[cmp, newRoot]`, with the tree below the root. */
  datatype Splayed = Splayed(cmp: int, tree: HTree)

  ghost function LinkNodes(k: Link): set<Node>
  {
    {k.node} + Nodes(k.side)
  }

  ghost function ChainNodes(ls: seq<Link>): set<Node>
  {
    if ls == [] then {} else LinkNodes(ls[0]) + ChainNodes(ls[1..])
  }

  /** The links of a chain own disjoint sets of nodes, each once. */
  ghost predicate ChainOk(ls: seq<Link>)
  {
    ls == [] ||
    (Distinct(ls[0].side) && ls[0].node !in Nodes(ls[0].side) &&
     LinkNodes(ls[0]) !! ChainNodes(ls[1..]) && ChainOk(ls[1..]))
  }

  /** The current subtree and the two chains own disjoint sets of nodes. */
  ghost predicate Separate(cur: HTree, ls: seq<Link>, rs: seq<Link>)
  {
    Distinct(cur) && ChainOk(ls) && ChainOk(rs) &&
    Nodes(cur) !! ChainNodes(ls) && Nodes(cur) !! ChainNodes(rs) &&
    ChainNodes(ls) !! ChainNodes(rs)
  }

  /** The loop of `splay`, from the current subtree `cur` with chains `ls`
      and `rs`. It stops at a node holding `item`, or at a node whose child
      on `item`'s side is empty, and the indicator it stops with is
      `item - stop.item`. */
  ghost function Descend(item: int, cur: HTree, ls: seq<Link>, rs: seq<Link>): (s: Stop)
    requires cur.HNode?
    ensures s.at.HNode? && s.cmp == Compare(item, s.at.node.item)
    ensures s.cmp < 0 ==> s.at.left.HNil?
    ensures s.cmp > 0 ==> s.at.right.HNil?
    decreases cur
  {
    var HNode(a, x, c) := cur;
    var cmp := Compare(item, x.item);
    if cmp < 0 then
      match a
      case HNil => Stop(cmp, cur, ls, rs)
      case HNode(a1, y, a2) =>
        var cmp2 := Compare(item, y.item);
        if cmp2 < 0 then
          // rotate right, then link right unless the new left is empty
          if a1.HNil? then Stop(cmp2, HNode(a1, y, HNode(a2, x, c)), ls, rs)
          else Descend(item, a1, ls, [Link(y, HNode(a2, x, c))] + rs)
        else
          // link right
          Descend(item, a, ls, [Link(x, c)] + rs)
    else if cmp > 0 then
      match c
      case HNil => Stop(cmp, cur, ls, rs)
      case HNode(c1, y, c2) =>
        var cmp2 := Compare(item, y.item);
        if cmp2 > 0 then
          // rotate left, then link left unless the new right is empty
          if c2.HNil? then Stop(cmp2, HNode(HNode(a, x, c1), y, c2), ls, rs)
          else Descend(item, c2, [Link(y, HNode(a, x, c1))] + ls, rs)
        else
          // link left
          Descend(item, c, [Link(x, a)] + ls, rs)
    else
      Stop(cmp, cur, ls, rs)
  }

  /** The left chain hung together, with `tail` below its newest node. */
  ghost function LeftBuilt(ls: seq<Link>, tail: HTree): HTree
  {
    if ls == [] then tail else LeftBuilt(ls[1..], HNode(ls[0].side, ls[0].node, tail))
  }

  ghost function RightBuilt(rs: seq<Link>, tail: HTree): HTree
  {
    if rs == [] then tail else RightBuilt(rs[1..], HNode(tail, rs[0].node, rs[0].side))
  }

  /** "assemble": the stopping node becomes the root, its old children go
      below the newest node of each chain, and the chains become its
      subtrees. */
  ghost function Assemble(s: Stop): (r: HTree)
    requires s.at.HNode?
    ensures Inorder(Value(r)) == LeftSeq(s.ls) + Inorder(Value(s.at)) + RightSeq(s.rs)
  {
    var HNode(a, x, c) := s.at;
    LeftBuiltInorder(s.ls, a);
    RightBuiltInorder(s.rs, c);
    assert Inorder(Value(s.at)) == Inorder(Value(a)) + [x.item] + Inorder(Value(c));
    Regroup(LeftSeq(s.ls), Inorder(Value(a)), x.item, Inorder(Value(c)), RightSeq(s.rs));
    HNode(LeftBuilt(s.ls, a), x, RightBuilt(s.rs, c))
  }

  /** `splay(item, set)` on a tree shape: `[-1, empty]` for the empty tree,
      otherwise the assembled tree with an indicator that is always
      `item - newRoot.item`. */
  ghost function SplayShape(item: int, t: HTree): (r: Splayed)
    ensures t.HNil? ==> r == Splayed(-1, HNil)
    ensures t.HNode? ==> r.tree.HNode? && r.cmp == Compare(item, r.tree.node.item)
  {
    if t.HNil? then Splayed(-1, HNil)
    else
      var s := Descend(item, t, [], []);
      Splayed(s.cmp, Assemble(s))
  }

  // ---------------------------------------------------------------------
  // In-order sequence

  /** The items the left chain stands for, in order. */
  ghost function LeftSeq(ls: seq<Link>): seq<int>
  {
    if ls == [] then [] else LeftSeq(ls[1..]) + Inorder(Value(ls[0].side)) + [ls[0].node.item]
  }

  ghost function RightSeq(rs: seq<Link>): seq<int>
  {
    if rs == [] then [] else [rs[0].node.item] + Inorder(Value(rs[0].side)) + RightSeq(rs[1..])
  }

  lemma {:induction false} LeftBuiltInorder(ls: seq<Link>, tail: HTree)
    ensures Inorder(Value(LeftBuilt(ls, tail))) == LeftSeq(ls) + Inorder(Value(tail))
    decreases |ls|
  {
    if ls != [] {
      LeftBuiltInorder(ls[1..], HNode(ls[0].side, ls[0].node, tail));
    }
  }

  lemma {:induction false} RightBuiltInorder(rs: seq<Link>, tail: HTree)
    ensures Inorder(Value(RightBuilt(rs, tail))) == Inorder(Value(tail)) + RightSeq(rs)
    decreases |rs|
  {
    if rs != [] {
      RightBuiltInorder(rs[1..], HNode(tail, rs[0].node, rs[0].side));
    }
  }

  lemma LeftSeqCons(k: Link, ls: seq<Link>)
    ensures LeftSeq([k] + ls) == LeftSeq(ls) + Inorder(Value(k.side)) + [k.node.item]
  {
    assert ([k] + ls)[1..] == ls;
  }

  lemma RightSeqCons(k: Link, rs: seq<Link>)
    ensures RightSeq([k] + rs) == [k.node.item] + Inorder(Value(k.side)) + RightSeq(rs)
  {
    assert ([k] + rs)[1..] == rs;
  }

  /** One step of the loop, as far as the in-order sequence goes: the node
      linked right (with its right subtree) leaves the current subtree at its
      in-order front of what remains to its right. */
  lemma LinkRightInorder(a: HTree, x: Node, c: HTree, ls: seq<Link>, rs: seq<Link>)
    ensures LeftSeq(ls) + Inorder(Value(a)) + RightSeq([Link(x, c)] + rs) ==
      LeftSeq(ls) + Inorder(Value(HNode(a, x, c))) + RightSeq(rs)
  {
    RightSeqCons(Link(x, c), rs);
    assert Inorder(Value(HNode(a, x, c))) == Inorder(Value(a)) + [x.item] + Inorder(Value(c));
    Regroup(LeftSeq(ls), Inorder(Value(a)), x.item, Inorder(Value(c)), RightSeq(rs));
  }

  lemma LinkLeftInorder(a: HTree, x: Node, c: HTree, ls: seq<Link>, rs: seq<Link>)
    ensures LeftSeq([Link(x, a)] + ls) + Inorder(Value(c)) + RightSeq(rs) ==
      LeftSeq(ls) + Inorder(Value(HNode(a, x, c))) + RightSeq(rs)
  {
    LeftSeqCons(Link(x, a), ls);
    assert Inorder(Value(HNode(a, x, c))) == Inorder(Value(a)) + [x.item] + Inorder(Value(c));
    Regroup(LeftSeq(ls), Inorder(Value(a)), x.item, Inorder(Value(c)), RightSeq(rs));
  }

  lemma Regroup(p: seq<int>, a: seq<int>, x: int, c: seq<int>, q: seq<int>)
    ensures p + a + ([x] + c + q) == p + (a + [x] + c) + q
    ensures p + a + [x] + c + q == p + (a + [x] + c) + q
    ensures (p + a) + [x] + (c + q) == p + (a + [x] + c) + q
  {
  }

  /** The loop keeps the in-order sequence: left chain, then the current
      subtree, then the right chain, always reads as the same items. */
  lemma {:induction false} DescendInorder(item: int, cur: HTree, ls: seq<Link>, rs: seq<Link>)
    requires cur.HNode?
    ensures Inorder(Value(Assemble(Descend(item, cur, ls, rs)))) ==
      LeftSeq(ls) + Inorder(Value(cur)) + RightSeq(rs)
    decreases cur
  {
    var HNode(a, x, c) := cur;
    var cmp := Compare(item, x.item);
    if cmp < 0 && a.HNode? && Compare(item, a.node.item) < 0 && a.left.HNode? {
      var HNode(a1, y, a2) := a;
      DescendInorder(item, a1, ls, [Link(y, HNode(a2, x, c))] + rs);
      LinkRightInorder(a1, y, HNode(a2, x, c), ls, rs);
      assert Inorder(Value(HNode(a1, y, HNode(a2, x, c)))) == Inorder(Value(cur));
    } else if cmp < 0 && a.HNode? && Compare(item, a.node.item) >= 0 {
      DescendInorder(item, a, ls, [Link(x, c)] + rs);
      LinkRightInorder(a, x, c, ls, rs);
    } else if cmp > 0 && c.HNode? && Compare(item, c.node.item) > 0 && c.right.HNode? {
      var HNode(c1, y, c2) := c;
      DescendInorder(item, c2, [Link(y, HNode(a, x, c1))] + ls, rs);
      LinkLeftInorder(HNode(a, x, c1), y, c2, ls, rs);
      assert Inorder(Value(HNode(HNode(a, x, c1), y, c2))) == Inorder(Value(cur));
    } else if cmp > 0 && c.HNode? && Compare(item, c.node.item) <= 0 {
      DescendInorder(item, c, [Link(x, a)] + ls, rs);
      LinkLeftInorder(a, x, c, ls, rs);
    } else {
      StopInorder(item, cur, ls, rs);
    }
  }

  /** Where the loop stops, after at most one rotation, the chains are the
      ones it was given and the rotation kept the in-order sequence. */
  lemma StopInorder(item: int, cur: HTree, ls: seq<Link>, rs: seq<Link>)
    requires cur.HNode?
    requires Compare(item, cur.node.item) < 0 ==>
      cur.left.HNil? || (Compare(item, cur.left.node.item) < 0 && cur.left.left.HNil?)
    requires Compare(item, cur.node.item) > 0 ==>
      cur.right.HNil? || (Compare(item, cur.right.node.item) > 0 && cur.right.right.HNil?)
    ensures Inorder(Value(Assemble(Descend(item, cur, ls, rs)))) ==
      LeftSeq(ls) + Inorder(Value(cur)) + RightSeq(rs)
  {
    var s := Descend(item, cur, ls, rs);
    assert s.ls == ls && s.rs == rs;
    assert Inorder(Value(s.at)) == Inorder(Value(cur));
  }

  /** `splay` keeps the in-order sequence of the tree. */
  lemma SplayInorder(item: int, t: HTree)
    ensures Inorder(Value(SplayShape(item, t).tree)) == Inorder(Value(t))
  {
    if t.HNode? {
      DescendInorder(item, t, [], []);
      assert LeftSeq([]) == [] && RightSeq([]) == [];
    }
  }

  /** Hence `splay` keeps the items and, on a search tree, the search-tree
      invariant. */
  lemma SplayKeepsInorder(item: int, t: HTree)
    ensures Inorder(Value(SplayShape(item, t).tree)) == Inorder(Value(t))
    ensures Items(Value(SplayShape(item, t).tree)) == Items(Value(t))
    ensures IsBST(Value(t)) ==> IsBST(Value(SplayShape(item, t).tree))
  {
    SplayInorder(item, t);
    SameInorderSameItems(Value(t), Value(SplayShape(item, t).tree));
  }

  /** Two trees that read the same from left to right hold the same items,
      and one is a search tree exactly when the other is. */
  lemma SameInorderSameItems(t: Tree, u: Tree)
    requires Inorder(t) == Inorder(u)
    ensures Items(t) == Items(u)
    ensures IsBST(t) <==> IsBST(u)
  {
    ItemsAreInorder(t);
    ItemsAreInorder(u);
    forall y ensures y in Items(t) <==> y in Items(u) {
      assert y in Inorder(t) <==> y in Inorder(u);
    }
    assert Items(t) == Items(u);
    SearchTreeIffIncreasing(t);
    SearchTreeIffIncreasing(u);
  }

  // ---------------------------------------------------------------------
  // Where the root lands

  /** On a search tree every item the loop puts on the left chain is smaller
      than `item` and every item it puts on the right chain is larger. */
  lemma {:induction false} DescendBounds(item: int, cur: HTree, ls: seq<Link>, rs: seq<Link>)
    requires cur.HNode? && IsBST(Value(cur))
    requires forall y :: y in LeftSeq(ls) ==> y < item
    requires forall y :: y in RightSeq(rs) ==> item < y
    ensures forall y :: y in LeftSeq(Descend(item, cur, ls, rs).ls) ==> y < item
    ensures forall y :: y in RightSeq(Descend(item, cur, ls, rs).rs) ==> item < y
    decreases cur
  {
    var HNode(a, x, c) := cur;
    var cmp := Compare(item, x.item);
    ItemsAreInorder(Value(a));
    ItemsAreInorder(Value(c));
    if cmp < 0 && a.HNode? && Compare(item, a.node.item) < 0 && a.left.HNode? {
      var HNode(a1, y, a2) := a;
      var k := Link(y, HNode(a2, x, c));
      RightSeqCons(k, rs);
      ItemsAreInorder(Value(k.side));
      assert y.item in Items(Value(a));
      assert forall z :: z in Items(Value(k.side)) ==> y.item < z;
      DescendBounds(item, a1, ls, [k] + rs);
    } else if cmp < 0 && a.HNode? && Compare(item, a.node.item) >= 0 {
      var k := Link(x, c);
      RightSeqCons(k, rs);
      DescendBounds(item, a, ls, [k] + rs);
    } else if cmp > 0 && c.HNode? && Compare(item, c.node.item) > 0 && c.right.HNode? {
      var HNode(c1, y, c2) := c;
      var k := Link(y, HNode(a, x, c1));
      LeftSeqCons(k, ls);
      ItemsAreInorder(Value(k.side));
      assert y.item in Items(Value(c));
      assert forall z :: z in Items(Value(k.side)) ==> z < y.item;
      DescendBounds(item, c2, [k] + ls, rs);
    } else if cmp > 0 && c.HNode? && Compare(item, c.node.item) <= 0 {
      var k := Link(x, a);
      LeftSeqCons(k, ls);
      DescendBounds(item, c, [k] + ls, rs);
    }
  }

  /** In any tree, when the loop stops beside `item` rather than on it,
      the new root's subtree on `item`'s side is exactly the chain built on
      that side: the stopping node had no child there. */
  lemma SplaySideIsChain(item: int, t: HTree)
    requires t.HNode?
    ensures SplayShape(item, t).cmp < 0 ==>
      SplayShape(item, t).tree.left == LeftBuilt(Descend(item, t, [], []).ls, HNil)
    ensures SplayShape(item, t).cmp > 0 ==>
      SplayShape(item, t).tree.right == RightBuilt(Descend(item, t, [], []).rs, HNil)
  {
  }

  /** On a search tree, when the loop stops beside `item` rather than on
      it, the new root's subtree on `item`'s side holds only items on that
      side of `item`. */
  lemma SplaySides(item: int, t: HTree)
    requires t.HNode? && IsBST(Value(t))
    ensures SplayShape(item, t).cmp < 0 ==>
      forall y :: y in Items(Value(SplayShape(item, t).tree.left)) ==> y < item
    ensures SplayShape(item, t).cmp > 0 ==>
      forall y :: y in Items(Value(SplayShape(item, t).tree.right)) ==> item < y
  {
    var r := SplayShape(item, t);
    var s := Descend(item, t, [], []);
    assert LeftSeq([]) == [] && RightSeq([]) == [];
    DescendBounds(item, t, [], []);
    if r.cmp < 0 {
      LeftBuiltInorder(s.ls, s.at.left);
      ItemsAreInorder(Value(r.tree.left));
    } else if r.cmp > 0 {
      RightBuiltInorder(s.rs, s.at.right);
      ItemsAreInorder(Value(r.tree.right));
    }
  }

  /** On a search tree the indicator is 0 exactly when `item` is present;
      when it is negative the new root is the least item above `item` (its
      successor), when positive the greatest item below it (its
      predecessor). */
  lemma SplayFindsNeighbour(item: int, t: HTree)
    requires t.HNode? && IsBST(Value(t))
    ensures SplayShape(item, t).cmp == 0 <==> item in Items(Value(t))
    ensures SplayShape(item, t).cmp < 0 ==>
      forall y :: y in Items(Value(t)) ==> y < item || SplayShape(item, t).tree.node.item <= y
    ensures SplayShape(item, t).cmp > 0 ==>
      forall y :: y in Items(Value(t)) ==> y <= SplayShape(item, t).tree.node.item || item < y
  {
    var r := SplayShape(item, t);
    SplayKeepsInorder(item, t);
    SplaySides(item, t);
    var HNode(lb, x, rb) := r.tree;
    assert Items(Value(t)) == Items(Value(lb)) + {x.item} + Items(Value(rb));
  }

  // ---------------------------------------------------------------------
  // Node ownership

  lemma {:induction false} ChainNodesHas(ls: seq<Link>, i: int)
    requires 0 <= i < |ls|
    ensures LinkNodes(ls[i]) <= ChainNodes(ls)
    ensures ls[i].node in ChainNodes(ls)
    decreases i
  {
    if i > 0 {
      ChainNodesHas(ls[1..], i - 1);
    }
  }

  lemma ChainNodesCons(k: Link, ls: seq<Link>)
    ensures ChainNodes([k] + ls) == LinkNodes(k) + ChainNodes(ls)
    ensures ([k] + ls)[1..] == ls
  {
    assert ([k] + ls)[1..] == ls;
  }

  /** Putting a new link in front of a chain keeps it well owned when the
      link's nodes are new to it. */
  lemma ChainOkCons(k: Link, ls: seq<Link>)
    requires ChainOk(ls) && Distinct(k.side) && k.node !in Nodes(k.side)
    requires LinkNodes(k) !! ChainNodes(ls)
    ensures ChainOk([k] + ls)
    ensures ChainNodes([k] + ls) == LinkNodes(k) + ChainNodes(ls)
  {
    ChainNodesCons(k, ls);
  }

  lemma ChainOkTail(ls: seq<Link>)
    requires ls != [] && ChainOk(ls)
    ensures ChainOk(ls[1..])
    ensures ChainNodes(ls) == LinkNodes(ls[0]) + ChainNodes(ls[1..])
    ensures LinkNodes(ls[0]) !! ChainNodes(ls[1..])
  {
  }

  lemma {:induction false} LeftBuiltNodes(ls: seq<Link>, tail: HTree)
    requires ChainOk(ls) && Distinct(tail) && ChainNodes(ls) !! Nodes(tail)
    ensures Nodes(LeftBuilt(ls, tail)) == ChainNodes(ls) + Nodes(tail)
    ensures Distinct(LeftBuilt(ls, tail))
    decreases |ls|
  {
    if ls != [] {
      ChainOkTail(ls);
      var t' := HNode(ls[0].side, ls[0].node, tail);
      LeftBuiltNodes(ls[1..], t');
    }
  }

  lemma {:induction false} RightBuiltNodes(rs: seq<Link>, tail: HTree)
    requires ChainOk(rs) && Distinct(tail) && ChainNodes(rs) !! Nodes(tail)
    ensures Nodes(RightBuilt(rs, tail)) == ChainNodes(rs) + Nodes(tail)
    ensures Distinct(RightBuilt(rs, tail))
    decreases |rs|
  {
    if rs != [] {
      ChainOkTail(rs);
      var t' := HNode(tail, rs[0].node, rs[0].side);
      RightBuiltNodes(rs[1..], t');
    }
  }

  /** Assembling a well-owned stopping state gives a tree that owns each of
      the state's nodes exactly once. */
  lemma AssembleNodes(s: Stop)
    requires s.at.HNode? && Separate(s.at, s.ls, s.rs)
    ensures Distinct(Assemble(s))
    ensures Nodes(Assemble(s)) == Nodes(s.at) + ChainNodes(s.ls) + ChainNodes(s.rs)
  {
    var HNode(a, x, b) := s.at;
    LeftBuiltNodes(s.ls, a);
    RightBuiltNodes(s.rs, b);
  }

  /** A rotation to the right keeps the nodes of the subtree, each once. */
  lemma RotateRightNodes(a1: HTree, y: Node, a2: HTree, x: Node, c: HTree)
    requires Distinct(HNode(HNode(a1, y, a2), x, c))
    ensures Distinct(HNode(a1, y, HNode(a2, x, c)))
    ensures Nodes(HNode(a1, y, HNode(a2, x, c))) == Nodes(HNode(HNode(a1, y, a2), x, c))
  {
  }

  /** A rotation to the left keeps the nodes of the subtree, each once. */
  lemma RotateLeftNodes(a: HTree, x: Node, c1: HTree, y: Node, c2: HTree)
    requires Distinct(HNode(a, x, HNode(c1, y, c2)))
    ensures Distinct(HNode(HNode(a, x, c1), y, c2))
    ensures Nodes(HNode(HNode(a, x, c1), y, c2)) == Nodes(HNode(a, x, HNode(c1, y, c2)))
  {
  }

  /** Linking the current node onto the right chain moves its node and its
      right subtree there, keeping every node owned once. */
  lemma LinkRightNodes(a: HTree, x: Node, c: HTree, ls: seq<Link>, rs: seq<Link>)
    requires Separate(HNode(a, x, c), ls, rs)
    ensures Separate(a, ls, [Link(x, c)] + rs)
    ensures Nodes(a) + ChainNodes(ls) + ChainNodes([Link(x, c)] + rs) ==
      Nodes(HNode(a, x, c)) + ChainNodes(ls) + ChainNodes(rs)
  {
    ChainOkCons(Link(x, c), rs);
  }

  /** Linking the current node onto the left chain, the mirror image. */
  lemma LinkLeftNodes(a: HTree, x: Node, c: HTree, ls: seq<Link>, rs: seq<Link>)
    requires Separate(HNode(a, x, c), ls, rs)
    ensures Separate(c, [Link(x, a)] + ls, rs)
    ensures Nodes(c) + ChainNodes([Link(x, a)] + ls) + ChainNodes(rs) ==
      Nodes(HNode(a, x, c)) + ChainNodes(ls) + ChainNodes(rs)
  {
    ChainOkCons(Link(x, a), ls);
  }

  /** Every loop step moves nodes between the current subtree and the
      chains, never losing or duplicating one. */
  lemma {:induction false} DescendNodes(item: int, cur: HTree, ls: seq<Link>, rs: seq<Link>)
    requires cur.HNode? && Separate(cur, ls, rs)
    ensures var s := Descend(item, cur, ls, rs);
      Separate(s.at, s.ls, s.rs) &&
      Nodes(s.at) + ChainNodes(s.ls) + ChainNodes(s.rs) == Nodes(cur) + ChainNodes(ls) + ChainNodes(rs)
    decreases cur
  {
    var HNode(a, x, c) := cur;
    var cmp := Compare(item, x.item);
    if cmp < 0 && a.HNode? {
      var HNode(a1, y, a2) := a;
      if Compare(item, y.item) < 0 {
        RotateRightNodes(a1, y, a2, x, c);
        if a1.HNode? {
          LinkRightNodes(a1, y, HNode(a2, x, c), ls, rs);
          DescendNodes(item, a1, ls, [Link(y, HNode(a2, x, c))] + rs);
        }
      } else {
        LinkRightNodes(a, x, c, ls, rs);
        DescendNodes(item, a, ls, [Link(x, c)] + rs);
      }
    } else if cmp > 0 && c.HNode? {
      var HNode(c1, y, c2) := c;
      if Compare(item, y.item) > 0 {
        RotateLeftNodes(a, x, c1, y, c2);
        if c2.HNode? {
          LinkLeftNodes(HNode(a, x, c1), y, c2, ls, rs);
          DescendNodes(item, c2, [Link(y, HNode(a, x, c1))] + ls, rs);
        }
      } else {
        LinkLeftNodes(a, x, c, ls, rs);
        DescendNodes(item, c, [Link(x, a)] + ls, rs);
      }
    }
  }

  /** `splay` owns exactly the nodes it was given, each once. */
  lemma SplayKeepsNodes(item: int, t: HTree)
    requires Distinct(t)
    ensures Distinct(SplayShape(item, t).tree)
    ensures Nodes(SplayShape(item, t).tree) == Nodes(t)
  {
    if t.HNode? {
      assert ChainNodes([]) == {};
      DescendNodes(item, t, [], []);
      AssembleNodes(Descend(item, t, [], []));
    }
  }
}
