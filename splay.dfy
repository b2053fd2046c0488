/** lib/splay.js: the top-down splay loop that rewrites child links in place,
    and `has`, `insert` and `build` on top of it. Every method works on the
    heap of `Node` objects; the ghost `HTree` it is given describes the tree
    below the root it is passed, and the one it gives back describes the
    tree below the node it returns. */
module SplayLib {
  import opened BinaryTrees
  import opened SplayNodes
  import opened SplayShapes
  import opened InsertShapes

  /** A missing or non-array argument of `build` is None. */
  datatype Option<T> = None | Some(value: T)

  /** The nodes a chain has linked, one per link. */
  ghost function Spine(ls: seq<Link>): set<Node>
  {
    if ls == [] then {} else {ls[0].node} + Spine(ls[1..])
  }

  /** The nodes of the subtrees the chain's links keep. */
  ghost function SideNodes(ls: seq<Link>): set<Node>
  {
    if ls == [] then {} else Nodes(ls[0].side) + SideNodes(ls[1..])
  }

  /** A chain's nodes are its spine and its kept subtrees; in a well-owned
      chain the two share no node. */
  lemma {:induction false} ChainParts(ls: seq<Link>)
    ensures ChainNodes(ls) == Spine(ls) + SideNodes(ls)
    ensures ChainOk(ls) ==> Spine(ls) !! SideNodes(ls)
    decreases |ls|
  {
    if ls != [] {
      ChainParts(ls[1..]);
    }
  }

  /** Every subtree a chain keeps is linked in the heap. The loop never
      writes to these nodes. */
  ghost predicate SidesLinked(ls: seq<Link>)
    reads SideNodes(ls)
  {
    ls == [] || (Linked(ls[0].side) && SidesLinked(ls[1..]))
  }

  /** The left chain's links in the heap: each node holds its kept subtree
      on its left, and its right link points at the node linked after it
      (`newer` for the newest). */
  ghost predicate LeftHung(ls: seq<Link>, newer: Node?)
    reads Spine(ls)
  {
    ls == [] ||
    (ls[0].node.left == Root(ls[0].side) && ls[0].node.right == newer &&
     LeftHung(ls[1..], ls[0].node))
  }

  /** The left chain while the loop runs: the newest node's right link is
      not yet set. */
  ghost predicate LeftSpine(ls: seq<Link>)
    reads Spine(ls)
  {
    ls == [] || (ls[0].node.left == Root(ls[0].side) && LeftHung(ls[1..], ls[0].node))
  }

  /** The right chain's links in the heap, the mirror image of LeftHung. */
  ghost predicate RightHung(rs: seq<Link>, newer: Node?)
    reads Spine(rs)
  {
    rs == [] ||
    (rs[0].node.right == Root(rs[0].side) && rs[0].node.left == newer &&
     RightHung(rs[1..], rs[0].node))
  }

  ghost predicate RightSpine(rs: seq<Link>)
    reads Spine(rs)
  {
    rs == [] || (rs[0].node.right == Root(rs[0].side) && RightHung(rs[1..], rs[0].node))
  }

  /** Once the newest node's right link points at `tail`, the left chain in
      the heap is the tree LeftBuilt(ls, tail). */
  lemma {:induction false} LeftBuiltLinked(ls: seq<Link>, tail: HTree)
    requires Linked(tail) && LeftHung(ls, Root(tail)) && SidesLinked(ls)
    ensures Linked(LeftBuilt(ls, tail))
    ensures Root(LeftBuilt(ls, tail)) == if ls == [] then Root(tail) else ls[|ls| - 1].node
    decreases |ls|
  {
    if ls != [] {
      LeftBuiltLinked(ls[1..], HNode(ls[0].side, ls[0].node, tail));
    }
  }

  lemma {:induction false} RightBuiltLinked(rs: seq<Link>, tail: HTree)
    requires Linked(tail) && RightHung(rs, Root(tail)) && SidesLinked(rs)
    ensures Linked(RightBuilt(rs, tail))
    ensures Root(RightBuilt(rs, tail)) == if rs == [] then Root(tail) else rs[|rs| - 1].node
    decreases |rs|
  {
    if rs != [] {
      RightBuiltLinked(rs[1..], HNode(tail, rs[0].node, rs[0].side));
    }
  }

  /** The state the loop of `splay` keeps: `top` is the root of the
      current subtree `cur`; the left chain hangs off the header's right
      link and `left` is its newest node (the header while it is empty);
      the right chain mirrors it; and together they own exactly the nodes
      `owned` of the tree being splayed, each once. */
  ghost predicate Splaying(node: Node, left: Node, right: Node, top: Node, cur: HTree,
                           ls: seq<Link>, rs: seq<Link>, owned: set<Node>)
    reads {node} + Nodes(cur) + Spine(ls) + SideNodes(ls) + Spine(rs) + SideNodes(rs)
  {
    cur.HNode? && top == cur.node && Linked(cur) &&
    Separate(cur, ls, rs) &&
    Nodes(cur) + ChainNodes(ls) + ChainNodes(rs) == owned && node !in owned &&
    left == (if ls == [] then node else ls[0].node) &&
    right == (if rs == [] then node else rs[0].node) &&
    SidesLinked(ls) && SidesLinked(rs) && LeftSpine(ls) && RightSpine(rs) &&
    (ls != [] ==> node.right == ls[|ls| - 1].node) &&
    (rs != [] ==> node.left == rs[|rs| - 1].node)
  }

  /** A rotation rewrites links inside the current subtree only; when the
      subtree keeps its nodes, each once, and is linked again, the rest of
      the loop state still holds. */
  twostate lemma RotationKeepsState(new node: Node, new left: Node, new right: Node, new top: Node, new top': Node,
                                    new cur: HTree, new cur': HTree, new ls: seq<Link>, new rs: seq<Link>,
                                    new owned: set<Node>)
    requires old(allocated(node)) && old(allocated(left)) && old(allocated(right)) && old(allocated(top))
    requires old(allocated(cur)) && old(allocated(ls)) && old(allocated(rs)) && old(allocated(owned))
    requires old(Splaying(node, left, right, top, cur, ls, rs, owned))
    requires unchanged(node) && unchanged(owned - Nodes(cur))
    requires cur'.HNode? && top' == cur'.node && Linked(cur')
    requires Distinct(cur') && Nodes(cur') == Nodes(cur)
    ensures Splaying(node, left, right, top', cur', ls, rs, owned)
  {
    ChainParts(ls);
    ChainParts(rs);
    assert Spine(ls) + SideNodes(ls) + Spine(rs) + SideNodes(rs) <= owned - Nodes(cur);
  }

  /** Linking onto the right chain writes only the left link of the right
      chain's newest node (the header while the chain is empty); the loop
      state then holds for the longer chain and the current root's left
      subtree. */
  twostate lemma LinkRightKeepsState(new node: Node, new left: Node, new right: Node, new top: Node,
                                     new cur: HTree, new ls: seq<Link>, new rs: seq<Link>, new owned: set<Node>)
    requires old(allocated(node)) && old(allocated(left)) && old(allocated(right)) && old(allocated(top))
    requires old(allocated(cur)) && old(allocated(ls)) && old(allocated(rs)) && old(allocated(owned))
    requires old(Splaying(node, left, right, top, cur, ls, rs, owned)) && cur.left.HNode?
    requires unchanged(owned - {right}) && (right != node ==> unchanged(node))
    requires right.left == cur.node && right.right == old(right.right)
    ensures Splaying(node, left, cur.node, cur.left.node, cur.left, ls, [Link(cur.node, cur.right)] + rs, owned)
  {
    var HNode(a, x, c) := cur;
    var rs' := [Link(x, c)] + rs;
    ChainParts(ls);
    ChainParts(rs);
    if rs != [] {
      ChainNodesHas(rs, 0);
      ChainParts(rs[1..]);
    }
    assert right !in Nodes(cur) + SideNodes(ls) + SideNodes(rs) + Spine(ls);
    assert rs'[1..] == rs;
    LinkRightNodes(a, x, c, ls, rs);
  }

  /** The mirror image of LinkRightKeepsState. */
  twostate lemma LinkLeftKeepsState(new node: Node, new left: Node, new right: Node, new top: Node,
                                    new cur: HTree, new ls: seq<Link>, new rs: seq<Link>, new owned: set<Node>)
    requires old(allocated(node)) && old(allocated(left)) && old(allocated(right)) && old(allocated(top))
    requires old(allocated(cur)) && old(allocated(ls)) && old(allocated(rs)) && old(allocated(owned))
    requires old(Splaying(node, left, right, top, cur, ls, rs, owned)) && cur.right.HNode?
    requires unchanged(owned - {left}) && (left != node ==> unchanged(node))
    requires left.right == cur.node && left.left == old(left.left)
    ensures Splaying(node, cur.node, right, cur.right.node, cur.right, [Link(cur.node, cur.left)] + ls, rs, owned)
  {
    var HNode(a, x, c) := cur;
    var ls' := [Link(x, a)] + ls;
    ChainParts(ls);
    ChainParts(rs);
    if ls != [] {
      ChainNodesHas(ls, 0);
      ChainParts(ls[1..]);
    }
    assert left !in Nodes(cur) + SideNodes(ls) + SideNodes(rs) + Spine(rs);
    assert ls'[1..] == ls;
    LinkLeftNodes(a, x, c, ls, rs);
  }

  /** `rotate_right`: the current root's left child takes its place. */
  method RotateRight(top: Node, ghost cur: HTree, ghost ls: seq<Link>, ghost rs: seq<Link>,
                     ghost node: Node, ghost left: Node, ghost right: Node, ghost owned: set<Node>)
    returns (top': Node, ghost cur': HTree)
    requires Splaying(node, left, right, top, cur, ls, rs, owned) && cur.left.HNode?
    modifies top, top.left
    ensures cur' == HNode(cur.left.left, cur.left.node, HNode(cur.left.right, cur.node, cur.right))
    ensures Splaying(node, left, right, top', cur', ls, rs, owned)
  {
    ghost var HNode(HNode(a1, y, a2), x, c) := cur;
    assert Distinct(cur) && Linked(cur);
    assert Distinct(HNode(a1, y, a2)) && Linked(HNode(a1, y, a2));
    assert x !in Nodes(a1) + Nodes(a2) + Nodes(c) && y !in Nodes(a1) + Nodes(a2) + Nodes(c);
    assert node !in owned;
    var tmp := top.left;
    top.left := tmp.right;
    tmp.right := top;
    top' := tmp;
    RotateRightNodes(a1, y, a2, x, c);
    cur' := HNode(a1, y, HNode(a2, x, c));
    RotationKeepsState(node, left, right, top, top', cur, cur', ls, rs, owned);
  }

  /** `rotate_left`: the current root's right child takes its place. */
  method RotateLeft(top: Node, ghost cur: HTree, ghost ls: seq<Link>, ghost rs: seq<Link>,
                    ghost node: Node, ghost left: Node, ghost right: Node, ghost owned: set<Node>)
    returns (top': Node, ghost cur': HTree)
    requires Splaying(node, left, right, top, cur, ls, rs, owned) && cur.right.HNode?
    modifies top, top.right
    ensures cur' == HNode(HNode(cur.left, cur.node, cur.right.left), cur.right.node, cur.right.right)
    ensures Splaying(node, left, right, top', cur', ls, rs, owned)
  {
    ghost var HNode(a, x, HNode(c1, y, c2)) := cur;
    assert Distinct(cur) && Linked(cur);
    assert Distinct(HNode(c1, y, c2)) && Linked(HNode(c1, y, c2));
    assert x !in Nodes(a) + Nodes(c1) + Nodes(c2) && y !in Nodes(a) + Nodes(c1) + Nodes(c2);
    assert node !in owned;
    var tmp := top.right;
    top.right := tmp.left;
    tmp.left := top;
    top' := tmp;
    RotateLeftNodes(a, x, c1, y, c2);
    cur' := HNode(HNode(a, x, c1), y, c2);
    RotationKeepsState(node, left, right, top, top', cur, cur', ls, rs, owned);
  }

  /** `link_right`: the current root, with its right subtree, becomes the
      newest node of the right chain, and its left child the current root. */
  method LinkRight(right: Node, top: Node, ghost cur: HTree, ghost ls: seq<Link>, ghost rs: seq<Link>,
                   ghost node: Node, ghost left: Node, ghost owned: set<Node>)
    returns (right': Node, top': Node, ghost cur': HTree, ghost rs': seq<Link>)
    requires Splaying(node, left, right, top, cur, ls, rs, owned) && cur.left.HNode?
    modifies right
    ensures cur' == cur.left && rs' == [Link(cur.node, cur.right)] + rs
    ensures Splaying(node, left, right', top', cur', ls, rs', owned)
  {
    right.left := top;
    LinkRightKeepsState(node, left, right, top, cur, ls, rs, owned);
    right' := top;
    top' := top.left;
    rs' := [Link(cur.node, cur.right)] + rs;
    cur' := cur.left;
  }

  /** `link_left`: the mirror image of LinkRight. */
  method LinkLeft(left: Node, top: Node, ghost cur: HTree, ghost ls: seq<Link>, ghost rs: seq<Link>,
                  ghost node: Node, ghost right: Node, ghost owned: set<Node>)
    returns (left': Node, top': Node, ghost cur': HTree, ghost ls': seq<Link>)
    requires Splaying(node, left, right, top, cur, ls, rs, owned) && cur.right.HNode?
    modifies left
    ensures cur' == cur.right && ls' == [Link(cur.node, cur.left)] + ls
    ensures Splaying(node, left', right, top', cur', ls', rs, owned)
  {
    left.right := top;
    LinkLeftKeepsState(node, left, right, top, cur, ls, rs, owned);
    left' := top;
    top' := top.right;
    ls' := [Link(cur.node, cur.left)] + ls;
    cur' := cur.right;
  }

  /** The first half of `assemble`, left side: once the left chain's newest
      node points at the stopping node's old left child, the left chain is
      a linked tree whose root the header's right link holds. */
  twostate lemma LeftChainClosed(new node: Node, new left: Node, new right: Node, new top: Node, new s: Stop, new owned: set<Node>)
    requires old(allocated(node)) && old(allocated(left)) && old(allocated(right)) && old(allocated(top))
    requires old(allocated(s)) && old(allocated(owned))
    requires old(Splaying(node, left, right, top, s.at, s.ls, s.rs, owned))
    requires unchanged(owned - {left, right})
    requires left.right == Root(s.at.left)
    requires left != right ==> left.left == old(left.left)
    requires left != node ==> node.right == old(node.right)
    ensures Linked(LeftBuilt(s.ls, s.at.left)) && node.right == Root(LeftBuilt(s.ls, s.at.left))
  {
    ChainParts(s.ls);
    ChainParts(s.rs);
    if s.ls != [] {
      ChainNodesHas(s.ls, 0);
      ChainParts(s.ls[1..]);
    }
    assert left !in Nodes(s.at) + SideNodes(s.ls) + SideNodes(s.rs) + Spine(s.rs);
    assert right !in Nodes(s.at) + SideNodes(s.ls) + Spine(s.ls);
    LeftBuiltLinked(s.ls, s.at.left);
  }

  /** The first half of `assemble`, right side: the mirror image. */
  twostate lemma RightChainClosed(new node: Node, new left: Node, new right: Node, new top: Node, new s: Stop, new owned: set<Node>)
    requires old(allocated(node)) && old(allocated(left)) && old(allocated(right)) && old(allocated(top))
    requires old(allocated(s)) && old(allocated(owned))
    requires old(Splaying(node, left, right, top, s.at, s.ls, s.rs, owned))
    requires unchanged(owned - {left, right})
    requires right.left == Root(s.at.right)
    requires left != right ==> right.right == old(right.right)
    requires right != node ==> node.left == old(node.left)
    ensures Linked(RightBuilt(s.rs, s.at.right)) && node.left == Root(RightBuilt(s.rs, s.at.right))
  {
    ChainParts(s.ls);
    ChainParts(s.rs);
    if s.rs != [] {
      ChainNodesHas(s.rs, 0);
      ChainParts(s.rs[1..]);
    }
    assert right !in Nodes(s.at) + SideNodes(s.ls) + SideNodes(s.rs) + Spine(s.ls);
    assert left !in Nodes(s.at) + SideNodes(s.rs) + Spine(s.rs);
    RightBuiltLinked(s.rs, s.at.right);
  }

  /** `assemble`: the current root takes the left chain as its left subtree
      and the right chain as its right subtree, the current root's old
      children going to the newest chain nodes. */
  method AssembleChains(node: Node, left: Node, right: Node, top: Node, ghost s: Stop, ghost owned: set<Node>)
    requires Splaying(node, left, right, top, s.at, s.ls, s.rs, owned)
    modifies left, right, top
    ensures Linked(Assemble(s)) && Root(Assemble(s)) == top
    ensures Distinct(Assemble(s)) && Nodes(Assemble(s)) == owned
  {
    ghost var a, b := s.at.left, s.at.right;
    left.right := top.left;
    right.left := top.right;
    LeftChainClosed(node, left, right, top, s, owned);
    RightChainClosed(node, left, right, top, s, owned);
    LeftBuiltNodes(s.ls, a);
    RightBuiltNodes(s.rs, b);
    AssembleNodes(s);
    top.left := node.right;
    top.right := node.left;
  }

  /** `splay(item, set)`: one pass down from the root with zig-zig rotations
      and links onto the two chains hung off a header node, then the
      assembly. The new tree is the one SplayShape describes, made of the
      same nodes, and the indicator is `item - newRoot.item` (-1 with an
      empty tree). */
  method Splay(item: int, root: Node?, ghost t: HTree) returns (cmp: int, newRoot: Node?, ghost t': HTree)
    requires Linked(t) && Distinct(t) && root == Root(t)
    modifies Nodes(t)
    ensures Splayed(cmp, t') == SplayShape(item, t)
    ensures Linked(t') && Distinct(t') && Nodes(t') == Nodes(t) && newRoot == Root(t')
  {
    if root == null {
      return -1, root, HNil;
    }
    NodesAllocated(t);
    var node := new Node(0);
    var left, right := node, node;
    var top: Node := root;
    cmp := 0;
    ghost var cur := t;
    ghost var ls: seq<Link> := [];
    ghost var rs: seq<Link> := [];
    ghost var goal := Descend(item, t, [], []);
    assert ChainNodes([]) == {} && Spine([]) == {} && SideNodes([]) == {};

    while true
      invariant fresh(node)
      invariant Splaying(node, left, right, top, cur, ls, rs, Nodes(t))
      invariant Descend(item, cur, ls, rs) == goal
      decreases cur
    {
      cmp := Compare(item, top.item);
      if cmp < 0 {
        if top.left == null {
          break;
        }
        cmp := Compare(item, top.left.item);
        if cmp < 0 {
          top, cur := RotateRight(top, cur, ls, rs, node, left, right, Nodes(t));
          if top.left == null {
            break;
          }
        }
        right, top, cur, rs := LinkRight(right, top, cur, ls, rs, node, left, Nodes(t));
      } else if cmp > 0 {
        if top.right == null {
          break;
        }
        cmp := Compare(item, top.right.item);
        if cmp > 0 {
          top, cur := RotateLeft(top, cur, ls, rs, node, left, right, Nodes(t));
          if top.right == null {
            break;
          }
        }
        left, top, cur, ls := LinkLeft(left, top, cur, ls, rs, node, right, Nodes(t));
      } else {
        break;
      }
    }
    assert goal == Stop(cmp, cur, ls, rs);
    AssembleChains(node, left, right, top, goal, Nodes(t));
    t' := Assemble(goal);
    newRoot := top;
  }

  /** `has(item, set)`: `[false, null]` for the empty tree; otherwise the
      tree is splayed, hit or miss, and the answer is whether the indicator
      is 0. */
  method Has(item: int, root: Node?, ghost t: HTree) returns (found: bool, newRoot: Node?, ghost t': HTree)
    requires Linked(t) && Distinct(t) && root == Root(t)
    modifies Nodes(t)
    ensures t.HNil? ==> !found && newRoot == null && t' == HNil
    ensures t.HNode? ==> found == (SplayShape(item, t).cmp == 0) && t' == SplayShape(item, t).tree
    ensures IsBST(Value(t)) ==> (found <==> item in Items(Value(t)))
    ensures Linked(t') && Distinct(t') && Nodes(t') == Nodes(t) && newRoot == Root(t')
  {
    if root == null {
      return false, null, HNil;
    }
    var cmp;
    cmp, newRoot, t' := Splay(item, root, t);
    found := cmp == 0;
    if IsBST(Value(t)) {
      SplayFindsNeighbour(item, t);
    }
  }

  /** The second half of `insert` on a miss: the new leaf goes into the
      splayed root's child slot on the item's side when it is empty, and
      otherwise over the inner link of the child there. */
  method HangLeaf(cmp: int, splayed: Node, leaf: Node, ghost st: HTree) returns (ghost t': HTree)
    requires st.HNode? && splayed == st.node && Linked(st) && Distinct(st) && cmp != 0
    requires leaf !in Nodes(st) && leaf.left == null && leaf.right == null
    modifies Nodes(st)
    ensures t' == Attach(Splayed(cmp, st), leaf)
    ensures Linked(t')
  {
    ghost var HNode(l, x, rt) := st;
    if cmp < 0 {
      if splayed.left != null {
        assert Linked(l.left) && Linked(rt) && l.node !in Nodes(l.left) + Nodes(rt);
        splayed.left.right := leaf;
        assert Linked(Leaf(leaf));
        assert Linked(HNode(l.left, l.node, Leaf(leaf)));
      } else {
        assert Linked(rt);
        splayed.left := leaf;
        assert Linked(Leaf(leaf));
      }
    } else {
      if splayed.right != null {
        assert Linked(rt.right) && Linked(l) && rt.node !in Nodes(rt.right) + Nodes(l);
        splayed.right.left := leaf;
        assert Linked(Leaf(leaf));
        assert Linked(HNode(Leaf(leaf), rt.node, rt.right));
      } else {
        assert Linked(l);
        splayed.right := leaf;
        assert Linked(Leaf(leaf));
      }
    }
    t' := Attach(Splayed(cmp, st), leaf);
  }

  /** `insert(item, set)`: a new leaf for `item`; the leaf alone for the
      empty tree; otherwise the tree is splayed and the leaf hung below the
      new root as Attach says, or, when the item is found, the node that was
      the root before splaying returned, with what now hangs below it. */
  method Insert(item: int, root: Node?, ghost t: HTree) returns (r: Node?, ghost t': HTree, ghost leaf: Node)
    requires Linked(t) && Distinct(t) && root == Root(t)
    modifies Nodes(t)
    ensures fresh(leaf) && leaf.item == item
    ensures t' == InsertShapeAsWritten(item, t, leaf)
    ensures Linked(t') && Distinct(t') && Nodes(t') <= Nodes(t) + {leaf} && r == Root(t')
    ensures root != null ==> r != null
  {
    NodesAllocated(t);
    var node := new Node(item);
    leaf := node;
    if root == null {
      return node, Leaf(node), node;
    }
    var cmp, splayed, st := Splay(item, root, t);
    InsertKeepsNodes(item, t, node);
    if cmp == 0 {
      FindWellFormed(st, root);
      return root, Find(st, root), node;
    }
    t' := HangLeaf(cmp, splayed, node, st);
    r := splayed;
  }

  /** One round of `build`'s loop: insert the next item into the tree built
      from the items before it. */
  method BuildNext(items: seq<int>, i: nat, r: Node?, ghost t: HTree, ghost leaves: seq<Node>)
    returns (r': Node?, ghost t': HTree, ghost leaves': seq<Node>)
    requires i < |items| && |leaves| == i && t == BuildShape(items[..i], leaves)
    requires forall j :: 0 <= j < i ==> leaves[j].item == items[j]
    requires AllDistinct(leaves) && Linked(t) && Distinct(t) && r == Root(t)
    modifies Nodes(t)
    ensures |leaves'| == i + 1 && t' == BuildShape(items[..i + 1], leaves')
    ensures forall j :: 0 <= j < i + 1 ==> leaves'[j].item == items[j]
    ensures leaves'[..i] == leaves && fresh(leaves'[i])
    ensures AllDistinct(leaves') && Linked(t') && Distinct(t') && r' == Root(t')
  {
    ghost var leaf;
    r', t', leaf := Insert(items[i], r, t);
    assert items[..i + 1] == items[..i] + [items[i]];
    BuildStep(items[..i], leaves, items[i], leaf);
    AllDistinctAppend(leaves, leaf);
    leaves' := leaves + [leaf];
    assert leaves'[..i] == leaves;
  }

  /** `build(a)`: null unless `a` is an array; otherwise `insert` of each
      item in turn, from the empty tree; BuildIsBST shows the result is a
      search tree. */
  method Build(a: Option<seq<int>>) returns (r: Node?, ghost t: HTree, ghost leaves: seq<Node>)
    ensures a.None? ==> r == null && t == HNil && leaves == []
    ensures a.Some? ==>
      |leaves| == |a.value| && t == BuildShape(a.value, leaves) &&
      forall i :: 0 <= i < |leaves| ==> leaves[i].item == a.value[i]
    ensures AllDistinct(leaves) && forall n :: n in leaves ==> fresh(n)
    ensures Linked(t) && Distinct(t) && r == Root(t)
  {
    r, t, leaves := null, HNil, [];
    if a.None? {
      return;
    }
    var items := a.value;
    for i := 0 to |items|
      invariant |leaves| == i && t == BuildShape(items[..i], leaves)
      invariant forall j :: 0 <= j < i ==> leaves[j].item == items[j]
      invariant AllDistinct(leaves) && forall n :: n in leaves ==> fresh(n)
      invariant Linked(t) && Distinct(t) && r == Root(t)
    {
      BuildKeepsNodes(items[..i], leaves);
      ghost var prev := leaves;
      r, t, leaves := BuildNext(items, i, r, t, leaves);
      assert forall n :: n in leaves ==> n in prev || n == leaves[i];
    }
    assert items[..|items|] == items;
  }
}
