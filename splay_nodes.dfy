/** The nodes of lib/splay.js: objects `{item, left, right}` whose child
    links the splay operation rewrites in place. A ghost `HTree` names the
    node objects of a tree in their tree shape; `Linked` says the heap's
    child links are exactly that shape and `Distinct` that no node occurs
    twice in it, so together they say the heap below the root is that tree.
    `Value` forgets the node identities and keeps the items. */
module SplayNodes {
  import opened BinaryTrees

  class Node {
    /** The source never reassigns `item`, only the two links. */
    const item: int
    var left: Node?
    var right: Node?

    /** `{item, left: null, right: null}` */
    constructor (item: int)
      ensures this.item == item && left == null && right == null
    {
      this.item := item;
      left := null;
      right := null;
    }
  }

  datatype HTree = HNil | HNode(left: HTree, node: Node, right: HTree)

  function Root(t: HTree): Node?
  {
    if t.HNil? then null else t.node
  }

  function Nodes(t: HTree): set<Node>
  {
    match t
    case HNil => {}
    case HNode(l, n, r) => Nodes(l) + {n} + Nodes(r)
  }

  /** The items of `t` in its shape. */
  function Value(t: HTree): Tree
  {
    match t
    case HNil => Nil
    case HNode(l, n, r) => Node(Value(l), n.item, Value(r))
  }

  /** No node object appears twice: the tree owns each of its nodes once. */
  ghost predicate Distinct(t: HTree)
  {
    match t
    case HNil => true
    case HNode(l, n, r) =>
      Distinct(l) && Distinct(r) &&
      n !in Nodes(l) && n !in Nodes(r) && Nodes(l) !! Nodes(r)
  }

  /** Every node's `left`/`right` fields point at the roots of its subtrees
      in `t`. */
  ghost predicate Linked(t: HTree)
    reads Nodes(t)
  {
    match t
    case HNil => true
    case HNode(l, n, r) =>
      n.left == Root(l) && n.right == Root(r) && Linked(l) && Linked(r)
  }

  /** The nodes of a tree are objects that exist already. */
  lemma {:induction false} NodesAllocated(t: HTree)
    ensures forall n :: n in Nodes(t) ==> allocated(n)
  {
    match t
    case HNil =>
    case HNode(l, _, r) =>
      NodesAllocated(l);
      NodesAllocated(r);
  }

  /** The subtree of `t` whose root is node `n`, or the empty tree if `n` is
      not in `t`. */
  function Find(t: HTree, n: Node): (r: HTree)
    ensures n in Nodes(t) ==> Root(r) == n
    ensures n !in Nodes(t) ==> r == HNil
    ensures Nodes(r) <= Nodes(t)
    ensures Items(Value(r)) <= Items(Value(t))
    ensures Distinct(t) ==> Distinct(r)
    ensures IsBST(Value(t)) ==> IsBST(Value(r))
  {
    match t
    case HNil => HNil
    case HNode(l, m, rt) =>
      if m == n then t
      else if n in Nodes(l) then Find(l, n)
      else Find(rt, n)
  }

  /** A subtree found inside a well-formed tree is itself well formed in the
      same heap. */
  lemma {:induction false} FindWellFormed(t: HTree, n: Node)
    requires Linked(t) && Distinct(t)
    ensures Linked(Find(t, n))
  {
    match t
    case HNil =>
    case HNode(l, m, r) =>
      if m != n {
        FindWellFormed(l, n);
        FindWellFormed(r, n);
      }
  }
}
