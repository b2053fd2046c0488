/** Binary trees of numbers, as both source files use them: a node holds an
    item and two child slots, and an empty slot is the empty tree (`null` in
    the source). This module gives the comparator both files share and the
    abstract views (in-order sequence, item set, search-tree property) that
    the properties of the splay operations are stated in. */
module BinaryTrees {

  datatype Tree = Nil | Node(left: Tree, item: int, right: Tree)

  /** The default comparator of both files: the raw difference of the two
      items, whose sign is the three-way answer. */
  function Compare(item1: int, item2: int): (r: int)
    ensures r < 0 <==> item1 < item2
    ensures r == 0 <==> item1 == item2
    ensures r > 0 <==> item1 > item2
  {
    item1 - item2
  }

  function Size(t: Tree): nat
  {
    match t
    case Nil => 0
    case Node(l, _, r) => Size(l) + 1 + Size(r)
  }

  /** The items of `t` from left to right. */
  function Inorder(t: Tree): seq<int>
  {
    match t
    case Nil => []
    case Node(l, x, r) => Inorder(l) + [x] + Inorder(r)
  }

  function Items(t: Tree): set<int>
  {
    match t
    case Nil => {}
    case Node(l, x, r) => Items(l) + {x} + Items(r)
  }

  /** The search-tree invariant: every item left of a node is smaller than
      the node's item and every item right of it is larger. */
  ghost predicate IsBST(t: Tree)
  {
    match t
    case Nil => true
    case Node(l, x, r) =>
      IsBST(l) && IsBST(r) &&
      (forall y :: y in Items(l) ==> y < x) &&
      (forall y :: y in Items(r) ==> x < y)
  }

  ghost predicate Increasing(s: seq<int>)
  {
    forall i, j :: 0 <= i < j < |s| ==> s[i] < s[j]
  }

  /** Ordinary search from the root without restructuring (the test helper
      `testHas` of the source's tests). */
  function Member(item: int, t: Tree): bool
  {
    match t
    case Nil => false
    case Node(l, x, r) =>
      if item == x then true
      else if item < x then Member(item, l)
      else Member(item, r)
  }

  lemma {:induction false} ItemsAreInorder(t: Tree)
    ensures forall y :: y in Items(t) <==> y in Inorder(t)
  {
    match t
    case Nil =>
    case Node(l, x, r) =>
      ItemsAreInorder(l);
      ItemsAreInorder(r);
  }

  lemma IncreasingConcat(a: seq<int>, x: int, b: seq<int>)
    ensures Increasing(a + [x] + b) <==>
      Increasing(a) && Increasing(b) &&
      (forall y :: y in a ==> y < x) && (forall y :: y in b ==> x < y)
  {
    if Increasing(a) && Increasing(b) &&
      (forall y :: y in a ==> y < x) && (forall y :: y in b ==> x < y)
    {
      IncreasingJoin(a, x, b);
    }
    if Increasing(a + [x] + b) {
      IncreasingSplit(a, x, b);
    }
  }

  lemma IncreasingJoin(a: seq<int>, x: int, b: seq<int>)
    requires Increasing(a) && Increasing(b)
    requires forall y :: y in a ==> y < x
    requires forall y :: y in b ==> x < y
    ensures Increasing(a + [x] + b)
  {
    var s := a + [x] + b;
    forall i, j | 0 <= i < j < |s| ensures s[i] < s[j] {
      if j < |a| {
      } else if i < |a| {
        assert s[i] in a;
        if j > |a| { assert s[j] in b; }
      } else if i == |a| {
        assert s[j] in b;
      } else {
        assert s[i] == b[i - |a| - 1] && s[j] == b[j - |a| - 1];
      }
    }
  }

  lemma IncreasingSplit(a: seq<int>, x: int, b: seq<int>)
    requires Increasing(a + [x] + b)
    ensures Increasing(a) && Increasing(b)
    ensures forall y :: y in a ==> y < x
    ensures forall y :: y in b ==> x < y
  {
    var s := a + [x] + b;
    forall i, j | 0 <= i < j < |a| ensures a[i] < a[j] {
      assert a[i] == s[i] && a[j] == s[j];
    }
    forall i, j | 0 <= i < j < |b| ensures b[i] < b[j] {
      assert b[i] == s[|a| + 1 + i] && b[j] == s[|a| + 1 + j];
    }
    forall y | y in a ensures y < x {
      var i :| 0 <= i < |a| && a[i] == y;
      assert s[i] == y && s[|a|] == x;
    }
    forall y | y in b ensures x < y {
      var i :| 0 <= i < |b| && b[i] == y;
      assert s[|a| + 1 + i] == y && s[|a|] == x;
    }
  }

  /** A tree is a search tree exactly when its in-order sequence is strictly
      increasing; so any restructuring that keeps the in-order sequence keeps
      the search-tree invariant. */
  lemma {:induction false} SearchTreeIffIncreasing(t: Tree)
    ensures IsBST(t) <==> Increasing(Inorder(t))
  {
    match t
    case Nil =>
    case Node(l, x, r) =>
      SearchTreeIffIncreasing(l);
      SearchTreeIffIncreasing(r);
      ItemsAreInorder(l);
      ItemsAreInorder(r);
      IncreasingConcat(Inorder(l), x, Inorder(r));
  }

  /** On a search tree, plain search finds exactly the items present. */
  lemma {:induction false} MemberIffPresent(item: int, t: Tree)
    requires IsBST(t)
    ensures Member(item, t) <==> item in Items(t)
  {
    match t
    case Nil =>
    case Node(l, x, r) =>
      MemberIffPresent(item, l);
      MemberIffPresent(item, r);
  }
}
