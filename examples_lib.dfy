/** The shapes the tests of lib/splay.js pin down, on trees whose nodes
    hold the items the tests use: the splays of Figs. 5a, 5b and 4 of
    Sleator and Tarjan's "Self-Adjusting Binary Search Trees", and the
    two unbalanced trees `build` makes from sorted input. The splays do not
    depend on which node objects hold the items, so the figures are stated
    for any nodes with those items. */
module SplayExamples {
  import opened BinaryTrees
  import opened SplayNodes
  import opened SplayShapes
  import opened InsertShapes

  /** Fig. 5a: splaying 1 at the bottom of the left path 7, 6, ..., 1
      takes three zig-zig steps; 1 becomes the root with the rest, halved
      in depth, on its right. */
  lemma SplayFig5a(n1: Node, n2: Node, n3: Node, n4: Node, n5: Node, n6: Node, n7: Node)
    requires n1.item == 1 && n2.item == 2 && n3.item == 3 && n4.item == 4
    requires n5.item == 5 && n6.item == 6 && n7.item == 7
    ensures var t := HNode(HNode(HNode(HNode(HNode(HNode(Leaf(n1), n2, HNil), n3, HNil), n4, HNil), n5, HNil), n6, HNil), n7, HNil);
      SplayShape(1, t).cmp == 0 &&
      Value(SplayShape(1, t).tree) ==
        Node(Nil, 1, Node(Node(Node(Nil, 2, Node(Nil, 3, Nil)), 4, Node(Nil, 5, Nil)), 6, Node(Nil, 7, Nil)))
  {
    var t2 := HNode(Leaf(n1), n2, HNil);
    var t3 := HNode(t2, n3, HNil);
    var t4 := HNode(t3, n4, HNil);
    var t5 := HNode(t4, n5, HNil);
    var t6 := HNode(t5, n6, HNil);
    var t := HNode(t6, n7, HNil);
    var rs := [Link(n2, Leaf(n3)), Link(n4, Leaf(n5)), Link(n6, Leaf(n7))];
    var stop := Stop(0, Leaf(n1), [], rs);
    assert Descend(1, Leaf(n1), [], rs) == stop;
    assert [Link(n2, Leaf(n3))] + rs[1..] == rs;
    assert Descend(1, t3, [], rs[1..]) == stop;
    assert [Link(n4, Leaf(n5))] + rs[2..] == rs[1..];
    assert Descend(1, t5, [], rs[2..]) == stop;
    assert [Link(n6, Leaf(n7))] + [] == rs[2..];
    assert Descend(1, t, [], []) == stop;
    var u2 := HNode(HNil, n2, Leaf(n3));
    var u4 := HNode(u2, n4, Leaf(n5));
    var u6 := HNode(u4, n6, Leaf(n7));
    assert rs[1..][1..] == rs[2..] && rs[2..][1..] == [];
    assert RightBuilt(rs[2..], u4) == u6;
    assert RightBuilt(rs[1..], u2) == u6;
    assert RightBuilt(rs, HNil) == u6;
    ValueLeaf(n3); ValueLeaf(n5); ValueLeaf(n7);
    assert Value(u2) == Node(Nil, 2, Node(Nil, 3, Nil));
    assert Value(u4) == Node(Node(Nil, 2, Node(Nil, 3, Nil)), 4, Node(Nil, 5, Nil));
    assert Value(u6) == Node(Value(u4), 6, Node(Nil, 7, Nil));
    assert SplayShape(1, t) == Splayed(0, HNode(HNil, n1, u6));
  }

  /** Fig. 5b: splaying 40 at the bottom of the zig-zag path 90, 10, 80,
      20, 70, 30, 40 links every node onto a chain and never rotates. */
  lemma SplayFig5b(n10: Node, n20: Node, n30: Node, n40: Node, n70: Node, n80: Node, n90: Node)
    requires n10.item == 10 && n20.item == 20 && n30.item == 30 && n40.item == 40
    requires n70.item == 70 && n80.item == 80 && n90.item == 90
    ensures var t := HNode(HNode(HNil, n10, HNode(HNode(HNil, n20, HNode(HNode(HNil, n30, Leaf(n40)), n70, HNil)), n80, HNil)), n90, HNil);
      SplayShape(40, t).cmp == 0 &&
      Value(SplayShape(40, t).tree) ==
        Node(Node(Nil, 10, Node(Nil, 20, Node(Nil, 30, Nil))), 40, Node(Node(Node(Nil, 70, Nil), 80, Nil), 90, Nil))
  {
    var t30 := HNode(HNil, n30, Leaf(n40));
    var t70 := HNode(t30, n70, HNil);
    var t20 := HNode(HNil, n20, t70);
    var t80 := HNode(t20, n80, HNil);
    var t10 := HNode(HNil, n10, t80);
    var t := HNode(t10, n90, HNil);
    var ls := [Link(n30, HNil), Link(n20, HNil), Link(n10, HNil)];
    var rs := [Link(n70, HNil), Link(n80, HNil), Link(n90, HNil)];
    var stop := Stop(0, Leaf(n40), ls, rs);
    assert Descend(40, Leaf(n40), ls, rs) == stop;
    assert [Link(n30, HNil)] + ls[1..] == ls;
    assert Descend(40, t30, ls[1..], rs) == stop;
    assert [Link(n70, HNil)] + rs[1..] == rs;
    assert Descend(40, t70, ls[1..], rs[1..]) == stop;
    assert [Link(n20, HNil)] + ls[2..] == ls[1..];
    assert Descend(40, t20, ls[2..], rs[1..]) == stop;
    assert [Link(n80, HNil)] + rs[2..] == rs[1..];
    assert Descend(40, t80, ls[2..], rs[2..]) == stop;
    assert [Link(n10, HNil)] + [] == ls[2..];
    assert Descend(40, t10, [], rs[2..]) == stop;
    assert [Link(n90, HNil)] + [] == rs[2..];
    assert Descend(40, t, [], []) == stop;
    assert ls[1..][1..] == ls[2..] && ls[2..][1..] == [];
    assert rs[1..][1..] == rs[2..] && rs[2..][1..] == [];
    var l20 := HNode(HNil, n20, Leaf(n30));
    var l10 := HNode(HNil, n10, l20);
    assert LeftBuilt(ls[2..], l20) == l10;
    assert LeftBuilt(ls[1..], Leaf(n30)) == l10;
    assert LeftBuilt(ls, HNil) == l10;
    var r80 := HNode(Leaf(n70), n80, HNil);
    var r90 := HNode(r80, n90, HNil);
    assert RightBuilt(rs[2..], r80) == r90;
    assert RightBuilt(rs[1..], Leaf(n70)) == r90;
    assert RightBuilt(rs, HNil) == r90;
    assert Value(l20) == Node(Nil, 20, Node(Nil, 30, Nil));
    assert Value(r80) == Node(Node(Nil, 70, Nil), 80, Nil);
  }

  /** Fig. 4: splaying 63 in the tree 99, 98, 97, 50, 75, 60, 61, 62, 63.
      The simple top-down splay the source implements ends with 61 above
      60 and 62 on the left; the figure of the paper has 62 above 61
      there instead. */
  lemma SplayFig4(n50: Node, n60: Node, n61: Node, n62: Node, n63: Node, n75: Node,
                  n97: Node, n98: Node, n99: Node)
    requires n50.item == 50 && n60.item == 60 && n61.item == 61 && n62.item == 62 && n63.item == 63
    requires n75.item == 75 && n97.item == 97 && n98.item == 98 && n99.item == 99
    ensures var t :=
        HNode(HNode(HNode(HNode(HNil, n50, HNode(HNode(HNil, n60, HNode(HNil, n61, HNode(HNil, n62, Leaf(n63)))),
          n75, HNil)), n97, HNil), n98, HNil), n99, HNil);
      SplayShape(63, t).cmp == 0 &&
      Value(SplayShape(63, t).tree) ==
        Node(Node(Nil, 50, Node(Node(Nil, 60, Nil), 61, Node(Nil, 62, Nil))), 63,
             Node(Node(Node(Nil, 75, Nil), 97, Nil), 98, Node(Nil, 99, Nil)))
  {
    var t62 := HNode(HNil, n62, Leaf(n63));
    var t61 := HNode(HNil, n61, t62);
    var t60 := HNode(HNil, n60, t61);
    var t75 := HNode(t60, n75, HNil);
    var t50 := HNode(HNil, n50, t75);
    var t97 := HNode(t50, n97, HNil);
    var t98 := HNode(t97, n98, HNil);
    var t := HNode(t98, n99, HNil);
    var ls := [Link(n62, HNil), Link(n61, Leaf(n60)), Link(n50, HNil)];
    var rs := [Link(n75, HNil), Link(n97, HNil), Link(n98, Leaf(n99))];
    var stop := Stop(0, Leaf(n63), ls, rs);
    assert Descend(63, Leaf(n63), ls, rs) == stop;
    assert [Link(n62, HNil)] + ls[1..] == ls;
    assert Descend(63, t62, ls[1..], rs) == stop;
    assert [Link(n61, HNode(HNil, n60, HNil))] + ls[2..] == ls[1..];
    assert Descend(63, t60, ls[2..], rs) == stop;
    assert [Link(n75, HNil)] + rs[1..] == rs;
    assert Descend(63, t75, ls[2..], rs[1..]) == stop;
    assert [Link(n50, HNil)] + [] == ls[2..];
    assert Descend(63, t50, [], rs[1..]) == stop;
    assert [Link(n97, HNil)] + rs[2..] == rs[1..];
    assert Descend(63, t97, [], rs[2..]) == stop;
    assert [Link(n98, HNode(HNil, n99, HNil))] + [] == rs[2..];
    assert Descend(63, t, [], []) == stop;
    assert ls[1..][1..] == ls[2..] && ls[2..][1..] == [];
    assert rs[1..][1..] == rs[2..] && rs[2..][1..] == [];
    var l61 := HNode(Leaf(n60), n61, Leaf(n62));
    var l50 := HNode(HNil, n50, l61);
    assert LeftBuilt(ls[2..], l61) == l50;
    assert LeftBuilt(ls[1..], Leaf(n62)) == l50;
    assert LeftBuilt(ls, HNil) == l50;
    var r97 := HNode(Leaf(n75), n97, HNil);
    var r98 := HNode(r97, n98, Leaf(n99));
    assert RightBuilt(rs[2..], r97) == r98;
    assert RightBuilt(rs[1..], Leaf(n75)) == r98;
    assert RightBuilt(rs, HNil) == r98;
    ValueLeaf(n60); ValueLeaf(n62); ValueLeaf(n75); ValueLeaf(n99);
    assert Value(l61) == Node(Node(Nil, 60, Nil), 61, Node(Nil, 62, Nil));
    assert Value(l50) == Node(Nil, 50, Value(l61));
    assert Value(r97) == Node(Node(Nil, 75, Nil), 97, Nil);
    assert Value(r98) == Node(Value(r97), 98, Node(Nil, 99, Nil));
    assert SplayShape(63, t) == Splayed(0, HNode(l50, n63, r98));
  }

  /** The four insertions of `build([4, 8, 12, 16, 20])`: each new item is
      the largest, the splay rotates the previous maximum's parent down to
      its left, and the leaf goes into the empty right slot. */
  lemma AscendingInserts(n0: Node, n1: Node, n2: Node, n3: Node, n4: Node)
    requires n0.item == 4 && n1.item == 8 && n2.item == 12 && n3.item == 16 && n4.item == 20
    ensures InsertShapeAsWritten(8, Leaf(n0), n1) == HNode(HNil, n0, Leaf(n1))
    ensures InsertShapeAsWritten(12, HNode(HNil, n0, Leaf(n1)), n2) ==
      HNode(Leaf(n0), n1, Leaf(n2))
    ensures InsertShapeAsWritten(16, HNode(Leaf(n0), n1, Leaf(n2)), n3) ==
      HNode(HNode(Leaf(n0), n1, HNil), n2, Leaf(n3))
    ensures InsertShapeAsWritten(20, HNode(HNode(Leaf(n0), n1, HNil), n2, Leaf(n3)), n4) ==
      HNode(HNode(HNode(Leaf(n0), n1, HNil), n2, HNil), n3, Leaf(n4))
  {
    var t1 := Leaf(n0);
    assert Descend(8, t1, [], []) == Stop(4, t1, [], []);
    var t2 := HNode(HNil, n0, Leaf(n1));
    assert Descend(12, t2, [], []) == Stop(4, HNode(Leaf(n0), n1, HNil), [], []);
    var t3 := HNode(Leaf(n0), n1, Leaf(n2));
    assert Descend(16, t3, [], []) == Stop(4, HNode(HNode(Leaf(n0), n1, HNil), n2, HNil), [], []);
    var t4 := HNode(HNode(Leaf(n0), n1, HNil), n2, Leaf(n3));
    assert Descend(20, t4, [], []) ==
      Stop(4, HNode(HNode(HNode(Leaf(n0), n1, HNil), n2, HNil), n3, HNil), [], []);
  }

  /** `build([4, 8, 12, 16, 20])` leans to the left, its last item alone
      on the right. */
  lemma BuildAscending(leaves: seq<Node>)
    requires |leaves| == 5
    requires forall i :: 0 <= i < 5 ==> leaves[i].item == [4, 8, 12, 16, 20][i]
    ensures Value(BuildShape([4, 8, 12, 16, 20], leaves)) ==
      Node(Node(Node(Node(Nil, 4, Nil), 8, Nil), 12, Nil), 16, Node(Nil, 20, Nil))
  {
    var n0, n1, n2, n3, n4 := leaves[0], leaves[1], leaves[2], leaves[3], leaves[4];
    assert n0.item == 4 && n1.item == 8 && n2.item == 12 && n3.item == 16 && n4.item == 20;
    AscendingInserts(n0, n1, n2, n3, n4);
    var a1, l1 := [] + [4], [] + [n0];
    var a2, l2 := a1 + [8], l1 + [n1];
    var a3, l3 := a2 + [12], l2 + [n2];
    var a4, l4 := a3 + [16], l3 + [n3];
    var a5, l5 := a4 + [20], l4 + [n4];
    BuildStep([], [], 4, n0);
    BuildStep(a1, l1, 8, n1);
    BuildStep(a2, l2, 12, n2);
    BuildStep(a3, l3, 16, n3);
    BuildStep(a4, l4, 20, n4);
    assert a5 == [4, 8, 12, 16, 20] && l5 == leaves;
    ValueLeaf(n0); ValueLeaf(n4);
    assert Value(HNode(Leaf(n0), n1, HNil)) == Node(Node(Nil, 4, Nil), 8, Nil);
  }

  /** The four insertions of `build([20, 16, 12, 8, 4])`, the mirror image
      of AscendingInserts: each leaf goes to the left of the splayed root. */
  lemma DescendingInserts(n0: Node, n1: Node, n2: Node, n3: Node, n4: Node)
    requires n0.item == 20 && n1.item == 16 && n2.item == 12 && n3.item == 8 && n4.item == 4
    ensures InsertShapeAsWritten(16, Leaf(n0), n1) == HNode(Leaf(n1), n0, HNil)
    ensures InsertShapeAsWritten(12, HNode(Leaf(n1), n0, HNil), n2) ==
      HNode(Leaf(n2), n1, Leaf(n0))
    ensures InsertShapeAsWritten(8, HNode(Leaf(n2), n1, Leaf(n0)), n3) ==
      HNode(Leaf(n3), n2, HNode(HNil, n1, Leaf(n0)))
    ensures InsertShapeAsWritten(4, HNode(Leaf(n3), n2, HNode(HNil, n1, Leaf(n0))), n4) ==
      HNode(Leaf(n4), n3, HNode(HNil, n2, HNode(HNil, n1, Leaf(n0))))
  {
    var t1 := Leaf(n0);
    assert Descend(16, t1, [], []) == Stop(-4, t1, [], []);
    var t2 := HNode(Leaf(n1), n0, HNil);
    assert Descend(12, t2, [], []) == Stop(-4, HNode(HNil, n1, Leaf(n0)), [], []);
    var t3 := HNode(Leaf(n2), n1, Leaf(n0));
    assert Descend(8, t3, [], []) == Stop(-4, HNode(HNil, n2, HNode(HNil, n1, Leaf(n0))), [], []);
    var t4 := HNode(Leaf(n3), n2, HNode(HNil, n1, Leaf(n0)));
    assert Descend(4, t4, [], []) ==
      Stop(-4, HNode(HNil, n3, HNode(HNil, n2, HNode(HNil, n1, Leaf(n0)))), [], []);
  }

  /** `build([20, 16, 12, 8, 4])` leans to the right below its last two
      items. */
  lemma BuildDescending(leaves: seq<Node>)
    requires |leaves| == 5
    requires forall i :: 0 <= i < 5 ==> leaves[i].item == [20, 16, 12, 8, 4][i]
    ensures Value(BuildShape([20, 16, 12, 8, 4], leaves)) ==
      Node(Node(Nil, 4, Nil), 8, Node(Nil, 12, Node(Nil, 16, Node(Nil, 20, Nil))))
  {
    var n0, n1, n2, n3, n4 := leaves[0], leaves[1], leaves[2], leaves[3], leaves[4];
    assert n0.item == 20 && n1.item == 16 && n2.item == 12 && n3.item == 8 && n4.item == 4;
    DescendingInserts(n0, n1, n2, n3, n4);
    var a1, l1 := [] + [20], [] + [n0];
    var a2, l2 := a1 + [16], l1 + [n1];
    var a3, l3 := a2 + [12], l2 + [n2];
    var a4, l4 := a3 + [8], l3 + [n3];
    var a5, l5 := a4 + [4], l4 + [n4];
    BuildStep([], [], 20, n0);
    BuildStep(a1, l1, 16, n1);
    BuildStep(a2, l2, 12, n2);
    BuildStep(a3, l3, 8, n3);
    BuildStep(a4, l4, 4, n4);
    assert a5 == [20, 16, 12, 8, 4] && l5 == leaves;
    ValueLeaf(n0); ValueLeaf(n4);
    assert Value(HNode(HNil, n1, Leaf(n0))) == Node(Nil, 16, Node(Nil, 20, Nil));
  }
}
