/** The two rotations that repair two adjacent red edges after an insertion. */
module TreeRotate {
  import opened TreeShape
  import opened TreeHeap

  /** The focus hangs below two nodes p and gp; p is red and gp is black. */
  ghost predicate TwoAbove(c: Ctx) {
    && c.In? && c.red && c.up.In? && !c.up.red
  }

  /** Both edges point to the same side: p becomes the top, gp its other child. */
  ghost function RotatedCtx(c: Ctx): Ctx
    requires TwoAbove(c)
  {
    var g := c.up;
    In(c.side, c.node, false, c.key, Make(c.side, g.node, true, c.sibling, g.key, g.sibling), g.up)
  }

  /** The edges point to different sides: the focus t becomes the top, gp and p its children. */
  ghost function RotatedTree(c: Ctx, t: T): T
    requires TwoAbove(c) && t.B?
  {
    var g, s := c.up, c.side;
    Make(s, t.node, false,
         Make(Other(s), g.node, true, Sub(t, s), g.key, g.sibling),
         t.key,
         Make(s, c.node, true, Sub(t, Other(s)), c.key, c.sibling))
  }

  /** A focus that has just become red, below a red parent: the only violation of the colour rules. */
  ghost predicate RedBelowRed(c: Ctx, t: T, h: nat) {
    && TwoAbove(c) && Black(c.up.sibling)
    && t.B? && t.red && Balanced(t, h) && NoRedRed(t)
    && CtxBalanced(c, h) && CtxNoRedRed(c, false)
  }

  /** What the invariants say of the two frames above the focus. */
  lemma OuterFrames(c: Ctx, h: nat)
    requires TwoAbove(c) && CtxBalanced(c, h) && CtxNoRedRed(c, false)
    ensures Balanced(c.sibling, h) && Balanced(c.up.sibling, h) && CtxBalanced(c.up.up, h + 1)
    ensures Black(c.sibling) && NoRedRed(c.sibling) && NoRedRed(c.up.sibling) && CtxNoRedRed(c.up.up, false)
  {
    assert CtxBalanced(c.up, h) && CtxNoRedRed(c.up, true);
  }

  lemma RotatedCtxRedBlack(c: Ctx, t: T, h: nat)
    requires RedBelowRed(c, t, h)
    ensures ZipRedBlack(RotatedCtx(c), t, h)
  {
    OuterFrames(c, h);
    var x := Make(c.side, c.up.node, true, c.sibling, c.up.key, c.up.sibling);
    assert Balanced(x, h) && NoRedRed(x);
  }

  lemma RotatedTreeRedBlack(c: Ctx, t: T, h: nat)
    requires RedBelowRed(c, t, h)
    ensures ZipRedBlack(c.up.up, RotatedTree(c, t), h + 1)
  {
    var g, s := c.up, c.side;
    var a, b := Make(Other(s), g.node, true, Sub(t, s), g.key, g.sibling),
        Make(s, c.node, true, Sub(t, Other(s)), c.key, c.sibling);
    OuterFrames(c, h);
    assert Balanced(a, h) && Balanced(b, h);
    assert NoRedRed(a) && NoRedRed(b);
  }

  lemma RotatedCtxKeys(c: Ctx)
    requires TwoAbove(c) && c.side == c.up.side
    ensures Before(RotatedCtx(c)) == Before(c) && After(RotatedCtx(c)) == After(c)
  {
    var g := c.up;
    if c.side == Left {
      Regroup([c.key], Keys(c.sibling), [g.key], Keys(g.sibling), After(g.up));
      RegroupTail([c.key], Keys(c.sibling), [g.key], Keys(g.sibling), After(g.up));
    } else {
      RegroupHead(Before(g.up), Keys(g.sibling), [g.key], Keys(c.sibling), [c.key]);
    }
  }

  lemma RegroupTail(a: seq<int>, b: seq<int>, c: seq<int>, d: seq<int>, e: seq<int>)
    ensures a + (b + c + d) + e == a + b + (c + d + e)
  {
  }

  lemma RegroupHead(a: seq<int>, b: seq<int>, c: seq<int>, d: seq<int>, e: seq<int>)
    ensures a + (b + c + d) + e == (a + b + c) + d + e
  {
  }

  lemma RotatedTreeKeys(c: Ctx, t: T)
    requires TwoAbove(c) && t.B? && c.side != c.up.side
    ensures Before(c.up.up) + Keys(RotatedTree(c, t)) + After(c.up.up) == Before(c) + Keys(t) + After(c)
  {
    var g := c.up;
    var l, r := Keys(t.left), Keys(t.right);
    if c.side == Left {
      RegroupNine(Before(g.up), Keys(g.sibling), [g.key], l, [t.key], r, [c.key], Keys(c.sibling), After(g.up));
    } else {
      RegroupNine(Before(g.up), Keys(c.sibling), [c.key], l, [t.key], r, [g.key], Keys(g.sibling), After(g.up));
    }
  }

  lemma RegroupNine(a: seq<int>, b: seq<int>, c: seq<int>, d: seq<int>, e: seq<int>, f: seq<int>, g: seq<int>,
                    h: seq<int>, i: seq<int>)
    ensures a + ((b + c + d) + e + (f + g + h)) + i == (a + b + c) + (d + e + f) + (g + h + i)
  {
  }

  /** All nodes of the focus and the two frames above it are different objects. */
  lemma DistinctFrames(c: Ctx, t: T)
    requires TwoAbove(c) && ZipDistinct(c, t)
    ensures var g := c.up;
            && c.node != g.node
            && c.node !in Nodes(c.sibling) + Nodes(g.sibling) + CtxNodes(g.up) + Nodes(t)
            && g.node !in Nodes(c.sibling) + Nodes(g.sibling) + CtxNodes(g.up) + Nodes(t)
            && Nodes(c.sibling) !! Nodes(g.sibling) && Nodes(c.sibling) !! CtxNodes(g.up)
               && Nodes(c.sibling) !! Nodes(t)
            && Nodes(g.sibling) !! CtxNodes(g.up) && Nodes(g.sibling) !! Nodes(t) && CtxNodes(g.up) !! Nodes(t)
            && Distinct(c.sibling) && Distinct(g.sibling) && CtxDistinct(g.up) && Distinct(t)
            && CtxNodes(c) == CtxNodes(g.up) + {g.node} + Nodes(g.sibling) + {c.node} + Nodes(c.sibling)
  {
    assert CtxDistinct(c.up);
    assert CtxNodes(c) == CtxNodes(c.up) + {c.node} + Nodes(c.sibling);
    assert CtxNodes(c.up) == CtxNodes(c.up.up) + {c.up.node} + Nodes(c.up.sibling);
  }

  lemma RotatedCtxDistinct(c: Ctx, t: T)
    requires TwoAbove(c) && ZipDistinct(c, t)
    ensures ZipDistinct(RotatedCtx(c), t)
  {
    DistinctFrames(c, t);
    MakeDistinct(c.side, c.up.node, true, c.sibling, c.up.key, c.up.sibling);
  }

  lemma MakeDistinct(s: Side, n: Node, red: bool, a: T, k: int, b: T)
    requires n !in Nodes(a) && n !in Nodes(b) && Nodes(a) !! Nodes(b) && Distinct(a) && Distinct(b)
    ensures Distinct(Make(s, n, red, a, k, b))
    ensures Nodes(Make(s, n, red, a, k, b)) == Nodes(a) + {n} + Nodes(b)
  {
  }

  lemma SubDistinct(t: T, s: Side)
    requires t.B? && Distinct(t)
    ensures Distinct(Sub(t, s)) && Distinct(Sub(t, Other(s)))
    ensures Nodes(t) == Nodes(Sub(t, s)) + {t.node} + Nodes(Sub(t, Other(s)))
    ensures t.node !in Nodes(Sub(t, s)) + Nodes(Sub(t, Other(s)))
    ensures Nodes(Sub(t, s)) !! Nodes(Sub(t, Other(s)))
  {
  }

  lemma RotatedTreeDistinct(c: Ctx, t: T)
    requires TwoAbove(c) && t.B? && ZipDistinct(c, t)
    ensures ZipDistinct(c.up.up, RotatedTree(c, t))
  {
    DistinctFrames(c, t);
    SubDistinct(t, c.side);
    var g, s, x, y := c.up, c.side, Sub(t, c.side), Sub(t, Other(c.side));
    MakeDistinct(Other(s), g.node, true, x, g.key, g.sibling);
    MakeDistinct(s, c.node, true, y, c.key, c.sibling);
    var a, b := Make(Other(s), g.node, true, x, g.key, g.sibling), Make(s, c.node, true, y, c.key, c.sibling);
    Apart(Nodes(x), g.node, Nodes(g.sibling), Nodes(y), c.node, Nodes(c.sibling), t.node, CtxNodes(g.up));
    MakeDistinct(s, t.node, false, a, t.key, b);
  }

  lemma Apart(a: set<Node>, n1: Node, b: set<Node>, d: set<Node>, n2: Node, e: set<Node>, n: Node, outer: set<Node>)
    requires n != n1 && n != n2 && n1 != n2 && n !in outer && n1 !in outer && n2 !in outer
    requires n !in a + b + d + e && n1 !in a + b + d + e && n2 !in a + b + d + e
    requires a !! d && a !! e && b !! d && b !! e && outer !! a + b + d + e
    ensures n !in a + {n1} + b && n !in d + {n2} + e
    ensures a + {n1} + b !! d + {n2} + e
    ensures (a + {n1} + b) + {n} + (d + {n2} + e) !! outer
  {
  }

  // ------------------------------------------------------------------------
  // The rotations in the heap
  // ------------------------------------------------------------------------

  /** The pieces around the focus survive storing a new top and rewriting p, gp and the focus. */
  lemma KeepPieces(h: map<Node, Cell>, h1: map<Node, Cell>, h2: map<Node, Cell>, root: Node?, root': Node?, c: Ctx,
                   t: T, top: Node, written: set<Node>)
    requires TwoAbove(c) && ZipHolds(h, root, c, t) && Stored(h, root, h1, root', c.up.up, top)
    requires Outside(h1, h2, written)
    requires written <= {c.node, c.up.node} + (if t.B? then {t.node} else {})
    ensures CtxHolds(h2, root', c.up.up, top)
    ensures Holds(h2, c.sibling) && Holds(h2, c.up.sibling)
    ensures t.B? ==> Holds(h2, t.left) && Holds(h2, t.right)
    ensures t.B? && t.node !in written ==> Holds(h2, t)
  {
    var g := c.up;
    DistinctFrames(c, t);
    assert CtxHolds(h, root, g, c.node);
    StoreHolds(h, root, h1, root', g.up, g.node, top);
    CtxFrame(h1, h2, root', g.up, top);
    StoredOutside(h, root, h1, root', g.up, top);
    KeepTree(h, h1, h2, CtxNodes(g.up), written, c.sibling);
    KeepTree(h, h1, h2, CtxNodes(g.up), written, g.sibling);
    if t.B? {
      SubDistinct(t, Left);
      KeepTree(h, h1, h2, CtxNodes(g.up), written, t.left);
      KeepTree(h, h1, h2, CtxNodes(g.up), written, t.right);
      if t.node !in written {
        KeepTree(h, h1, h2, CtxNodes(g.up), written, t);
      }
    }
  }

  lemma KeepTree(h: map<Node, Cell>, h1: map<Node, Cell>, h2: map<Node, Cell>, written1: set<Node>, written2: set<Node>,
                 t: T)
    requires Holds(h, t) && Outside(h, h1, written1) && Outside(h1, h2, written2)
    requires written1 !! Nodes(t) && written2 !! Nodes(t)
    ensures Holds(h2, t)
  {
    HoldsOutside(h, h1, written1, t);
    HoldsOutside(h1, h2, written2, t);
  }

  lemma AssembleSingle(h: map<Node, Cell>, h1: map<Node, Cell>, h2: map<Node, Cell>, root: Node?, root': Node?, c: Ctx,
                       t: T)
    requires TwoAbove(c) && c.side == c.up.side && ZipHolds(h, root, c, t)
    requires Stored(h, root, h1, root', c.up.up, c.node)
    requires Outside(h1, h2, {c.node, c.up.node})
    requires Has(h2, c.node, MakeCell(c.side, c.key, false, Root(t), c.up.node))
    requires Has(h2, c.up.node, MakeCell(c.side, c.up.key, true, Root(c.sibling), Root(c.up.sibling)))
    ensures ZipHolds(h2, root', RotatedCtx(c), t)
  {
    RotatedCtxDistinct(c, t);
    KeepPieces(h, h1, h2, root, root', c, t, c.node, {c.node, c.up.node});
  }

  lemma AssembleDouble(h: map<Node, Cell>, h1: map<Node, Cell>, h2: map<Node, Cell>, root: Node?, root': Node?, c: Ctx,
                       t: T)
    requires TwoAbove(c) && t.B? && ZipHolds(h, root, c, t)
    requires Stored(h, root, h1, root', c.up.up, t.node)
    requires Outside(h1, h2, {c.node, c.up.node, t.node})
    requires Has(h2, c.node, MakeCell(c.side, c.key, true, Root(Sub(t, Other(c.side))), Root(c.sibling)))
    requires Has(h2, c.up.node, MakeCell(Other(c.side), c.up.key, true, Root(Sub(t, c.side)), Root(c.up.sibling)))
    requires Has(h2, t.node, MakeCell(c.side, t.key, false, c.up.node, c.node))
    ensures ZipHolds(h2, root', c.up.up, RotatedTree(c, t))
  {
    RotatedTreeDistinct(c, t);
    KeepPieces(h, h1, h2, root, root', c, t, t.node, {c.node, c.up.node, t.node});
  }

  /** The pointer and colour updates of a single rotation. */
  method TurnSingle(ghost nodes: set<Node>, p: Node, gp: Node, p_r: int)
    requires p in nodes && gp in nodes && p != gp
    modifies p, gp
    ensures Outside(old(Snapshot(nodes)), Snapshot(nodes), {p, gp})
    ensures var s, h := if p_r < 0 then Left else Right, Snapshot(nodes);
            && Has(h, p, MakeCell(s, old(p.key), false, old(p.Child(s)), gp))
            && Has(h, gp, MakeCell(s, old(gp.key), true, old(p.Child(Other(s))), old(gp.Child(Other(s)))))
  {
    p.red := false;
    gp.red := true;
    if p_r < 0 {
      gp.left := p.right;
      p.right := gp;
    } else {
      gp.right := p.left;
      p.left := gp;
    }
  }

  /** The pointer and colour updates of a double rotation. */
  method TurnDouble(ghost nodes: set<Node>, root: Node, p: Node, gp: Node, p_r: int)
    requires p in nodes && gp in nodes && root in nodes && p != gp && p != root && gp != root
    modifies p, gp, root
    ensures Outside(old(Snapshot(nodes)), Snapshot(nodes), {p, gp, root})
    ensures var s, h := if p_r < 0 then Left else Right, Snapshot(nodes);
            && Has(h, p, MakeCell(s, old(p.key), true, old(root.Child(Other(s))), old(p.Child(Other(s)))))
            && Has(h, gp, MakeCell(Other(s), old(gp.key), true, old(root.Child(s)), old(gp.Child(s))))
            && Has(h, root, MakeCell(s, old(root.key), false, gp, p))
  {
    p.red := true;
    gp.red := true;
    root.red := false;
    if p_r < 0 {
      p.left := root.right;
      root.right := p;
      gp.right := root.left;
      root.left := gp;
    } else {
      p.right := root.left;
      root.left := p;
      gp.left := root.right;
      root.right := gp;
    }
  }

  /** Same side: the parent comes to the top, with the grandparent and the child below it. */
  method RotateSingle(tree: Tree, ghost nodes: set<Node>, ghost c: Ctx, ghost t: T, p: Node, gp: Node, gparentp: Slot,
                      p_r: int)
    requires TwoAbove(c) && Zip(tree, nodes, c, t) && c.side == c.up.side
    requires p == c.node && gp == c.up.node && gparentp == SlotOf(tree, c.up.up)
    requires p_r != 0 && c.side == if p_r < 0 then Left else Right
    modifies tree`root, nodes
    ensures Zip(tree, nodes, RotatedCtx(c), t)
  {
    ghost var h, root0 := Snapshot(nodes), tree.root;
    DistinctFrames(c, t);
    assert CtxHolds(h, root0, c.up, p);
    assert CtxHolds(h, root0, c.up.up, gp);
    Store(tree, nodes, c.up.up, gparentp, p);
    ghost var h1 := Snapshot(nodes);
    TurnSingle(nodes, p, gp, p_r);
    AssembleSingle(h, h1, Snapshot(nodes), root0, tree.root, c, t);
  }

  /** Different sides: the child comes to the top, with the parent and the grandparent below it. */
  method RotateDouble(tree: Tree, ghost nodes: set<Node>, ghost c: Ctx, ghost t: T, root: Node, p: Node, gp: Node,
                      gparentp: Slot, p_r: int)
    requires TwoAbove(c) && t.B? && Zip(tree, nodes, c, t) && c.side != c.up.side
    requires root == t.node && p == c.node && gp == c.up.node && gparentp == SlotOf(tree, c.up.up)
    requires p_r != 0 && c.side == if p_r < 0 then Left else Right
    modifies tree`root, nodes
    ensures Zip(tree, nodes, c.up.up, RotatedTree(c, t))
  {
    ghost var h, root0 := Snapshot(nodes), tree.root;
    DistinctFrames(c, t);
    assert CtxHolds(h, root0, c.up, p);
    assert CtxHolds(h, root0, c.up.up, gp);
    Store(tree, nodes, c.up.up, gparentp, root);
    ghost var h1 := Snapshot(nodes);
    TurnDouble(nodes, root, p, gp, p_r);
    AssembleDouble(h, h1, Snapshot(nodes), root0, tree.root, c, t);
  }
}
