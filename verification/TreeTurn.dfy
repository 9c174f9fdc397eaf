/** The pointer updates of the fix-up after a deletion. */
module TreeTurn {
  import opened TreeShape
  import opened TreeHeap
  import opened TreeRotate
  import opened TreeSplit
  import opened TreeRepair

  /** All nodes around a focus r with parent p and brother q are different objects. */
  lemma BrotherDistinct(c: Ctx, r: T)
    requires c.In? && c.sibling.B? && ZipDistinct(c, r)
    ensures var p, q, s := c.node, c.sibling, c.side; var a, b := Nodes(Sub(q, s)), Nodes(Sub(q, Other(s)));
            && p != q.node
            && p !in a + b + CtxNodes(c.up) + Nodes(r)
            && q.node !in a + b + CtxNodes(c.up) + Nodes(r)
            && a !! b && a !! CtxNodes(c.up) && a !! Nodes(r) && b !! CtxNodes(c.up) && b !! Nodes(r)
               && CtxNodes(c.up) !! Nodes(r)
            && Distinct(Sub(q, s)) && Distinct(Sub(q, Other(s))) && CtxDistinct(c.up) && Distinct(r)
  {
    SubDistinct(c.sibling, c.side);
    assert c.sibling.node in Nodes(c.sibling);
  }

  lemma RedBrotherDistinct(c: Ctx, r: T)
    requires c.In? && c.sibling.B? && ZipDistinct(c, r)
    ensures ZipDistinct(RedBrother(c), r)
  {
    BrotherDistinct(c, r);
    var inner := RedBrother(c);
    assert CtxDistinct(inner.up);
    assert CtxNodes(inner.up) == CtxNodes(c.up) + {c.sibling.node} + Nodes(Sub(c.sibling, Other(c.side)));
  }

  /** OuterTurn before the outer child is painted black. */
  ghost function Turned(c: Ctx, r: T): T
    requires c.In? && c.sibling.B?
  {
    var q, s := c.sibling, c.side;
    Make(s, q.node, c.red, Make(s, c.node, false, r, c.key, Sub(q, s)), q.key, Sub(q, Other(s)))
  }

  lemma TurnedDistinct(c: Ctx, r: T)
    requires c.In? && c.sibling.B? && ZipDistinct(c, r)
    ensures ZipDistinct(c.up, Turned(c, r))
  {
    BrotherDistinct(c, r);
    var q, s := c.sibling, c.side;
    MakeDistinct(s, c.node, false, r, c.key, Sub(q, s));
    MakeDistinct(s, q.node, c.red, Make(s, c.node, false, r, c.key, Sub(q, s)), q.key, Sub(q, Other(s)));
  }

  lemma InnerTurnDistinct(c: Ctx, r: T)
    requires c.In? && c.sibling.B? && Sub(c.sibling, c.side).B? && ZipDistinct(c, r)
    ensures ZipDistinct(c.up, InnerTurn(c, r))
  {
    BrotherDistinct(c, r);
    var q, s := c.sibling, c.side;
    var q2, outer := Sub(q, s), Sub(q, Other(s));
    SubDistinct(q2, s);
    var x, y := Sub(q2, s), Sub(q2, Other(s));
    MakeDistinct(s, c.node, false, r, c.key, x);
    MakeDistinct(s, q.node, false, y, q.key, outer);
    Apart(Nodes(r), c.node, Nodes(x), Nodes(y), q.node, Nodes(outer), q2.node, CtxNodes(c.up));
    MakeDistinct(s, q2.node, c.red, Make(s, c.node, false, r, c.key, x), q2.key,
        Make(s, q.node, false, y, q.key, outer));
  }

  // ------------------------------------------------------------------------
  // What survives the writes
  // ------------------------------------------------------------------------

  /** Storing a new top and rewriting some nodes leaves r, the surroundings of p and the subtrees of q alone. */
  lemma KeepBrother(h: map<Node, Cell>, h1: map<Node, Cell>, h2: map<Node, Cell>, root: Node?, root': Node?, c: Ctx,
                    r: T, top: Node, written: set<Node>)
    requires c.In? && c.sibling.B? && ZipHolds(h, root, c, r) && Stored(h, root, h1, root', c.up, top)
    requires Outside(h1, h2, written)
    requires written !! CtxNodes(c.up) && written !! Nodes(r)
    ensures CtxHolds(h2, root', c.up, top) && Holds(h2, r)
    ensures forall t :: (t == Sub(c.sibling, c.side) || t == Sub(c.sibling, Other(c.side))) && written !! Nodes(t) ==>
              Holds(h2, t)
  {
    BrotherDistinct(c, r);
    StoreHolds(h, root, h1, root', c.up, c.node, top);
    CtxFrame(h1, h2, root', c.up, top);
    StoredOutside(h, root, h1, root', c.up, top);
    KeepTree(h, h1, h2, CtxNodes(c.up), written, r);
    var a, b := Sub(c.sibling, c.side), Sub(c.sibling, Other(c.side));
    assert Holds(h, a) && Holds(h, b);
    if written !! Nodes(a) {
      KeepTree(h, h1, h2, CtxNodes(c.up), written, a);
    }
    if written !! Nodes(b) {
      KeepTree(h, h1, h2, CtxNodes(c.up), written, b);
    }
  }

  lemma AssembleRedBrother(h: map<Node, Cell>, h1: map<Node, Cell>, h2: map<Node, Cell>, root: Node?, root': Node?,
                           c: Ctx, r: T)
    requires c.In? && c.sibling.B? && ZipHolds(h, root, c, r) && Stored(h, root, h1, root', c.up, c.sibling.node)
    requires Outside(h1, h2, {c.node, c.sibling.node})
    requires Has(h2, c.node, MakeCell(c.side, c.key, true, Root(r), Root(Sub(c.sibling, c.side))))
    requires Has(h2, c.sibling.node, MakeCell(c.side, c.sibling.key, false, c.node,
               Root(Sub(c.sibling, Other(c.side)))))
    ensures ZipHolds(h2, root', RedBrother(c), r)
  {
    BrotherDistinct(c, r);
    RedBrotherDistinct(c, r);
    KeepBrother(h, h1, h2, root, root', c, r, c.sibling.node, {c.node, c.sibling.node});
    assert CtxHolds(h2, root', RedBrother(c).up, c.node);
  }

  lemma AssembleOuter(h: map<Node, Cell>, h1: map<Node, Cell>, h2: map<Node, Cell>, root: Node?, root': Node?, c: Ctx,
                      r: T)
    requires c.In? && c.sibling.B? && ZipHolds(h, root, c, r) && Stored(h, root, h1, root', c.up, c.sibling.node)
    requires Outside(h1, h2, {c.node, c.sibling.node})
    requires Has(h2, c.node, MakeCell(c.side, c.key, false, Root(r), Root(Sub(c.sibling, c.side))))
    requires Has(h2, c.sibling.node, MakeCell(c.side, c.sibling.key, c.red, c.node,
               Root(Sub(c.sibling, Other(c.side)))))
    ensures ZipHolds(h2, root', c.up, Turned(c, r))
  {
    BrotherDistinct(c, r);
    TurnedDistinct(c, r);
    KeepBrother(h, h1, h2, root, root', c, r, c.sibling.node, {c.node, c.sibling.node});
  }

  /** Painting a child black. */
  lemma BlackenChild(h: map<Node, Cell>, h2: map<Node, Cell>, root: Node?, c: Ctx, t: T, s: Side)
    requires t.B? && Sub(t, s).B? && ZipHolds(h, root, c, t) && Outside(h, h2, {Sub(t, s).node})
    requires Has(h2, Sub(t, s).node, CellOf(Sub(t, s), false))
    ensures ZipHolds(h2, root, c, Make(s, t.node, t.red, Blackened(Sub(t, s)), t.key, Sub(t, Other(s))))
  {
    var child := Sub(t, s);
    SubDistinct(t, s);
    assert child.node in Nodes(child) && child.node in Nodes(t);
    CtxFrame(h, h2, root, c, t.node);
    HoldsOutside(h, h2, {child.node}, Sub(t, Other(s)));
    BlackenedHolds(h, h2, {child.node}, child);
    BlackenedDistinct(child);
    MakeDistinct(s, t.node, t.red, Blackened(child), t.key, Sub(t, Other(s)));
  }

  lemma AssembleInner(h: map<Node, Cell>, h1: map<Node, Cell>, h2: map<Node, Cell>, root: Node?, root': Node?, c: Ctx,
                      r: T)
    requires c.In? && c.sibling.B? && Sub(c.sibling, c.side).B?
    requires ZipHolds(h, root, c, r) && Stored(h, root, h1, root', c.up, Sub(c.sibling, c.side).node)
    requires Outside(h1, h2, {c.node, c.sibling.node, Sub(c.sibling, c.side).node})
    requires var q2 := Sub(c.sibling, c.side);
             && Has(h2, c.node, MakeCell(c.side, c.key, false, Root(r), Root(Sub(q2, c.side))))
             && Has(h2, c.sibling.node, MakeCell(c.side, c.sibling.key, false, Root(Sub(q2, Other(c.side))),
                Root(Sub(c.sibling, Other(c.side)))))
             && Has(h2, q2.node, MakeCell(c.side, q2.key, c.red, c.node, c.sibling.node))
    ensures ZipHolds(h2, root', c.up, InnerTurn(c, r))
  {
    InnerTurnDistinct(c, r);
    var q2 := Sub(c.sibling, c.side);
    var written := {c.node, c.sibling.node, q2.node};
    InnerPieces(h, h1, h2, root, root', c, r, written);
    assert Holds(h2, Make(c.side, c.node, false, r, c.key, Sub(q2, c.side)));
    assert Holds(h2, Make(c.side, c.sibling.node, false, Sub(q2, Other(c.side)), c.sibling.key,
        Sub(c.sibling, Other(c.side))));
  }

  lemma InnerPieces(h: map<Node, Cell>, h1: map<Node, Cell>, h2: map<Node, Cell>, root: Node?, root': Node?, c: Ctx,
                    r: T, written: set<Node>)
    requires c.In? && c.sibling.B? && Sub(c.sibling, c.side).B?
    requires ZipHolds(h, root, c, r) && Stored(h, root, h1, root', c.up, Sub(c.sibling, c.side).node)
    requires Outside(h1, h2, written) && written == {c.node, c.sibling.node, Sub(c.sibling, c.side).node}
    ensures var q2 := Sub(c.sibling, c.side);
            && CtxHolds(h2, root', c.up, q2.node) && Holds(h2, r) && Holds(h2, Sub(c.sibling, Other(c.side)))
            && Holds(h2, Sub(q2, c.side)) && Holds(h2, Sub(q2, Other(c.side)))
  {
    var q2 := Sub(c.sibling, c.side);
    assert Holds(h, q2);
    BrotherDistinct(c, r);
    SubDistinct(q2, c.side);
    KeepBrother(h, h1, h2, root, root', c, r, q2.node, written);
    StoredOutside(h, root, h1, root', c.up, q2.node);
    KeepTree(h, h1, h2, CtxNodes(c.up), written, Sub(q2, c.side));
    KeepTree(h, h1, h2, CtxNodes(c.up), written, Sub(q2, Other(c.side)));
  }

  // ------------------------------------------------------------------------
  // The writes
  // ------------------------------------------------------------------------

  lemma BrotherHeld(tree: Tree, nodes: set<Node>, c: Ctx, r: T)
    requires Zip(tree, nodes, c, r) && c.In? && c.sibling.B?
    ensures CtxHolds(Snapshot(nodes), tree.root, c.up, SlotOf(tree, c.up).Read())
    ensures c.node in nodes && c.sibling.node in nodes
    ensures Has(Snapshot(nodes), c.node, MakeCell(c.side, c.key, c.red, Root(r), c.sibling.node))
    ensures var q, s := c.sibling, c.side;
            && Has(Snapshot(nodes), q.node, MakeCell(s, q.key, q.red, Root(Sub(q, s)), Root(Sub(q, Other(s)))))
            && (Sub(q, s).B? ==> Has(Snapshot(nodes), Sub(q, s).node, CellOf(Sub(q, s), Sub(q, s).red)))
            && (Sub(q, Other(s)).B? ==> Has(Snapshot(nodes), Sub(q, Other(s)).node,
               CellOf(Sub(q, Other(s)), Sub(q, Other(s)).red)))
  {
    var h := Snapshot(nodes);
    assert Holds(h, c.sibling.left) && Holds(h, c.sibling.right);
    SlotReads(tree, nodes, c.up, c.node);
  }

  /** Painting and relinking p and its red child q: a rotation of p to the side of r. */
  method TurnRedBrother(ghost nodes: set<Node>, p: Node, q: Node, s: Side)
    requires p in nodes && q in nodes && p != q
    modifies p, q
    ensures Outside(old(Snapshot(nodes)), Snapshot(nodes), {p, q})
    ensures Has(Snapshot(nodes), p, MakeCell(s, old(p.key), true, old(p.Child(s)), old(q.Child(s))))
    ensures Has(Snapshot(nodes), q, MakeCell(s, old(q.key), false, p, old(q.Child(Other(s)))))
  {
    q.red := false;
    p.red := true;
    if s == Left {
      p.right := q.left;
      q.left := p;
    } else {
      p.left := q.right;
      q.right := p;
    }
  }

  /** The red brother q of the focus r goes above their parent p. */
  method LiftRedBrother(tree: Tree, ghost nodes: set<Node>, ghost c: Ctx, ghost r: T, p: Node, q: Node, pp: Slot,
                        s: Side)
    requires c.In? && c.sibling.B? && Zip(tree, nodes, c, r)
    requires p == c.node && q == c.sibling.node && pp == SlotOf(tree, c.up) && s == c.side
    modifies tree`root, nodes
    ensures Zip(tree, nodes, RedBrother(c), r)
  {
    ghost var h, root := Snapshot(nodes), tree.root;
    BrotherDistinct(c, r);
    BrotherHeld(tree, nodes, c, r);
    Store(tree, nodes, c.up, pp, q);
    ghost var h1 := Snapshot(nodes);
    TurnRedBrother(nodes, p, q, s);
    AssembleRedBrother(h, h1, Snapshot(nodes), root, tree.root, c, r);
  }

  method TurnOuter(ghost nodes: set<Node>, p: Node, q: Node, s: Side)
    requires p in nodes && q in nodes && p != q
    modifies p, q
    ensures Outside(old(Snapshot(nodes)), Snapshot(nodes), {p, q})
    ensures Has(Snapshot(nodes), p, MakeCell(s, old(p.key), false, old(p.Child(s)), old(q.Child(s))))
    ensures Has(Snapshot(nodes), q, MakeCell(s, old(q.key), old(p.red), p, old(q.Child(Other(s)))))
  {
    q.red := p.red;
    p.red := false;
    if s == Left {
      p.right := q.left;
      q.left := p;
    } else {
      p.left := q.right;
      q.right := p;
    }
  }

  /** Q goes above p, and takes its colour. */
  method RotateDown(tree: Tree, ghost nodes: set<Node>, ghost c: Ctx, ghost r: T, p: Node, q: Node, pp: Slot, s: Side)
    requires c.In? && c.sibling.B? && Zip(tree, nodes, c, r)
    requires p == c.node && q == c.sibling.node && pp == SlotOf(tree, c.up) && s == c.side
    modifies tree`root, nodes
    ensures Zip(tree, nodes, c.up, Turned(c, r))
  {
    ghost var h, root := Snapshot(nodes), tree.root;
    BrotherDistinct(c, r);
    BrotherHeld(tree, nodes, c, r);
    Store(tree, nodes, c.up, pp, q);
    ghost var h1 := Snapshot(nodes);
    TurnOuter(nodes, p, q, s);
    AssembleOuter(h, h1, Snapshot(nodes), root, tree.root, c, r);
  }

  method PaintOuter(tree: Tree, ghost nodes: set<Node>, ghost c: Ctx, ghost r: T, outer: Node)
    requires c.In? && c.sibling.B? && Sub(c.sibling, Other(c.side)).B? && outer == Sub(c.sibling, Other(c.side)).node
    requires Zip(tree, nodes, c.up, Turned(c, r))
    modifies nodes
    ensures Zip(tree, nodes, c.up, OuterTurn(c, r))
  {
    ghost var h, t := Snapshot(nodes), Turned(c, r);
    SubNodesHeld(h, t);
    outer.red := false;
    BlackenChild(h, Snapshot(nodes), tree.root, c.up, t, Other(c.side));
  }

  /** The outer child of q is red: p is rotated down, and the outer child painted black. */
  method RotateOuter(tree: Tree, ghost nodes: set<Node>, ghost c: Ctx, ghost r: T, p: Node, q: Node, outer: Node,
                     pp: Slot, s: Side)
    requires c.In? && c.sibling.B? && Sub(c.sibling, Other(c.side)).B? && Zip(tree, nodes, c, r)
    requires p == c.node && q == c.sibling.node && outer == Sub(c.sibling, Other(c.side)).node
    requires pp == SlotOf(tree, c.up) && s == c.side
    modifies tree`root, nodes
    ensures Zip(tree, nodes, c.up, OuterTurn(c, r))
  {
    RotateDown(tree, nodes, c, r, p, q, pp, s);
    PaintOuter(tree, nodes, c, r, outer);
  }

  method TurnInner(ghost nodes: set<Node>, p: Node, q: Node, q2: Node, s: Side)
    requires p in nodes && q in nodes && q2 in nodes && p != q && p != q2 && q != q2
    modifies p, q, q2
    ensures Outside(old(Snapshot(nodes)), Snapshot(nodes), {p, q, q2})
    ensures Has(Snapshot(nodes), p, MakeCell(s, old(p.key), false, old(p.Child(s)), old(q2.Child(s))))
    ensures Has(Snapshot(nodes), q, MakeCell(s, old(q.key), old(q.red), old(q2.Child(Other(s))),
              old(q.Child(Other(s)))))
    ensures Has(Snapshot(nodes), q2, MakeCell(s, old(q2.key), old(p.red), p, q))
  {
    q2.red := p.red;
    if s == Left {
      p.right := q2.left;
      q.left := q2.right;
      q2.right := q;
      q2.left := p;
    } else {
      p.left := q2.right;
      q.right := q2.left;
      q2.left := q;
      q2.right := p;
    }
    p.red := false;
  }

  /** The inner child q2 of q is red: it is rotated to the top of the subtree. */
  method RotateInner(tree: Tree, ghost nodes: set<Node>, ghost c: Ctx, ghost r: T, p: Node, q: Node, q2: Node, pp: Slot,
                     s: Side)
    requires c.In? && c.sibling.B? && Black(c.sibling) && Sub(c.sibling, c.side).B? && Zip(tree, nodes, c, r)
    requires p == c.node && q == c.sibling.node && q2 == Sub(c.sibling, c.side).node && pp == SlotOf(tree, c.up)
               && s == c.side
    modifies tree`root, nodes
    ensures Zip(tree, nodes, c.up, InnerTurn(c, r))
  {
    ghost var h, root, inner := Snapshot(nodes), tree.root, Sub(c.sibling, c.side);
    BrotherDistinct(c, r);
    BrotherHeld(tree, nodes, c, r);
    assert inner.node in Nodes(inner);
    Store(tree, nodes, c.up, pp, q2);
    ghost var h1 := Snapshot(nodes);
    TurnInner(nodes, p, q, q2, s);
    AssembleInner(h, h1, Snapshot(nodes), root, tree.root, c, r);
  }

  /** q is painted red, and the focus moves up to the parent. */
  method ReddenBrother(tree: Tree, ghost nodes: set<Node>, ghost c: Ctx, ghost r: T, q: Node)
    requires c.In? && c.sibling.B? && Zip(tree, nodes, c, r) && q == c.sibling.node
    modifies nodes
    ensures Zip(tree, nodes, c.up, BrotherReddened(c, r))
  {
    ghost var h, root := Snapshot(nodes), tree.root;
    BrotherDistinct(c, r);
    BrotherHeld(tree, nodes, c, r);
    q.red := true;
    AssembleReddened(h, Snapshot(nodes), root, c, r);
  }

  lemma AssembleReddened(h: map<Node, Cell>, h1: map<Node, Cell>, root: Node?, c: Ctx, r: T)
    requires c.In? && c.sibling.B? && ZipHolds(h, root, c, r) && Outside(h, h1, {c.sibling.node})
    requires Has(h1, c.sibling.node, CellOf(c.sibling, true))
    ensures ZipHolds(h1, root, c.up, BrotherReddened(c, r))
  {
    BrotherDistinct(c, r);
    CtxFrame(h, h1, root, c.up, c.node);
    HoldsOutside(h, h1, {c.sibling.node}, r);
    ReddenedHolds(h, h1, c.sibling);
    ReddenedDistinct(c, r);
  }

  lemma ReddenedHolds(h: map<Node, Cell>, h1: map<Node, Cell>, q: T)
    requires q.B? && Holds(h, q) && Distinct(q) && Outside(h, h1, {q.node}) && Has(h1, q.node, CellOf(q, true))
    ensures Holds(h1, q.(red := true))
  {
    HoldsOutside(h, h1, {q.node}, q.left);
    HoldsOutside(h, h1, {q.node}, q.right);
  }

  lemma ReddenedDistinct(c: Ctx, r: T)
    requires c.In? && c.sibling.B? && ZipDistinct(c, r)
    ensures ZipDistinct(c.up, BrotherReddened(c, r))
  {
    var q := c.sibling.(red := true);
    assert Nodes(q) == Nodes(c.sibling) && Distinct(q);
    MakeDistinct(c.side, c.node, c.red, r, c.key, q);
  }
}
