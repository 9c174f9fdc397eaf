/** The loop that repairs the black heights after a deletion, driven by the stack of slots. */
module TreeFixup {
  import opened TreeShape
  import opened TreeHeap
  import opened TreeRotate
  import opened TreeSplit
  import opened TreeInsert
  import opened TreeHeight
  import opened TreeRepair
  import opened TreeTurn

  /** The stack holds the slots of all nodes above the focus, the root first. */
  ghost predicate StackIs(s: seq<Slot>, tree: Tree, c: Ctx) {
    match c
    case Top => s == []
    case In(_, _, _, _, _, up) => s != [] && s[|s| - 1] == SlotOf(tree, up) && StackIs(s[..|s| - 1], tree, up)
  }

  lemma {:induction false} StackDepth(s: seq<Slot>, tree: Tree, c: Ctx)
    requires StackIs(s, tree, c)
    ensures |s| == Depth(c)
  {
    if c.In? {
      StackDepth(s[..|s| - 1], tree, c.up);
    }
  }

  lemma StackPush(s: seq<Slot>, s': seq<Slot>, tree: Tree, c: Ctx)
    requires c.In? && StackIs(s, tree, c.up) && s' == s + [SlotOf(tree, c.up)]
    ensures StackIs(s', tree, c)
  {
    assert s'[..|s'| - 1] == s;
  }

  lemma StackPop(a: seq<Slot>, tree: Tree, c: Ctx, sp: nat)
    requires 0 < sp <= |a| && StackIs(a[..sp], tree, c)
    ensures c.In?
    ensures a[sp - 1] == SlotOf(tree, c.up) && StackIs(a[..sp - 1], tree, c.up)
  {
    assert a[..sp][..sp - 1] == a[..sp - 1];
  }

  /** A black node has gone: the subtree of r has one black edge less than the others. */
  ghost predicate Missing(tree: Tree, nodes: set<Node>, c: Ctx, t: T, h: nat, keys: seq<int>)
    reads tree`root, nodes
  {
    Zip(tree, nodes, c, t) && Deficient(c, t, h) && Before(c) + Keys(t) + After(c) == keys
  }

  /** The local variables p, q and pp: R's parent, R's brother and the slot of the parent. */
  ghost predicate Family(tree: Tree, c: Ctx, p: Node, q: Node?, pp: Slot, s: Side) {
    && c.In? && c.sibling.B?
    && p == c.node && q == c.sibling.node && pp == SlotOf(tree, c.up) && s == c.side
  }

  lemma FamilyHere(tree: Tree, nodes: set<Node>, c: Ctx, t: T, h: nat, keys: seq<int>, p: Node)
    requires Missing(tree, nodes, c, t, h, keys) && c.In? && p == c.node
    ensures c.sibling.B?
    ensures SlotOf(tree, c.up).Read() == p
    ensures Root(t) == p.left <==> c.side == Left
    ensures p.Child(Other(c.side)) == c.sibling.node && p.red == c.red
    ensures c.sibling.node in nodes && c.sibling.node.red == c.sibling.red
  {
    BrotherExists(c, t, h);
    BrotherHeld(tree, nodes, c, t);
    SlotReads(tree, nodes, c.up, p);
    if t.B? {
      assert t.node in Nodes(t) && c.sibling.node in Nodes(c.sibling) && Nodes(c.sibling) <= CtxNodes(c);
    }
  }

  /** A red brother is rotated to the top, so that r gets a black one. */
  method RaiseRedBrother(tree: Tree, ghost nodes: set<Node>, ghost c: Ctx, ghost t: T, ghost h: nat,
                         ghost keys: seq<int>, p: Node, q: Node, pp: Slot, s: Side)
    returns (q': Node, pp': Slot)
    requires Missing(tree, nodes, c, t, h, keys) && Family(tree, c, p, q, pp, s) && c.sibling.red
    modifies tree`root, nodes
    ensures Missing(tree, nodes, RedBrother(c), t, h, keys) && Black(RedBrother(c).sibling)
    ensures Family(tree, RedBrother(c), p, q', pp', s)
  {
    RedBrotherDeficient(c, t, h);
    RedBrotherKeys(c);
    LiftRedBrother(tree, nodes, c, t, p, q, pp, s);
    FamilyHere(tree, nodes, RedBrother(c), t, h, keys, p);
    pp' := ChildSlot(q, s);
    q' := p.Child(Other(s));
  }

  /** The colour tests on the successors of a black brother q. */
  lemma BrotherColours(tree: Tree, nodes: set<Node>, c: Ctx, t: T, q: Node)
    requires Zip(tree, nodes, c, t) && c.In? && c.sibling.B? && q == c.sibling.node
    ensures forall s :: q.Child(s) == Root(Sub(c.sibling, s))
    ensures forall s :: Black(Sub(c.sibling, s)) <==> q.Child(s) == null || !q.Child(s).red
  {
    BrotherHeld(tree, nodes, c, t);
    forall s: Side
      ensures q.Child(s) == Root(Sub(c.sibling, s))
      ensures Black(Sub(c.sibling, s)) <==> q.Child(s) == null || !q.Child(s).red
    {
      if s == c.side {
      } else {
        assert s == Other(c.side);
      }
    }
  }

  predicate IsBlack(n: Node?)
    reads n
  {
    n == null || !n.red
  }

  /** The last operation, when the brother has a red child: afterwards the tree is repaired. */
  method RepairOnce(tree: Tree, ghost nodes: set<Node>, ghost c: Ctx, ghost t: T, ghost h: nat, ghost keys: seq<int>,
                    p: Node, q: Node, pp: Slot, s: Side)
    returns (ghost t': T)
    requires Missing(tree, nodes, c, t, h, keys) && Family(tree, c, p, q, pp, s) && Black(c.sibling) && Black(t)
    requires !Black(c.sibling.left) || !Black(c.sibling.right)
    modifies tree`root, nodes
    ensures Described(tree, nodes, c.up, t', keys)
  {
    BrotherColours(tree, nodes, c, t, q);
    UpKeys(c, t);
    if IsBlack(q.Child(Other(s))) {
      t' := InnerTurn(c, t);
      InnerTurnKeys(c, t);
      InnerTurnRedBlack(c, t, h);
      RotateInner(tree, nodes, c, t, p, q, q.Child(s), pp, s);
    } else {
      t' := OuterTurn(c, t);
      OuterTurnKeys(c, t);
      OuterTurnRedBlack(c, t, h);
      RotateOuter(tree, nodes, c, t, p, q, q.Child(Other(s)), pp, s);
    }
  }

  /** The brother has no red child: it is painted red, and the parent becomes the focus. */
  method PassUp(tree: Tree, ghost nodes: set<Node>, ghost c: Ctx, ghost t: T, ghost h: nat, ghost keys: seq<int>,
                q: Node)
    requires Missing(tree, nodes, c, t, h, keys) && c.In? && c.sibling.B? && q == c.sibling.node
    requires Black(c.sibling) && Black(t) && Black(c.sibling.left) && Black(c.sibling.right)
    modifies nodes
    ensures Missing(tree, nodes, c.up, BrotherReddened(c, t), if c.red then h else h + 1, keys)
  {
    BrotherReddenedDeficient(c, t, h);
    BrotherReddenedKeys(c, t);
    ReddenBrother(tree, nodes, c, t, q);
  }

  /** The state of the fix-up loop: either a black edge is still missing above r, or all is done. */
  ghost predicate Fixing(tree: Tree, nodes: set<Node>, c: Ctx, t: T, h: nat, keys: seq<int>, r: Node?, stack: seq<Slot>,
                         done: bool)
    reads tree`root, nodes
  {
    if done then
      Described(tree, nodes, c, t, keys) && r == null && stack == []
    else
      Missing(tree, nodes, c, t, h, keys) && r == Root(t) && StackIs(stack, tree, c)
  }

  /** Makes sure that R's brother is black. The slot of P after a rotation goes on the stack. */
  method MakeBrotherBlack(tree: Tree, ghost nodes: set<Node>, ghost c: Ctx, ghost t: T, ghost h: nat,
                          ghost keys: seq<int>, nodestack: array<Slot>, sp: nat, p: Node, q: Node, pp: Slot, s: Side)
    returns (q': Node, pp': Slot, sp': nat, ghost c': Ctx)
    requires nodestack.Length == 100 && sp < 100
    requires Missing(tree, nodes, c, t, h, keys) && Family(tree, c, p, q, pp, s) && StackIs(nodestack[..sp], tree, c)
    modifies tree`root, nodes, nodestack
    ensures Missing(tree, nodes, c', t, h, keys) && Family(tree, c', p, q', pp', s) && Black(c'.sibling)
    ensures sp' <= nodestack.Length && StackIs(nodestack[..sp'], tree, c')
    ensures sp' == sp || (sp' == sp + 1 && c'.red)
  {
    q', pp', sp', c' := q, pp, sp, c;
    FamilyHere(tree, nodes, c, t, h, keys, p);
    if q.red {
      ghost var stack := nodestack[..sp];
      q', pp' := RaiseRedBrother(tree, nodes, c, t, h, keys, p, q, pp, s);
      nodestack[sp] := pp';
      sp', c' := sp + 1, RedBrother(c);
      PushedTwice(stack, nodestack[..sp + 1], tree, c);
    }
  }

  /** The slot of Q takes the place of the slot of P, which moves one level down. */
  lemma PushedTwice(s: seq<Slot>, s': seq<Slot>, tree: Tree, c: Ctx)
    requires c.In? && c.sibling.B? && StackIs(s, tree, c) && s' == s + [SlotOf(tree, RedBrother(c).up)]
    ensures StackIs(s', tree, RedBrother(c))
  {
    var c1 := RedBrother(c).up;
    assert c1.up == c.up;
    StackPush(s[..|s| - 1], s, tree, c1);
    StackPush(s, s', tree, RedBrother(c));
  }

  /** The stack holds the slots of all ancestors of r: the slot on top holds the parent. */
  method ParentOnStack(tree: Tree, ghost nodes: set<Node>, ghost c: Ctx, ghost t: T, ghost h: nat, ghost keys: seq<int>,
                       nodestack: array<Slot>, sp: nat)
    returns (pp: Slot, p: Node)
    requires 0 < sp <= nodestack.Length && Missing(tree, nodes, c, t, h, keys) && StackIs(nodestack[..sp], tree, c)
    ensures c.In? && pp == SlotOf(tree, c.up) && p == c.node
  {
    StackPop(nodestack[..], tree, c, sp);
    pp := nodestack[sp - 1];
    SlotReads(tree, nodes, c.up, c.node);
    p := pp.Read();
  }

  /** The second half of an iteration, with a black brother. */
  method UseBlackBrother(tree: Tree, ghost nodes: set<Node>, ghost c: Ctx, ghost t: T, ghost h: nat,
                         ghost keys: seq<int>, nodestack: array<Slot>, sp: nat, p: Node, q: Node, pp: Slot, s: Side)
    returns (r': Node?, sp': nat, ghost t': T, ghost h': nat, ghost done: bool)
    requires 0 < sp <= nodestack.Length && StackIs(nodestack[..sp], tree, c)
    requires Missing(tree, nodes, c, t, h, keys) && Family(tree, c, p, q, pp, s) && Black(c.sibling) && Black(t)
    modifies tree`root, nodes
    ensures sp' < sp && Fixing(tree, nodes, c.up, t', h', keys, r', nodestack[..sp'], done)
    ensures !done ==> r' != null && (c.red ==> r'.red)
    ensures done ==> sp' == 0
  {
    BrotherColours(tree, nodes, c, t, q);
    if IsBlack(q.Child(s)) && IsBlack(q.Child(Other(s))) {
      StackPop(nodestack[..], tree, c, sp);
      PassUp(tree, nodes, c, t, h, keys, q);
      r', sp', t', h', done := p, sp, BrotherReddened(c, t), if c.red then h else h + 1, false;
    } else {
      t' := RepairOnce(tree, nodes, c, t, h, keys, p, q, pp, s);
      r', sp', h', done := null, 1, h, true;
    }
    sp' := sp' - 1;
  }

  /** One iteration of the fix-up loop. */
  method FixStep(tree: Tree, ghost nodes: set<Node>, ghost c: Ctx, ghost t: T, ghost h: nat, ghost keys: seq<int>,
                 r: Node?, nodestack: array<Slot>, sp: nat)
    returns (r': Node?, sp': nat, ghost c': Ctx, ghost t': T, ghost h': nat, ghost done: bool)
    requires nodestack.Length == 100 && 0 < sp < 100
    requires Fixing(tree, nodes, c, t, h, keys, r, nodestack[..sp], false) && IsBlack(r)
    modifies tree`root, nodes, nodestack
    ensures sp' <= sp && Fixing(tree, nodes, c', t', h', keys, r', nodestack[..sp'], done)
    ensures sp' == sp ==> !IsBlack(r')
  {
    var pp, p := ParentOnStack(tree, nodes, c, t, h, keys, nodestack, sp);
    FamilyHere(tree, nodes, c, t, h, keys, p);
    var s := if r == p.left then Left else Right;
    var q := p.Child(Other(s));
    q, pp, sp', c' := MakeBrotherBlack(tree, nodes, c, t, h, keys, nodestack, sp, p, q, pp, s);
    r', sp', t', h', done := UseBlackBrother(tree, nodes, c', t, h, keys, nodestack, sp', p, q, pp, s);
    c' := c'.up;
  }

  /** Paints the last r black, if there is one. */
  method BlackenFocus(tree: Tree, ghost nodes: set<Node>, ghost c: Ctx, ghost t: T, ghost h: nat, ghost keys: seq<int>,
                      r: Node?, ghost stack: seq<Slot>, ghost done: bool)
    returns (ghost t': T)
    requires Fixing(tree, nodes, c, t, h, keys, r, stack, done) && (stack == [] || !IsBlack(r))
    modifies nodes
    ensures Described(tree, nodes, c, t', keys)
  {
    t' := t;
    if r != null {
      t' := Blackened(t);
      ghost var heap := Snapshot(nodes);
      assert r in Nodes(t);
      r.red := false;
      PaintedBlack(heap, Snapshot(nodes), tree.root, c, t, h, keys);
    } else if !done {
      ghost var h' := BlackenedRepairs(c, t, h);
    }
  }

  lemma PaintedBlack(heap: map<Node, Cell>, heap': map<Node, Cell>, root: Node?, c: Ctx, t: T, h: nat, keys: seq<int>)
    requires ZipHolds(heap, root, c, t) && Deficient(c, t, h) && Before(c) + Keys(t) + After(c) == keys
    requires t.B? && (c.In? ==> t.red)
    requires Outside(heap, heap', {t.node}) && Has(heap', t.node, CellOf(t, false))
    ensures ZipHolds(heap', root, c, Blackened(t)) && Before(c) + Keys(Blackened(t)) + After(c) == keys
    ensures exists h': nat :: ZipRedBlack(c, Blackened(t), h')
  {
    BlackenedKeys(t);
    CtxFrame(heap, heap', root, c, t.node);
    BlackenedHolds(heap, heap', {t.node}, t);
    BlackenedDistinct(t);
    var h' := BlackenedRepairs(c, t, h);
  }

  /** The whole repair: the loop, and the colour of the last r. */
  method Fixup(tree: Tree, ghost nodes: set<Node>, ghost c0: Ctx, ghost t0: T, ghost h0: nat, ghost keys: seq<int>,
               r0: Node?, nodestack: array<Slot>, sp0: nat)
    returns (ghost c: Ctx, ghost t: T)
    requires nodestack.Length == 100 && sp0 < 100
    requires Fixing(tree, nodes, c0, t0, h0, keys, r0, nodestack[..sp0], false)
    modifies tree`root, nodes, nodestack
    ensures Described(tree, nodes, c, t, keys)
  {
    c, t := c0, t0;
    ghost var h, done := h0, false;
    var r, sp := r0, sp0;
    while sp > 0 && IsBlack(r)
      invariant 0 <= sp < 100 && Fixing(tree, nodes, c, t, h, keys, r, nodestack[..sp], done)
      decreases if sp > 0 && IsBlack(r) then sp else 0
    {
      assert nodestack[..sp] != [];
      r, sp, c, t, h, done := FixStep(tree, nodes, c, t, h, keys, r, nodestack, sp);
    }
    t := BlackenFocus(tree, nodes, c, t, h, keys, r, nodestack[..sp], done);
  }
}
