/** The split of a node with two red successors, with the rotation it may need. */
module TreeSplit {
  import opened TreeShape
  import opened TreeHeap
  import opened TreeRotate

  /** A slot pointer that may be NULL. */
  datatype SlotPtr = Null | Ptr(slot: Slot)

  /** The sign of a three-way comparison as the way taken in the tree. */
  function Way(r: int): Side {
    if r < 0 then Left else Right
  }

  /** Dereferences a slot pointer. The ghost flag is the caller's claim that the pointer is not stale. */
  method Follow(p: SlotPtr, ghost valid: bool) returns (n: Node?)
    requires valid && p.Ptr?
    ensures n == p.slot.Read()
  {
    n := p.slot.Read();
  }

  ghost predicate BothRed(t: T) {
    t.B? && !Black(t.left) && !Black(t.right)
  }

  /** A black node without red children: nothing will happen here. */
  ghost predicate Quiet(t: T) {
    Black(t) && (t.B? ==> Black(t.left) && Black(t.right))
  }

  ghost function Blackened(t: T): T {
    if t.B? then t.(red := false) else t
  }

  /** t with a red root and black successors. */
  ghost function Recoloured(t: T): T
    requires t.B?
  {
    B(t.node, true, Blackened(t.left), t.key, Blackened(t.right))
  }

  /** What a call of maybe_split_for_insert did. */
  datatype Outcome = Kept | Split | Single | Double

  /** The surroundings of the subtree that ends up on top. */
  ghost function CtxAfter(c: Ctx, o: Outcome): Ctx
    requires o.Single? || o.Double? ==> TwoAbove(c)
  {
    match o
    case Kept => c
    case Split => c
    case Single => RotatedCtx(c)
    case Double => c.up.up
  }

  /** The subtree that ends up on top. */
  ghost function TreeAfter(c: Ctx, t: T, o: Outcome): T
    requires t.B?
    requires o.Double? ==> TwoAbove(c)
  {
    match o
    case Kept => t
    case Split => Recoloured(t)
    case Single => Recoloured(t)
    case Double => RotatedTree(c, Recoloured(t))
  }

  ghost predicate ParentRed(c: Ctx) {
    c.In? && c.red
  }

  ghost predicate OutcomeIs(c: Ctx, t: T, mode: int, o: Outcome) {
    && t.B?
    && (o.Kept? <==> mode != 1 && !BothRed(t))
    && (o.Split? ==> !ParentRed(c))
    && (o.Single? ==> TwoAbove(c) && c.side == c.up.side)
    && (o.Double? ==> TwoAbove(c) && c.side != c.up.side)
  }

  // ------------------------------------------------------------------------
  // Recolouring
  // ------------------------------------------------------------------------

  lemma BlackenedDistinct(t: T)
    requires Distinct(t)
    ensures Distinct(Blackened(t)) && Nodes(Blackened(t)) == Nodes(t)
  {
  }

  lemma RecolouredDistinct(c: Ctx, t: T)
    requires t.B? && ZipDistinct(c, t)
    ensures ZipDistinct(c, Recoloured(t))
  {
    BlackenedDistinct(t.left);
    BlackenedDistinct(t.right);
  }

  lemma RecolouredKeys(t: T)
    requires t.B?
    ensures Keys(Recoloured(t)) == Keys(t)
  {
    assert Keys(Blackened(t.left)) == Keys(t.left) && Keys(Blackened(t.right)) == Keys(t.right);
  }

  /** Splitting keeps the black height and all colour rules inside the subtree. */
  lemma RecolouredRedBlack(t: T, h: nat)
    requires Balanced(t, h) && NoRedRed(t)
    requires BothRed(t) || (t.B? && t.red && t.left.E? && t.right.E?)
    ensures Balanced(Recoloured(t), h) && NoRedRed(Recoloured(t))
    ensures t.left.B? ==> Quiet(Blackened(t.left))
    ensures t.right.B? ==> Quiet(Blackened(t.right))
  {
    if BothRed(t) {
      assert h > 0;
      assert Balanced(t.left, h - 1) && Balanced(t.right, h - 1);
      assert Balanced(Blackened(t.left), h) && Balanced(Blackened(t.right), h);
    }
  }

  /** The contents of the root node of t, painted as given. */
  ghost function CellOf(t: T, red: bool): Cell
    requires t.B?
  {
    Cell(t.key, red, Root(t.left), Root(t.right))
  }

  lemma BlackenedHolds(h: map<Node, Cell>, h2: map<Node, Cell>, written: set<Node>, t: T)
    requires Holds(h, t) && Outside(h, h2, written)
    requires t.B? ==> written * Nodes(t) <= {t.node} && Distinct(t)
    requires t.B? ==> Has(h2, t.node, CellOf(t, false))
    ensures Holds(h2, Blackened(t))
  {
    if t.B? {
      HoldsOutside(h, h2, written, t.left);
      HoldsOutside(h, h2, written, t.right);
    }
  }

  lemma AssembleRecoloured(h: map<Node, Cell>, h2: map<Node, Cell>, root: Node?, c: Ctx, t: T, written: set<Node>)
    requires t.B? && ZipHolds(h, root, c, t) && Outside(h, h2, written)
    requires written == {t.node} + (if t.left.B? then {t.left.node} else {})
               + (if t.right.B? then {t.right.node} else {})
    requires Has(h2, t.node, CellOf(t, true))
    requires t.left.B? ==> Has(h2, t.left.node, CellOf(t.left, false))
    requires t.right.B? ==> Has(h2, t.right.node, CellOf(t.right, false))
    ensures ZipHolds(h2, root, c, Recoloured(t))
  {
    RecolouredDistinct(c, t);
    assert written <= Nodes(t);
    CtxFrame(h, h2, root, c, t.node);
    BlackenedHolds(h, h2, written, t.left);
    BlackenedHolds(h, h2, written, t.right);
  }

  lemma SubNodesHeld(h: map<Node, Cell>, t: T)
    requires t.B? && Holds(h, t) && Distinct(t)
    ensures t.node in h
    ensures t.left.B? ==> t.left.node in h && t.left.node != t.node
    ensures t.right.B? ==> t.right.node in h && t.right.node != t.node
    ensures t.left.B? && t.right.B? ==> t.left.node != t.right.node
    ensures h[t.node] == CellOf(t, t.red)
    ensures t.left.B? ==> h[t.left.node] == CellOf(t.left, t.left.red)
    ensures t.right.B? ==> h[t.right.node] == CellOf(t.right, t.right.red)
  {
    if t.left.B? { assert t.left.node in Nodes(t.left); }
    if t.right.B? { assert t.right.node in Nodes(t.right); }
  }

  /** The colours of the node and its children are exchanged. */
  method Recolour(tree: Tree, ghost nodes: set<Node>, ghost c: Ctx, ghost t: T, root: Node)
    requires t.B? && root == t.node && Zip(tree, nodes, c, t)
    modifies nodes
    ensures Zip(tree, nodes, c, Recoloured(t))
  {
    ghost var h := Snapshot(nodes);
    SubNodesHeld(h, t);
    var rp, lp := root.right, root.left;
    root.red := true;
    if rp != null {
      rp.red := false;
    }
    if lp != null {
      lp.red := false;
    }
    ghost var written := {t.node} + (if t.left.B? then {t.left.node} else {})
        + (if t.right.B? then {t.right.node} else {});
    AssembleRecoloured(h, Snapshot(nodes), tree.root, c, t, written);
  }

  // ------------------------------------------------------------------------
  // maybe_split_for_insert
  // ------------------------------------------------------------------------

  /** The colour rules hold, except that in mode 1 the new red leaf t may lie below a red parent. */
  ghost predicate SplitReady(c: Ctx, t: T, h: nat, mode: int) {
    && t.B? && Balanced(t, h) && NoRedRed(t)
    && CtxBalanced(c, h)
    && (mode == 1 ==> t.red && t.left.E? && t.right.E? && CtxNoRedRed(c, false))
    && (mode != 1 ==> CtxNoRedRed(c, !Black(t)))
  }

  /** The slots of the parent and of the grandparent. */
  ghost function ParentSlot(tree: Tree, c: Ctx): SlotPtr {
    if c.Top? then Null else Ptr(SlotOf(tree, c.up))
  }

  ghost function GrandSlot(tree: Tree, c: Ctx): SlotPtr {
    if c.Top? then Null else ParentSlot(tree, c.up)
  }

  /** The rotation is possible: the grandparent exists and its other child is black. */
  ghost predicate RotationReady(c: Ctx) {
    TwoAbove(c) && Black(c.up.sibling)
  }

  lemma SplitRedBlack(c: Ctx, t: T, h: nat, mode: int, o: Outcome) returns (h': nat)
    requires SplitReady(c, t, h, mode) && OutcomeIs(c, t, mode, o)
    requires o.Single? || o.Double? ==> RotationReady(c)
    ensures ZipRedBlack(CtxAfter(c, o), TreeAfter(c, t, o), h')
  {
    h' := h;
    if !o.Kept? {
      RecolouredRedBlack(t, h);
      if BothRed(t) { assert Black(t); }
      var t1 := Recoloured(t);
      match o
      case Single => RotatedCtxRedBlack(c, t1, h);
      case Double =>
        RotatedTreeRedBlack(c, t1, h);
        h' := h + 1;
      case Split => CtxRedFocus(c);
    }
  }

  /** Below a black parent the focus may turn red. */
  lemma CtxRedFocus(c: Ctx)
    requires CtxNoRedRed(c, false) && !ParentRed(c)
    ensures CtxNoRedRed(c, true)
  {
  }

  lemma SplitKeys(c: Ctx, t: T, mode: int, o: Outcome)
    requires OutcomeIs(c, t, mode, o)
    ensures Before(CtxAfter(c, o)) + Keys(TreeAfter(c, t, o)) + After(CtxAfter(c, o)) == Before(c) + Keys(t) + After(c)
    ensures !o.Double? ==> Before(CtxAfter(c, o)) == Before(c) && After(CtxAfter(c, o)) == After(c)
  {
    RecolouredKeys(t);
    match o
    case Kept =>
    case Split =>
    case Single => RotatedCtxKeys(c);
    case Double => RotatedTreeKeys(c, Recoloured(t));
  }

  /** Rotates if the parent of the node that became red is red too. */
  method RepairIfNeeded(tree: Tree, ghost nodes: set<Node>, ghost c: Ctx, ghost t: T, root: Node, parentp: SlotPtr,
                        gparentp: SlotPtr, p_r: int, gp_r: int, ghost validG: bool)
    returns (ghost o: Outcome)
    requires t.B? && root == t.node && Zip(tree, nodes, c, t)
    requires parentp == ParentSlot(tree, c)
    requires validG ==> gparentp == GrandSlot(tree, c)
    requires c.In? ==> p_r != 0 && c.side == Way(p_r)
    requires validG && c.In? && c.up.In? ==> gp_r != 0 && c.up.side == Way(gp_r)
    requires ParentRed(c) ==> validG && RotationReady(c)
    modifies tree`root, nodes
    ensures !o.Kept?
    ensures o.Split? ==> !ParentRed(c) && Zip(tree, nodes, c, t)
    ensures o.Single? ==> RotationReady(c) && c.side == c.up.side && Zip(tree, nodes, RotatedCtx(c), t)
    ensures o.Double? ==> RotationReady(c) && c.side != c.up.side && Zip(tree, nodes, c.up.up, RotatedTree(c, t))
  {
    o := Split;
    if parentp != Null {
      ParentSlotHolds(tree, nodes, c, t);
      var p := Follow(parentp, true);
      if p.red {
        ParentSlotHolds(tree, nodes, c.up, Make(c.side, c.node, c.red, t, c.key, c.sibling));
        var gp := Follow(gparentp, validG);
        if (p_r > 0) != (gp_r > 0) {
          RotateDouble(tree, nodes, c, t, root, p, gp, gparentp.slot, p_r);
          o := Double;
        } else {
          RotateSingle(tree, nodes, c, t, p, gp, gparentp.slot, p_r);
          o := Single;
        }
      }
    }
  }

  lemma ParentSlotHolds(tree: Tree, nodes: set<Node>, c: Ctx, t: T)
    requires Zip(tree, nodes, c, t) && c.In?
    ensures ParentSlot(tree, c).slot.Read() == c.node
    ensures c.node in nodes && c.node.red == c.red
    ensures Zip(tree, nodes, c.up, Make(c.side, c.node, c.red, t, c.key, c.sibling))
  {
    SlotHolds(tree, nodes, c.up, Make(c.side, c.node, c.red, t, c.key, c.sibling));
  }

  /** Splits the node in slot rootp if both its successors are red (or mode is 1), and repairs two
      adjacent red edges. parentp and gparentp are dereferenced only when their ghost flags say that
      they still point to the slots of the parent and the grandparent. */
  method MaybeSplitForInsert(tree: Tree, ghost nodes: set<Node>, ghost c: Ctx, ghost t: T, ghost h: nat, rootp: Slot,
                             parentp: SlotPtr, gparentp: SlotPtr, p_r: int, gp_r: int, mode: int, ghost validP: bool,
                             ghost validG: bool)
    returns (ghost o: Outcome)
    requires Zip(tree, nodes, c, t) && SplitReady(c, t, h, mode)
    requires rootp == SlotOf(tree, c)
    requires validP ==> parentp == ParentSlot(tree, c)
    requires validG ==> gparentp == GrandSlot(tree, c)
    requires c.In? ==> p_r != 0 && c.side == Way(p_r)
    requires validG && c.In? && c.up.In? ==> gp_r != 0 && c.up.side == Way(gp_r)
    requires mode == 1 || BothRed(t) ==> validP
    requires (mode == 1 || BothRed(t)) && ParentRed(c) ==> validG && RotationReady(c)
    modifies tree`root, nodes
    ensures OutcomeIs(c, t, mode, o)
    ensures Zip(tree, nodes, CtxAfter(c, o), TreeAfter(c, t, o))
    ensures o.Single? || o.Double? ==> RotationReady(c)
  {
    SlotHolds(tree, nodes, c, t);
    SubNodesHeld(Snapshot(nodes), t);
    var root := rootp.Read();
    var rp, lp := root.right, root.left;
    o := Kept;
    if mode == 1 || (rp != null && lp != null && rp.red && lp.red) {
      assert mode == 1 || BothRed(t);
      Recolour(tree, nodes, c, t, root);
      o := RepairIfNeeded(tree, nodes, c, Recoloured(t), root, parentp, gparentp, p_r, gp_r, validG);
    }
  }
}
