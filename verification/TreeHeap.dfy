/** Red/black trees in the heap, and the pointers to pointers, called slots, that the C code walks with. */
module TreeHeap {
  import opened TreeShape

  /** The variable that holds the root, with the set of nodes in use and the tree they form. */
  class Tree {
    var root: Node?
    ghost var nodes: set<Node>
    ghost var shape: T

    ghost predicate Valid()
      reads this, nodes
    {
      && Zip(this, nodes, Top, shape)
      && RedBlack(shape)
      && Sorted(Keys(shape))
    }

    /** The keys in the tree, in order. */
    ghost function Contents(): seq<int>
      reads this
    {
      Keys(shape)
    }

    constructor ()
      ensures Valid() && Contents() == [] && nodes == {}
    {
      root, nodes, shape := null, {}, E;
      new;
      assert Balanced(E, 0);
    }
  }

  /** A pointer to a node pointer: the root variable or a child field of a node. */
  datatype Slot = RootSlot(tree: Tree) | ChildSlot(node: Node, side: Side)
  {
    function Read(): Node?
      reads if RootSlot? then {tree as object} else {node as object}
    {
      match this
      case RootSlot(t) => t.root
      case ChildSlot(n, side) => n.Child(side)
    }
  }

  // ------------------------------------------------------------------------
  // The memory as a value
  // ------------------------------------------------------------------------

  datatype Cell = Cell(key: int, red: bool, left: Node?, right: Node?)

  function MakeCell(s: Side, key: int, red: bool, child: Node?, other: Node?): Cell {
    if s == Left then Cell(key, red, child, other) else Cell(key, red, other, child)
  }

  /** The contents of a set of nodes. */
  ghost function Snapshot(nodes: set<Node>): map<Node, Cell>
    reads nodes
  {
    map n | n in nodes :: Cell(n.key, n.red, n.left, n.right)
  }

  /** The memory h contains the tree t. */
  ghost predicate Holds(h: map<Node, Cell>, t: T) {
    match t
    case E => true
    case B(n, red, l, k, r) => n in h && h[n] == Cell(k, red, Root(l), Root(r)) && Holds(h, l) && Holds(h, r)
  }

  /** The memory h contains the surroundings c of pointer p, below the root variable root. */
  ghost predicate CtxHolds(h: map<Node, Cell>, root: Node?, c: Ctx, p: Node?) {
    match c
    case Top => root == p
    case In(s, n, red, k, sib, up) =>
      n in h && h[n] == MakeCell(s, k, red, p, Root(sib)) && Holds(h, sib) && CtxHolds(h, root, up, n)
  }

  ghost predicate ZipHolds(h: map<Node, Cell>, root: Node?, c: Ctx, t: T) {
    CtxHolds(h, root, c, Root(t)) && Holds(h, t) && ZipDistinct(c, t)
  }

  /** The heap below tree is t in the surroundings c, and consists of the given nodes. */
  ghost predicate Zip(tree: Tree, nodes: set<Node>, c: Ctx, t: T)
    reads tree`root, nodes
  {
    ZipHolds(Snapshot(nodes), tree.root, c, t)
  }

  /** h and h' agree on a set of nodes. */
  ghost predicate Agree(h: map<Node, Cell>, h': map<Node, Cell>, nodes: set<Node>) {
    forall n :: n in nodes && n in h ==> n in h' && h'[n] == h[n]
  }

  /** h' agrees with h outside a set of nodes. */
  ghost predicate Outside(h: map<Node, Cell>, h': map<Node, Cell>, written: set<Node>) {
    forall n :: n in h && n !in written ==> n in h' && h'[n] == h[n]
  }

  ghost predicate Has(h: map<Node, Cell>, n: Node, c: Cell) {
    n in h && h[n] == c
  }

  lemma {:induction false} HoldsFrame(h: map<Node, Cell>, h': map<Node, Cell>, t: T)
    requires Holds(h, t) && Agree(h, h', Nodes(t))
    ensures Holds(h', t)
  {
    if t.B? {
      HoldsFrame(h, h', t.left);
      HoldsFrame(h, h', t.right);
    }
  }

  lemma HoldsOutside(h: map<Node, Cell>, h': map<Node, Cell>, written: set<Node>, t: T)
    requires Holds(h, t) && Outside(h, h', written) && written !! Nodes(t)
    ensures Holds(h', t)
  {
    HoldsFrame(h, h', t);
  }

  lemma {:induction false} CtxFrame(h: map<Node, Cell>, h': map<Node, Cell>, root: Node?, c: Ctx, p: Node?)
    requires CtxHolds(h, root, c, p) && Agree(h, h', CtxNodes(c))
    ensures CtxHolds(h', root, c, p)
  {
    if c.In? {
      HoldsFrame(h, h', c.sibling);
      CtxFrame(h, h', root, c.up, c.node);
    }
  }

  // ------------------------------------------------------------------------
  // Slots
  // ------------------------------------------------------------------------

  /** The slot that holds the subtree in surroundings c. */
  function SlotOf(tree: Tree, c: Ctx): Slot {
    match c
    case Top => RootSlot(tree)
    case In(s, n, _, _, _, _) => ChildSlot(n, s)
  }

  lemma SlotHolds(tree: Tree, nodes: set<Node>, c: Ctx, t: T)
    requires Zip(tree, nodes, c, t)
    ensures SlotOf(tree, c).Read() == Root(t)
    ensures c.In? ==> c.node in nodes
  {
  }

  lemma SlotReads(tree: Tree, nodes: set<Node>, c: Ctx, p: Node?)
    requires CtxHolds(Snapshot(nodes), tree.root, c, p)
    ensures SlotOf(tree, c).Read() == p
  {
  }

  /** The memory after the slot of surroundings c has been set to q. */
  ghost predicate Stored(h: map<Node, Cell>, root: Node?, h': map<Node, Cell>, root': Node?, c: Ctx, q: Node?) {
    match c
    case Top => root' == q && h' == h
    case In(s, n, red, k, sib, _) => root' == root && n in h && h' == h[n := MakeCell(s, k, red, q, Root(sib))]
  }

  lemma StoreHolds(h: map<Node, Cell>, root: Node?, h': map<Node, Cell>, root': Node?, c: Ctx, p: Node?, q: Node?)
    requires CtxDistinct(c) && CtxHolds(h, root, c, p) && Stored(h, root, h', root', c, q)
    ensures CtxHolds(h', root', c, q)
  {
    if c.In? {
      HoldsFrame(h, h', c.sibling);
      CtxFrame(h, h', root, c.up, c.node);
    }
  }

  lemma StoredOutside(h: map<Node, Cell>, root: Node?, h': map<Node, Cell>, root': Node?, c: Ctx, q: Node?)
    requires Stored(h, root, h', root', c, q)
    ensures Outside(h, h', CtxNodes(c))
  {
  }

  /** Stores q in the slot of surroundings c. */
  method Store(tree: Tree, ghost nodes: set<Node>, ghost c: Ctx, slot: Slot, q: Node?)
    requires slot == SlotOf(tree, c) && CtxHolds(Snapshot(nodes), tree.root, c, slot.Read())
    modifies tree`root, nodes
    ensures Stored(old(Snapshot(nodes)), old(tree.root), Snapshot(nodes), tree.root, c, q)
    ensures forall n :: n in nodes && n !in CtxNodes(c) ==>
              n.key == old(n.key) && n.red == old(n.red) && n.left == old(n.left) && n.right == old(n.right)
  {
    ghost var h := Snapshot(nodes);
    match slot
    case RootSlot(t) =>
      t.root := q;
    case ChildSlot(n, side) =>
      if side == Left {
        n.left := q;
      } else {
        n.right := q;
      }
      assert Snapshot(nodes) == h[n := MakeCell(side, n.key, n.red, q, n.Child(Other(side)))];
  }

  // ------------------------------------------------------------------------
  // Moving the focus
  // ------------------------------------------------------------------------

  lemma DownZip(h: map<Node, Cell>, root: Node?, c: Ctx, t: T, s: Side)
    requires ZipHolds(h, root, c, t) && t.B?
    ensures ZipHolds(h, root, Down(c, t, s), Sub(t, s))
    ensures CtxNodes(Down(c, t, s)) + Nodes(Sub(t, s)) == CtxNodes(c) + Nodes(t)
  {
  }

  lemma {:induction false} PlugHolds(h: map<Node, Cell>, root: Node?, c: Ctx, t: T)
    requires ZipHolds(h, root, c, t)
    ensures ZipHolds(h, root, Top, Plug(c, t))
  {
    if c.In? {
      PlugHolds(h, root, c.up, Make(c.side, c.node, c.red, t, c.key, c.sibling));
    }
  }

  lemma {:induction false} HeldNodes(h: map<Node, Cell>, t: T)
    requires Holds(h, t)
    ensures Nodes(t) <= h.Keys
  {
    if t.B? {
      HeldNodes(h, t.left);
      HeldNodes(h, t.right);
    }
  }
}
