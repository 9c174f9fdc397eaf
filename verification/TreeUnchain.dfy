/** Taking a node with at most one child out of the tree, and moving its key to the node to be deleted. */
module TreeUnchain {
  import opened TreeShape
  import opened TreeHeap
  import opened TreeRotate
  import opened TreeSplit
  import opened TreeInsert
  import opened TreeRepair
  import opened TreeFixup

  /** The node to unchain has at most one child; r is that child, or null. */
  ghost function Remainder(t: T): T
    requires t.B?
  {
    if t.left.E? then t.right else t.left
  }

  ghost predicate OneChild(t: T) {
    t.B? && (t.left.E? || t.right.E?)
  }

  // ------------------------------------------------------------------------
  // The path from the deleted node to its successor
  // ------------------------------------------------------------------------

  /** The focus of uc lies one step to the right of the focus of c.up, and then only steps to the left. */
  ghost predicate LeftSpine(uc: Ctx, c: Ctx) {
    c.In? && c.side == Right && uc.In? && if uc.side == Right then uc == c else LeftSpine(uc.up, c)
  }

  /** The surroundings after the key in the node above the spine has been overwritten. */
  ghost function Rekeyed(uc: Ctx, k: int): Ctx {
    if uc.Top? then Top else if uc.side == Right then uc.(key := k) else uc.(up := Rekeyed(uc.up, k))
  }

  lemma {:induction false} RekeyedKeys(uc: Ctx, c: Ctx, k: int)
    requires LeftSpine(uc, c)
    ensures Before(uc) == Before(c.up) + Keys(c.sibling) + [c.key]
    ensures Before(Rekeyed(uc, k)) == Before(c.up) + Keys(c.sibling) + [k]
    ensures After(Rekeyed(uc, k)) == After(uc)
  {
    if uc.side == Left {
      RekeyedKeys(uc.up, c, k);
    }
  }

  lemma {:induction false} RekeyedColours(uc: Ctx, k: int, h: nat, red: bool)
    ensures CtxBalanced(uc, h) ==> CtxBalanced(Rekeyed(uc, k), h)
    ensures CtxNoRedRed(uc, red) ==> CtxNoRedRed(Rekeyed(uc, k), red)
  {
    if uc.In? && uc.side == Left {
      RekeyedColours(uc.up, k, if uc.red then h else h + 1, uc.red);
    }
  }

  lemma {:induction false} RekeyedNodes(uc: Ctx, k: int)
    ensures CtxNodes(Rekeyed(uc, k)) == CtxNodes(uc)
    ensures CtxDistinct(uc) ==> CtxDistinct(Rekeyed(uc, k))
  {
    if uc.In? && uc.side == Left {
      RekeyedNodes(uc.up, k);
    }
  }

  lemma {:induction false} RekeyedStack(s: seq<Slot>, tree: Tree, uc: Ctx, k: int)
    requires StackIs(s, tree, uc)
    ensures StackIs(s, tree, Rekeyed(uc, k))
  {
    if uc.In? && uc.side == Left {
      RekeyedStack(s[..|s| - 1], tree, uc.up, k);
    }
  }

  lemma {:induction false} SpineNode(uc: Ctx, c: Ctx)
    requires LeftSpine(uc, c)
    ensures c.node in CtxNodes(uc)
  {
    if uc.side == Left {
      SpineNode(uc.up, c);
    }
  }

  lemma {:induction false} RekeyedHolds(h: map<Node, Cell>, h': map<Node, Cell>, root: Node?, uc: Ctx, c: Ctx, p: Node?,
                                        k: int)
    requires LeftSpine(uc, c) && CtxDistinct(uc) && CtxHolds(h, root, uc, p) && c.node in h
    requires h' == h[c.node := h[c.node].(key := k)]
    ensures CtxHolds(h', root, Rekeyed(uc, k), p)
  {
    if uc.side == Left {
      SpineNode(uc.up, c);
      HoldsFrame(h, h', uc.sibling);
      RekeyedHolds(h, h', root, uc.up, c, uc.node, k);
    } else {
      HoldsFrame(h, h', uc.sibling);
      CtxFrame(h, h', root, uc.up, uc.node);
    }
  }

  // ------------------------------------------------------------------------
  // Keys
  // ------------------------------------------------------------------------

  /** keys' is keys without key. */
  ghost predicate Removed(keys: seq<int>, key: int, keys': seq<int>) {
    exists a, b :: keys == a + [key] + b && keys' == a + b
  }

  lemma RemovedMeans(keys: seq<int>, key: int, keys': seq<int>)
    requires Sorted(keys) && Removed(keys, key, keys')
    ensures Sorted(keys') && SetOf(keys') == SetOf(keys) - {key} && key in keys
  {
    var a, b :| keys == a + [key] + b && keys' == a + b;
    SortedRemove(a, key, b);
    assert keys[|a|] == key;
    assert forall k :: k in keys <==> k in a || k == key || k in b;
  }

  lemma RemovedMiddle(a: seq<int>, l: seq<int>, key: int, r: seq<int>, b: seq<int>)
    ensures Removed(a + (l + [key] + r) + b, key, a + (l + r) + b)
  {
    assert a + (l + [key] + r) + b == (a + l) + [key] + (r + b);
    assert a + (l + r) + b == (a + l) + (r + b);
  }

  lemma RemovedBefore(x: seq<int>, key: int, next: int, r: seq<int>, b: seq<int>)
    ensures Removed(x + [key] + ([next] + r) + b, key, x + [next] + r + b)
  {
    assert x + [key] + ([next] + r) + b == x + [key] + ([next] + r + b);
    assert x + [next] + r + b == x + ([next] + r + b);
  }

  /** Taking out the node with the key itself. */
  lemma RemovedHere(c: Ctx, t: T)
    requires OneChild(t)
    ensures Removed(Before(c) + Keys(t) + After(c), t.key, Before(c) + Keys(Remainder(t)) + After(c))
  {
    RemovedMiddle(Before(c), Keys(t.left), t.key, Keys(t.right), After(c));
    assert Keys(Remainder(t)) == Keys(t.left) + Keys(t.right);
  }

  /** Overwriting the key with its successor's and taking out the successor. */
  lemma RemovedAbove(uc: Ctx, ut: T, c: Ctx)
    requires OneChild(ut) && ut.left.E? && LeftSpine(uc, c)
    ensures Removed(Before(uc) + Keys(ut) + After(uc), c.key,
                    Before(Rekeyed(uc, ut.key)) + Keys(Remainder(ut)) + After(Rekeyed(uc, ut.key)))
  {
    RekeyedKeys(uc, c, ut.key);
    RemovedBefore(Before(c.up) + Keys(c.sibling), c.key, ut.key, Keys(ut.right), After(uc));
    assert Keys(ut) == [ut.key] + Keys(ut.right);
  }

  // ------------------------------------------------------------------------
  // Colours
  // ------------------------------------------------------------------------

  /** A black node was taken out: one black edge is missing. A red one had no children at all. */
  lemma UnchainedColours(c: Ctx, t: T, h: nat)
    requires OneChild(t) && ZipRedBlack(c, t, h)
    ensures !t.red ==> h > 0 && Deficient(c, Remainder(t), h - 1)
    ensures t.red ==> ZipRedBlack(c, Remainder(t), h)
  {
    var r := Remainder(t);
    assert NoRedRed(r) && (r.B? ==> NoRedRed(r.left) && NoRedRed(r.right));
    if t.red {
      assert Balanced(t.left, h) && Balanced(t.right, h) && Black(t.left) && Black(t.right);
      WeakerCtx(c, true);
    }
  }

  // ------------------------------------------------------------------------
  // The writes
  // ------------------------------------------------------------------------

  lemma FewerNodes(h: map<Node, Cell>, h': map<Node, Cell>, root: Node?, c: Ctx, t: T, u: Node)
    requires ZipHolds(h, root, c, t) && u !in CtxNodes(c) && u !in Nodes(t)
    requires Agree(h, h', h.Keys - {u})
    ensures ZipHolds(h', root, c, t)
  {
    CtxFrame(h, h', root, c, Root(t));
    HoldsFrame(h, h', t);
  }

  lemma UnchainedHolds(h: map<Node, Cell>, root: Node?, h1: map<Node, Cell>, root1: Node?, c: Ctx, t: T)
    requires ZipHolds(h, root, c, t) && OneChild(t) && Stored(h, root, h1, root1, c, Root(Remainder(t)))
    ensures ZipHolds(h1, root1, c, Remainder(t))
    ensures t.node !in CtxNodes(c) && t.node !in Nodes(Remainder(t))
  {
    StoreHolds(h, root, h1, root1, c, t.node, Root(Remainder(t)));
    StoredOutside(h, root, h1, root1, c, Root(Remainder(t)));
    assert Holds(h, Remainder(t)) && Nodes(Remainder(t)) <= Nodes(t);
    HoldsOutside(h, h1, CtxNodes(c), Remainder(t));
    SubDistinct(t, Left);
  }

  /** r takes the place of the unchained node. */
  method Unchain(tree: Tree, ghost nodes: set<Node>, ghost c: Ctx, ghost t: T, unchained: Node, rootp: Slot,
                 nodestack: array<Slot>, sp: nat)
    returns (r: Node?)
    requires Zip(tree, nodes, c, t) && OneChild(t) && unchained == t.node
    requires sp <= nodestack.Length && StackIs(nodestack[..sp], tree, c)
    requires sp == 0 ==> rootp == RootSlot(tree)
    modifies tree`root, nodes
    ensures r == Root(Remainder(t)) && Zip(tree, nodes - {unchained}, c, Remainder(t))
    ensures unchained.key == old(unchained.key) && unchained.red == old(unchained.red)
  {
    ghost var h, root := Snapshot(nodes), tree.root;
    SubNodesHeld(h, t);
    r := unchained.left;
    if r == null {
      r := unchained.right;
    }
    var slot := SlotOfUnchained(tree, nodes, c, t, unchained, rootp, nodestack, sp);
    Store(tree, nodes, c, slot, r);
    UnchainedHolds(h, root, Snapshot(nodes), tree.root, c, t);
    FewerNodes(Snapshot(nodes), Snapshot(nodes - {unchained}), tree.root, c, Remainder(t), unchained);
  }

  /** The slot that points to UNCHAINED: the root variable, or the field of the parent on the stack. */
  method SlotOfUnchained(tree: Tree, ghost nodes: set<Node>, ghost c: Ctx, ghost t: T, unchained: Node, rootp: Slot,
                         nodestack: array<Slot>, sp: nat)
    returns (slot: Slot)
    requires Zip(tree, nodes, c, t) && t.B? && unchained == t.node
    requires sp <= nodestack.Length && StackIs(nodestack[..sp], tree, c)
    requires sp == 0 ==> rootp == RootSlot(tree)
    ensures slot == SlotOf(tree, c) && slot.Read() == unchained
  {
    SlotHolds(tree, nodes, c, t);
    if sp == 0 {
      return rootp;
    }
    StackPop(nodestack[..], tree, c, sp);
    SlotReads(tree, nodes, c.up, c.node);
    var q := nodestack[sp - 1].Read();
    assert unchained in Nodes(t);
    if c.sibling.B? {
      assert c.sibling.node in Nodes(c.sibling) && Nodes(c.sibling) <= CtxNodes(c);
    }
    slot := ChildSlot(q, if unchained == q.right then Right else Left);
  }

  /** The key of the unchained node replaces the one to delete, if it was in another node. */
  method CopyKey(tree: Tree, ghost nodes: set<Node>, ghost uc: Ctx, ghost c: Ctx, ghost t: T, root: Node, key: int)
    requires Zip(tree, nodes, uc, t) && LeftSpine(uc, c) && root == c.node
    modifies nodes
    ensures Zip(tree, nodes, Rekeyed(uc, key), t)
  {
    ghost var h := Snapshot(nodes);
    SpineNode(uc, c);
    SpineHeld(h, tree.root, uc, Root(t));
    root.key := key;
    ghost var h' := Snapshot(nodes);
    assert h' == h[root := h[root].(key := key)];
    RekeyedHolds(h, h', tree.root, uc, c, Root(t), key);
    HoldsFrame(h, h', t);
    RekeyedNodes(uc, key);
  }

  lemma {:induction false} SpineHeld(h: map<Node, Cell>, root: Node?, c: Ctx, p: Node?)
    requires CtxHolds(h, root, c, p)
    ensures CtxNodes(c) <= h.Keys
  {
    if c.In? {
      HeldNodes(h, c.sibling);
      SpineHeld(h, root, c.up, c.node);
    }
  }
}
