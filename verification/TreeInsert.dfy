/** tsearch: find or insert a key, splitting nodes on the way down. */
module TreeInsert {
  import opened TreeShape
  import opened TreeHeap
  import opened TreeRotate
  import opened TreeSplit

  /** The comparison function of the caller: any total order, keys being named by their rank in it. */
  function Compare(a: int, b: int): int {
    if a < b then -1 else if a == b then 0 else 1
  }

  /** The way from t for key leads to a quiet node, so nothing can be split at t or there. */
  ghost predicate Forced(t: T, key: int) {
    && t.B? && key != t.key
    && var child := Sub(t, Way(Compare(key, t.key)));
       child.B? && Quiet(child)
  }

  /** What is known of the focus (c, t) on the way down. validP and validG say whether the slot
      pointers to the parent and to the grandparent are usable. */
  ghost predicate Descending(c: Ctx, t: T, h: nat, key: int, validP: bool, validG: bool) {
    && ZipRedBlack(c, t, h)
    && Sorted(Keys(t)) && Between(c, key)
    // a rotation at the focus would find its grandparent
    && (ParentRed(c) && !Quiet(t) ==> validP && validG && RotationReady(c))
    // a rotation at a child of the focus would find its grandparent
    && (validP && t.B? && t.red ==> c.In? && Black(c.sibling))
    && (!validP ==> Forced(t, key))
  }

  /** The focus after one step down from the outcome of a split. */
  ghost function NextCtx(c: Ctx, t: T, o: Outcome, s: Side): Ctx
    requires OutcomeIs(c, t, 0, o)
  {
    Down(CtxAfter(c, o), TreeAfter(c, t, o), s)
  }

  ghost function NextTree(c: Ctx, t: T, o: Outcome, s: Side): T
    requires OutcomeIs(c, t, 0, o)
  {
    Sub(TreeAfter(c, t, o), s)
  }

  lemma NoSplitWhenForced(t: T, key: int)
    requires Forced(t, key)
    ensures !BothRed(t)
  {
  }

  lemma AfterSplitBetween(c: Ctx, t: T, o: Outcome, key: int)
    requires OutcomeIs(c, t, 0, o) && Between(c, key)
    ensures Between(CtxAfter(c, o), key)
  {
    SplitKeys(c, t, 0, o);
    if o.Double? {
      assert forall k :: k in Before(c.up.up) ==> k in Before(c.up) && k in Before(c);
      assert forall k :: k in After(c.up.up) ==> k in After(c.up) && k in After(c);
    }
  }

  lemma AfterSplitSorted(c: Ctx, t: T, o: Outcome, key: int)
    requires OutcomeIs(c, t, 0, o) && Sorted(Before(c) + Keys(t) + After(c))
    ensures Sorted(Keys(TreeAfter(c, t, o)))
  {
    SplitKeys(c, t, 0, o);
    SortedMiddle(Before(CtxAfter(c, o)), Keys(TreeAfter(c, t, o)), After(CtxAfter(c, o)));
  }

  lemma SortedMiddle(a: seq<int>, b: seq<int>, c: seq<int>)
    requires Sorted(a + b + c)
    ensures Sorted(b)
  {
    var s := a + b + c;
    forall i, j | 0 <= i < j < |b| ensures b[i] < b[j] {
      assert s[|a| + i] == b[i] && s[|a| + j] == b[j];
    }
  }

  /** A split leaves quiet children behind. */
  lemma SplitChildQuiet(t: T, h: nat, s: Side)
    requires BothRed(t) && Balanced(t, h) && NoRedRed(t)
    ensures Sub(Recoloured(t), s).B? && Quiet(Sub(Recoloured(t), s))
  {
    RecolouredRedBlack(t, h);
  }

  /** After a double rotation the way leads past a node with two stale slot pointers above it, whose
      next child is quiet. */
  lemma DoubleForced(c: Ctx, t: T, h: nat, key: int, s: Side)
    requires BothRed(t) && Balanced(t, h) && NoRedRed(t)
    requires OutcomeIs(c, t, 0, Double) && Between(c, key)
    ensures Forced(NextTree(c, t, Double, s), key)
    ensures NextTree(c, t, Double, s).red
  {
    var t1, g := Recoloured(t), c.up;
    SplitChildQuiet(t, h, c.side);
    SplitChildQuiet(t, h, Other(c.side));
    DirectionOf(c, key);
    DirectionOf(g, key) by {
      assert forall k :: k in Before(g) ==> k in Before(c);
      assert forall k :: k in After(g) ==> k in After(c);
    }
  }

  /** The key lies on the focus side of every node above it. */
  lemma DirectionOf(c: Ctx, key: int)
    requires c.In? && Between(c, key)
    ensures key != c.key && Way(Compare(key, c.key)) == c.side
  {
    if c.side == Left {
      assert After(c)[0] == c.key;
      assert c.key in After(c);
    } else {
      assert Before(c)[|Before(c)| - 1] == c.key;
      assert c.key in Before(c);
    }
  }

  // ------------------------------------------------------------------------
  // One step down
  // ------------------------------------------------------------------------

  /** The rotation, if there was one, was possible. */
  ghost predicate Possible(c: Ctx, t: T, o: Outcome) {
    OutcomeIs(c, t, 0, o) && (o.Single? || o.Double? ==> RotationReady(c))
  }

  lemma StepRedBlack(c: Ctx, t: T, h: nat, o: Outcome, s: Side) returns (h': nat)
    requires ZipRedBlack(c, t, h) && Possible(c, t, o)
    ensures ZipRedBlack(NextCtx(c, t, o, s), NextTree(c, t, o, s), h')
  {
    h' := SplitRedBlack(c, t, h, 0, o);
    h' := DownRedBlack(CtxAfter(c, o), TreeAfter(c, t, o), h', s);
  }

  lemma StepSearch(c: Ctx, t: T, o: Outcome, key: int)
    requires Possible(c, t, o) && Between(c, key) && key != t.key
    requires Sorted(Before(c) + Keys(t) + After(c))
    ensures var s := Way(Compare(key, t.key));
            && Between(NextCtx(c, t, o, s), key)
            && Sorted(Keys(NextTree(c, t, o, s)))
            && Before(NextCtx(c, t, o, s)) + Keys(NextTree(c, t, o, s)) + After(NextCtx(c, t, o, s))
               == Before(c) + Keys(t) + After(c)
  {
    var s, c1, t1 := Way(Compare(key, t.key)), CtxAfter(c, o), TreeAfter(c, t, o);
    AfterSplitBetween(c, t, o, key);
    AfterSplitSorted(c, t, o, key);
    SplitKeys(c, t, 0, o);
    DownBetween(c1, t1, key, s);
    SubSorted(t1, s);
    DownKeys(c1, t1, s);
  }

  /** After a step the slot pointers shift by one place; a rotation makes some of them stale. */
  lemma StepColours(c: Ctx, t: T, h: nat, key: int, validP: bool, validG: bool, o: Outcome)
    requires Descending(c, t, h, key, validP, validG) && Possible(c, t, o) && key != t.key
    ensures var s := Way(Compare(key, t.key)); var c2, t2 := NextCtx(c, t, o, s), NextTree(c, t, o, s);
            var validP2, validG2 := !o.Double?, validP && o.Kept?;
            && (ParentRed(c2) && !Quiet(t2) ==> validP2 && validG2 && RotationReady(c2))
            && (validP2 && t2.B? && t2.red ==> c2.In? && Black(c2.sibling))
            && (!validP2 ==> Forced(t2, key))
            && (t2.E? ==> o.Kept? && validP)
            && (t2.E? && ParentRed(c2) ==> RotationReady(c2))
  {
    var s := Way(Compare(key, t.key));
    match o
    case Kept => KeptColours(c, t, h, key, validP, validG, s);
    case Split => SplitChildQuiet(t, h, s);
    case Single => SplitChildQuiet(t, h, s);
    case Double => DoubleForced(c, t, h, key, s);
  }

  lemma KeptColours(c: Ctx, t: T, h: nat, key: int, validP: bool, validG: bool, s: Side)
    requires Descending(c, t, h, key, validP, validG) && t.B? && !BothRed(t) && s == Way(Compare(key, t.key))
    ensures var c2, t2 := Down(c, t, s), Sub(t, s);
            && (ParentRed(c2) && !Quiet(t2) ==> validP && RotationReady(c2))
            && (t2.B? && t2.red ==> Black(c2.sibling))
            && (t2.E? ==> validP && (ParentRed(c2) ==> RotationReady(c2)))
  {
    if !validP {
      assert Sub(t, s).B? && Quiet(Sub(t, s));
    } else if t.red {
      assert c.In? && !c.red;
    }
  }

  /** The place found for a new leaf. */
  ghost predicate InsertionPoint(c: Ctx, h: nat, key: int) {
    && c.In? && ZipRedBlack(c, E, h) && Between(c, key)
    && (ParentRed(c) ==> RotationReady(c))
  }

  /** One iteration of the loop: splits the node in slot rootp, then moves on to its child. */
  method StepDown(tree: Tree, ghost nodes: set<Node>, ghost c: Ctx, ghost t: T, ghost h: nat, key: int, root: Node,
                  rootp: Slot, parentp: SlotPtr, gparentp: SlotPtr, r: int, p_r: int, gp_r: int, ghost validP: bool,
                  ghost validG: bool)
    returns (nextp: Slot, ghost c2: Ctx, ghost t2: T, ghost h2: nat, ghost o: Outcome)
    requires Zip(tree, nodes, c, t) && t.B? && root == t.node && key != t.key && r == Compare(key, t.key)
    requires Descending(c, t, h, key, validP, validG) && Sorted(Before(c) + Keys(t) + After(c))
    requires Pointers(tree, c, rootp, parentp, gparentp, p_r, gp_r, validP, validG)
    modifies tree`root, nodes
    ensures Possible(c, t, o) && c2 == NextCtx(c, t, o, Way(r)) && t2 == NextTree(c, t, o, Way(r))
    ensures Zip(tree, nodes, c2, t2) && nextp == SlotOf(tree, c2) && nextp == ChildSlot(root, Way(r))
    ensures t2.B? ==> Descending(c2, t2, h2, key, !o.Double?, validP && o.Kept?)
    ensures t2.E? ==> o.Kept? && validP && InsertionPoint(c2, h2, key)
    ensures Before(c2) + Keys(t2) + After(c2) == Before(c) + Keys(t) + After(c)
  {
    if !validP {
      NoSplitWhenForced(t, key);
    }
    o := MaybeSplitForInsert(tree, nodes, c, t, h, rootp, parentp, gparentp, p_r, gp_r, 0, validP, validG);
    nextp := ChildSlot(root, Way(r));
    c2, t2 := NextCtx(c, t, o, Way(r)), NextTree(c, t, o, Way(r));
    DownZip(Snapshot(nodes), tree.root, CtxAfter(c, o), TreeAfter(c, t, o), Way(r));
    StepColours(c, t, h, key, validP, validG, o);
    StepSearch(c, t, o, key);
    h2 := StepRedBlack(c, t, h, o, Way(r));
  }

  // ------------------------------------------------------------------------
  // Linking the new node
  // ------------------------------------------------------------------------

  lemma MoreNodes(h: map<Node, Cell>, h': map<Node, Cell>, root: Node?, c: Ctx, q: Node)
    requires CtxHolds(h, root, c, null) && CtxDistinct(c) && q !in h
    requires forall n :: n in h ==> n in h' && h'[n] == h[n]
    ensures CtxHolds(h', root, c, null) && q !in CtxNodes(c)
  {
    CtxFrame(h, h', root, c, null);
    CtxHeldNodes(h, root, c, null);
  }

  lemma {:induction false} CtxHeldNodes(h: map<Node, Cell>, root: Node?, c: Ctx, p: Node?)
    requires CtxHolds(h, root, c, p)
    ensures CtxNodes(c) <= h.Keys
  {
    if c.In? {
      HeldNodes(h, c.sibling);
      CtxHeldNodes(h, root, c.up, c.node);
    }
  }

  /** Stores a new red leaf in an empty slot. */
  method LinkLeaf(tree: Tree, ghost nodes: set<Node>, ghost c: Ctx, nextp: Slot, key: int)
    returns (q: Node, ghost leaf: T)
    requires Zip(tree, nodes, c, E) && nextp == SlotOf(tree, c)
    modifies tree`root, nodes
    ensures fresh(q) && leaf == B(q, true, E, key, E)
    ensures Zip(tree, nodes + {q}, c, leaf)
  {
    q := new Node(key);
    leaf := B(q, true, E, key, E);
    ghost var h := Snapshot(nodes + {q});
    MoreNodes(Snapshot(nodes), h, tree.root, c, q);
    SlotHolds(tree, nodes, c, E);
    ghost var root := tree.root;
    Store(tree, nodes + {q}, c, nextp, q);
    StoreHolds(h, root, Snapshot(nodes + {q}), tree.root, c, null, q);
  }

  lemma LeafReady(c: Ctx, h: nat, leaf: T)
    requires ZipRedBlack(c, E, h)
    requires leaf.B? && leaf.red && leaf.left.E? && leaf.right.E?
    ensures SplitReady(c, leaf, h, 1)
  {
  }

  /** The ghost description of a tree after an operation. */
  ghost predicate Described(tree: Tree, nodes: set<Node>, c: Ctx, t: T, keys: seq<int>)
    reads tree`root, nodes
  {
    && Zip(tree, nodes, c, t)
    && Before(c) + Keys(t) + After(c) == keys
    && exists h: nat :: ZipRedBlack(c, t, h)
  }

  /** Records the shape found by an operation. */
  ghost method Conclude(tree: Tree, nodes: set<Node>, c: Ctx, t: T, keys: seq<int>)
    requires Described(tree, nodes, c, t, keys) && Sorted(keys)
    modifies tree`nodes, tree`shape
    ensures tree.Valid() && tree.Contents() == keys && tree.nodes == nodes
  {
    var h: nat :| ZipRedBlack(c, t, h);
    PlugRedBlack(c, t, h);
    PlugKeys(c, t);
    PlugHolds(Snapshot(nodes), tree.root, c, t);
    tree.nodes := nodes;
    tree.shape := Plug(c, t);
  }

  /** Adds a leaf for key below the node in slot rootp, and rotates if two red edges meet. */
  method AddBelow(tree: Tree, ghost nodes: set<Node>, ghost c: Ctx, ghost h: nat, key: int, nextp: Slot, rootp: Slot,
                  parentp: SlotPtr, r: int, p_r: int)
    returns (q: Node, ghost o: Outcome, ghost leaf: T)
    requires Zip(tree, nodes, c, E) && InsertionPoint(c, h, key) && nextp == SlotOf(tree, c)
    requires Ptr(rootp) == ParentSlot(tree, c) && parentp == GrandSlot(tree, c)
    requires r != 0 && c.side == Way(r)
    requires c.up.In? ==> p_r != 0 && c.up.side == Way(p_r)
    modifies tree`root, nodes
    ensures fresh(q) && leaf == B(q, true, E, key, E)
    ensures OutcomeIs(c, leaf, 1, o)
    ensures Described(tree, nodes + {q}, CtxAfter(c, o), TreeAfter(c, leaf, o), Before(c) + [key] + After(c))
  {
    q, leaf := LinkLeaf(tree, nodes, c, nextp, key);
    LeafReady(c, h, leaf);
    o := MaybeSplitForInsert(tree, nodes + {q}, c, leaf, h, nextp, Ptr(rootp), parentp, r, p_r, 1, true, true);
    SplitKeys(c, leaf, 1, o);
    assert Keys(leaf) == [key];
    ghost var h' := SplitRedBlack(c, leaf, h, 1, o);
  }

  // ------------------------------------------------------------------------
  // tsearch
  // ------------------------------------------------------------------------

  ghost function SetOf(s: seq<int>): set<int> {
    set k | k in s
  }

  lemma InsertedKeys(a: seq<int>, key: int, b: seq<int>)
    ensures SetOf(a + [key] + b) == SetOf(a + b) + {key}
  {
  }

  /** The root becomes black before the search. */
  method BlackenRoot(tree: Tree) returns (ghost h: nat)
    requires tree.Valid()
    modifies tree.nodes, tree`shape
    ensures tree.Valid() && tree.Contents() == old(tree.Contents()) && tree.nodes == old(tree.nodes)
    ensures ZipRedBlack(Top, tree.shape, h) && Black(tree.shape)
    ensures tree.root == old(tree.root)
  {
    ghost var t := tree.shape;
    h :| Balanced(t, h);
    if tree.root != null {
      ghost var heap := Snapshot(tree.nodes);
      tree.root.red := false;
      BlackenedHolds(heap, Snapshot(tree.nodes), {t.node}, t);
      BlackenedDistinct(t);
      if t.red {
        h := h + 1;
      }
      tree.shape := Blackened(t);
      assert Balanced(tree.shape, h);
    }
  }

  /** The slot pointers and comparison results that go with the focus. */
  ghost predicate Pointers(tree: Tree, c: Ctx, rootp: Slot, parentp: SlotPtr, gparentp: SlotPtr, p_r: int, gp_r: int,
                           validP: bool, validG: bool) {
    && rootp == SlotOf(tree, c)
    && (validP ==> parentp == ParentSlot(tree, c))
    && (validG ==> gparentp == GrandSlot(tree, c))
    && (c.In? ==> p_r != 0 && c.side == Way(p_r))
    && (validG && c.In? && c.up.In? ==> gp_r != 0 && c.up.side == Way(gp_r))
  }

  /** One step shifts the slot pointers. */
  lemma ShiftedPointers(tree: Tree, c: Ctx, t: T, o: Outcome, rootp: Slot, parentp: SlotPtr, gparentp: SlotPtr, r: int,
                        p_r: int, gp_r: int, validP: bool, validG: bool)
    requires Pointers(tree, c, rootp, parentp, gparentp, p_r, gp_r, validP, validG) && r != 0
    requires Possible(c, t, o)
    ensures var c2 := NextCtx(c, t, o, Way(r));
            Pointers(tree, c2, SlotOf(tree, c2), Ptr(rootp), parentp, r, p_r, !o.Double?, validP && o.Kept?)
  {
  }

  /** How much of the tree is still ahead of the search. */
  ghost function Ahead(t: T, key: int, validP: bool): nat {
    if validP || t.E? then |Keys(t)| else |Keys(Sub(t, Way(Compare(key, t.key))))| + 1
  }

  lemma AheadDecreases(c: Ctx, t: T, h: nat, key: int, validP: bool, validG: bool, o: Outcome)
    requires Descending(c, t, h, key, validP, validG) && Possible(c, t, o) && t.B? && key != t.key
    ensures Ahead(NextTree(c, t, o, Way(Compare(key, t.key))), key, !o.Double?) < Ahead(t, key, validP)
  {
    var s := Way(Compare(key, t.key));
    if !validP {
      NoSplitWhenForced(t, key);
    }
    if !o.Kept? {
      assert Keys(Blackened(t.left)) == Keys(t.left) && Keys(Blackened(t.right)) == Keys(t.right);
      if o.Double? {
        DoubleAhead(c, t, key, s);
      }
    }
  }

  lemma DoubleAhead(c: Ctx, t: T, key: int, s: Side)
    requires OutcomeIs(c, t, 0, Double) && BothRed(t) && Between(c, key)
    ensures var t2 := NextTree(c, t, Double, s); Ahead(t2, key, false) < |Keys(t)|
  {
    var g := c.up;
    DirectionOf(c, key);
    DirectionOf(g, key) by {
      assert forall k :: k in Before(g) ==> k in Before(c);
      assert forall k :: k in After(g) ==> k in After(c);
    }
    assert Keys(Blackened(t.left)) == Keys(t.left) && Keys(Blackened(t.right)) == Keys(t.right);
    assert |Keys(t)| == |Keys(t.left)| + 1 + |Keys(t.right)|;
    assert |Keys(t.left)| >= 1 && |Keys(t.right)| >= 1;
  }

  /** A key found at the focus is one of the keys of the tree. */
  lemma FoundKey(c: Ctx, t: T)
    requires t.B?
    ensures t.key in Before(c) + Keys(t) + After(c)
  {
    var l := Keys(t.left);
    assert Keys(t)[|l|] == t.key;
  }

  lemma NotAmong(c: Ctx, key: int)
    requires Between(c, key)
    ensures key !in Before(c) + After(c)
  {
  }

  /** The end of an unsuccessful search: nextp is the empty slot in surroundings c. */
  ghost predicate PlaceFound(tree: Tree, nodes: set<Node>, c: Ctx, h: nat, key: int, keys: seq<int>, nextp: Slot,
                             rootp: Slot, parentp: SlotPtr, r: int, p_r: int)
    reads tree`root, nodes
  {
    && Zip(tree, nodes, c, E) && Between(c, key) && ZipRedBlack(c, E, h)
    && Before(c) + After(c) == keys
    && nextp == SlotOf(tree, c)
    && (c.Top? <==> nextp == rootp)
    && (c.In? ==>
          && InsertionPoint(c, h, key)
          && Ptr(rootp) == ParentSlot(tree, c) && parentp == GrandSlot(tree, c)
          && r != 0 && c.side == Way(r)
          && (c.up.In? ==> p_r != 0 && c.up.side == Way(p_r)))
  }

  lemma PlaceAtTop(tree: Tree, nodes: set<Node>, h: nat, key: int, rootp: Slot)
    requires Zip(tree, nodes, Top, E) && ZipRedBlack(Top, E, h) && rootp == RootSlot(tree)
    ensures PlaceFound(tree, nodes, Top, h, key, [], rootp, rootp, Null, 0, 0)
  {
  }

  lemma PlaceBelow(tree: Tree, nodes: set<Node>, c: Ctx, t: T, h2: nat, key: int, keys: seq<int>, rootp: Slot,
                   parentp: SlotPtr, gparentp: SlotPtr, r: int, p_r: int, gp_r: int, validG: bool)
    requires t.B? && r != 0 && Pointers(tree, c, rootp, parentp, gparentp, p_r, gp_r, true, validG)
    requires Zip(tree, nodes, Down(c, t, Way(r)), E) && InsertionPoint(Down(c, t, Way(r)), h2, key)
    requires Before(Down(c, t, Way(r))) + Keys(E) + After(Down(c, t, Way(r))) == keys
    ensures PlaceFound(tree, nodes, Down(c, t, Way(r)), h2, key, keys, ChildSlot(t.node, Way(r)), rootp, parentp, r,
              p_r)
  {
    var c2 := Down(c, t, Way(r));
    assert Before(c2) + Keys(E) + After(c2) == Before(c2) + After(c2);
    assert CtxDistinct(c2);
    if c.In? {
      assert c.node in CtxNodes(c);
    }
  }

  /** The loop of tsearch. It returns the node with the key, or the place for a new one. */
  method Search(tree: Tree, ghost nodes: set<Node>, ghost t0: T, ghost h0: nat, key: int, ghost keys: seq<int>)
    returns (found: Node?, nextp: Slot, rootp: Slot, parentp: SlotPtr, r: int, p_r: int, ghost c: Ctx, ghost t: T,
             ghost h: nat)
    requires Zip(tree, nodes, Top, t0) && ZipRedBlack(Top, t0, h0) && Black(t0) && Keys(t0) == keys && Sorted(keys)
    modifies tree`root, nodes
    ensures found != null ==> found.key == key && found in nodes && key in keys && Described(tree, nodes, c, t, keys)
    ensures found == null ==> PlaceFound(tree, nodes, c, h, key, keys, nextp, rootp, parentp, r, p_r)
  {
    c, t, h := Top, t0, h0;
    ghost var validP, validG := true, true;
    rootp, parentp := RootSlot(tree), Null;
    var gparentp := Null;
    r, p_r := 0, 0;
    var gp_r := 0;
    nextp := rootp;
    found := null;
    assert Before(c) + Keys(t) + After(c) == keys;
    SlotHolds(tree, nodes, c, t);
    if t.E? {
      PlaceAtTop(tree, nodes, h, key, rootp);
    }
    while nextp.Read() != null
      invariant nextp == rootp && nextp.Read() == Root(t)
      invariant Zip(tree, nodes, c, t)
      invariant Before(c) + Keys(t) + After(c) == keys
      invariant t.B? ==> Descending(c, t, h, key, validP, validG)
      invariant t.B? ==> Pointers(tree, c, rootp, parentp, gparentp, p_r, gp_r, validP, validG)
      invariant t.E? ==> PlaceFound(tree, nodes, c, h, key, keys, nextp, rootp, parentp, r, p_r)
      decreases Ahead(t, key, validP)
    {
      SubNodesHeld(Snapshot(nodes), t);
      var root := rootp.Read();
      r := Compare(key, root.key);
      if r == 0 {
        FoundKey(c, t);
        found := root;
        return;
      }
      ghost var c2, t2, h2, o;
      nextp, c2, t2, h2, o := StepDown(tree, nodes, c, t, h, key, root, rootp, parentp, gparentp, r, p_r, gp_r, validP,
          validG);
      SlotHolds(tree, nodes, c2, t2);
      AheadDecreases(c, t, h, key, validP, validG, o);
      if nextp.Read() == null {
        PlaceBelow(tree, nodes, c, t, h2, key, keys, rootp, parentp, gparentp, r, p_r, gp_r, validG);
        c, t, h := c2, t2, h2;
        break;
      }
      ShiftedPointers(tree, c, t, o, rootp, parentp, gparentp, r, p_r, gp_r, validP, validG);
      gparentp := parentp;
      parentp := Ptr(rootp);
      rootp := nextp;
      gp_r := p_r;
      p_r := r;
      validP, validG := !o.Double?, validP && o.Kept?;
      c, t, h := c2, t2, h2;
    }
  }

  /** Adds a leaf at the place found. */
  method AddAt(tree: Tree, ghost nodes: set<Node>, ghost c: Ctx, ghost h: nat, key: int, ghost keys: seq<int>,
               nextp: Slot, rootp: Slot, parentp: SlotPtr, r: int, p_r: int)
    returns (q: Node, ghost c2: Ctx, ghost t2: T)
    requires PlaceFound(tree, nodes, c, h, key, keys, nextp, rootp, parentp, r, p_r)
    modifies tree`root, nodes
    ensures fresh(q) && q.key == key
    ensures Described(tree, nodes + {q}, c2, t2, Before(c) + [key] + After(c))
  {
    ghost var leaf;
    if nextp != rootp {
      ghost var o;
      q, o, leaf := AddBelow(tree, nodes, c, h, key, nextp, rootp, parentp, r, p_r);
      c2, t2 := CtxAfter(c, o), TreeAfter(c, leaf, o);
    } else {
      q, leaf := LinkLeaf(tree, nodes, c, nextp, key);
      c2, t2 := c, leaf;
      assert Keys(leaf) == [key];
      assert ZipRedBlack(c, leaf, h);
    }
  }

  /** Finds the node with the given key, or adds one. A null result means that the key is not in the
      tree and that there was no memory for a new node. */
  method SearchOrAdd(key: int, tree: Tree, granted: bool) returns (q: Node?)
    requires tree.Valid()
    modifies tree, tree.nodes
    ensures tree.Valid() && fresh(tree.nodes - old(tree.nodes))
    ensures q == null <==> !granted && key !in old(tree.Contents())
    ensures SetOf(tree.Contents()) == SetOf(old(tree.Contents())) + (if q == null then {} else {key})
    ensures q != null ==> q.key == key && q in tree.nodes
  {
    ghost var h0 := BlackenRoot(tree);
    ghost var nodes, keys := tree.nodes, tree.Contents();
    var nextp, rootp, parentp, r, p_r;
    ghost var c, t, h;
    q, nextp, rootp, parentp, r, p_r, c, t, h := Search(tree, nodes, tree.shape, h0, key, keys);
    if q != null {
      Conclude(tree, nodes, c, t, keys);
      return;
    }
    q := AddIfGranted(tree, nodes, granted, c, h, key, keys, nextp, rootp, parentp, r, p_r);
  }

  method AddIfGranted(tree: Tree, ghost nodes: set<Node>, granted: bool, ghost c: Ctx, ghost h: nat, key: int,
                      ghost keys: seq<int>, nextp: Slot, rootp: Slot, parentp: SlotPtr, r: int, p_r: int)
    returns (q: Node?)
    requires PlaceFound(tree, nodes, c, h, key, keys, nextp, rootp, parentp, r, p_r) && Sorted(keys)
    modifies tree, nodes
    ensures tree.Valid() && fresh(tree.nodes - nodes)
    ensures (q == null <==> !granted) && key !in keys
    ensures SetOf(tree.Contents()) == SetOf(keys) + (if q == null then {} else {key})
    ensures q != null ==> q.key == key && q in tree.nodes
  {
    NotAmong(c, key);
    if granted {
      q := AddNew(tree, nodes, c, h, key, keys, nextp, rootp, parentp, r, p_r);
    } else {
      GiveUp(tree, nodes, c, h, keys);
      q := null;
    }
  }

  /** Nothing was added, although nodes may have been split on the way. */
  ghost method GiveUp(tree: Tree, nodes: set<Node>, c: Ctx, h: nat, keys: seq<int>)
    requires Zip(tree, nodes, c, E) && ZipRedBlack(c, E, h) && Before(c) + After(c) == keys && Sorted(keys)
    modifies tree`nodes, tree`shape
    ensures tree.Valid() && tree.Contents() == keys && tree.nodes == nodes
  {
    assert Before(c) + Keys(E) + After(c) == keys;
    Conclude(tree, nodes, c, E, keys);
  }

  method AddNew(tree: Tree, ghost nodes: set<Node>, ghost c: Ctx, ghost h: nat, key: int, ghost keys: seq<int>,
                nextp: Slot, rootp: Slot, parentp: SlotPtr, r: int, p_r: int)
    returns (q: Node)
    requires PlaceFound(tree, nodes, c, h, key, keys, nextp, rootp, parentp, r, p_r) && Sorted(keys)
    modifies tree, nodes
    ensures fresh(q) && q.key == key && tree.nodes == nodes + {q}
    ensures tree.Valid() && SetOf(tree.Contents()) == SetOf(keys) + {key}
  {
    SortedInsert(Before(c), key, After(c));
    InsertedKeys(Before(c), key, After(c));
    ghost var c2, t2;
    q, c2, t2 := AddAt(tree, nodes, c, h, key, keys, nextp, rootp, parentp, r, p_r);
    Conclude(tree, nodes + {q}, c2, t2, Before(c) + [key] + After(c));
  }

  method Tsearch(key: int, vrootp: Tree?, granted: bool) returns (q: Node?)
    requires vrootp != null ==> vrootp.Valid()
    modifies vrootp, if vrootp != null then vrootp.nodes else {}
    ensures vrootp == null ==> q == null
    ensures vrootp != null ==> vrootp.Valid() && fresh(vrootp.nodes - old(vrootp.nodes))
    ensures vrootp != null ==> (q == null <==> !granted && key !in old(vrootp.Contents()))
    ensures vrootp != null ==>
              SetOf(vrootp.Contents()) == SetOf(old(vrootp.Contents())) + (if q == null then {} else {key})
    ensures q != null ==> q.key == key && q in vrootp.nodes
  {
    if vrootp == null {
      return null;
    }
    q := SearchOrAdd(key, vrootp, granted);
  }

  // ------------------------------------------------------------------------
  // tfind
  // ------------------------------------------------------------------------

  /** A search that changes nothing has reached the focus (c, t). */
  ghost predicate Walking(tree: Tree, nodes: set<Node>, c: Ctx, t: T, key: int, keys: seq<int>)
    reads tree`root, nodes
  {
    && Zip(tree, nodes, c, t)
    && Between(c, key) && Sorted(Keys(t))
    && Before(c) + Keys(t) + After(c) == keys
  }

  lemma WalkStart(tree: Tree)
    requires tree.Valid()
    ensures forall key :: Walking(tree, tree.nodes, Top, tree.shape, key, tree.Contents())
  {
    assert Before(Top) + Keys(tree.shape) + After(Top) == tree.Contents();
  }

  /** A step down of a search. */
  lemma WalkDown(tree: Tree, nodes: set<Node>, c: Ctx, t: T, key: int, keys: seq<int>)
    requires Walking(tree, nodes, c, t, key, keys) && t.B? && key != t.key
    ensures var s := Way(Compare(key, t.key));
            Walking(tree, nodes, Down(c, t, s), Sub(t, s), key, keys)
  {
    var s := Way(Compare(key, t.key));
    DownBetween(c, t, key, s);
    SubSorted(t, s);
    DownKeys(c, t, s);
    DownZip(Snapshot(nodes), tree.root, c, t, s);
  }

  lemma WalkHere(tree: Tree, nodes: set<Node>, c: Ctx, t: T, key: int, keys: seq<int>)
    requires Walking(tree, nodes, c, t, key, keys)
    ensures SlotOf(tree, c).Read() == Root(t)
    ensures t.B? ==> t.node in nodes && t.node.key == t.key && t.key in keys
    ensures t.B? ==> t.node.left == Root(t.left) && t.node.right == Root(t.right)
    ensures t.E? ==> key !in keys
  {
    SlotHolds(tree, nodes, c, t);
    if t.B? {
      FoundKey(c, t);
    } else {
      NotAmong(c, key);
      assert keys == Before(c) + After(c);
    }
  }

  /** Finds the node with the given key. */
  method Find(key: int, tree: Tree) returns (q: Node?)
    requires tree.Valid()
    ensures q != null ==> q in tree.nodes && q.key == key
    ensures q != null <==> key in tree.Contents()
  {
    ghost var c, t, nodes, keys := Top, tree.shape, tree.nodes, tree.Contents();
    var rootp := RootSlot(tree);
    WalkStart(tree);
    WalkHere(tree, nodes, c, t, key, keys);
    while rootp.Read() != null
      invariant Walking(tree, nodes, c, t, key, keys)
      invariant rootp == SlotOf(tree, c) && rootp.Read() == Root(t)
      decreases t
    {
      WalkHere(tree, nodes, c, t, key, keys);
      var root := rootp.Read();
      var r := Compare(key, root.key);
      if r == 0 {
        return root;
      }
      WalkDown(tree, nodes, c, t, key, keys);
      c, t := Down(c, t, Way(r)), Sub(t, Way(r));
      rootp := ChildSlot(root, Way(r));
      WalkHere(tree, nodes, c, t, key, keys);
    }
    WalkHere(tree, nodes, c, t, key, keys);
    q := null;
  }

  method Tfind(key: int, vrootp: Tree?) returns (q: Node?)
    requires vrootp != null ==> vrootp.Valid()
    ensures q != null ==> vrootp != null && q in vrootp.nodes && q.key == key
    ensures vrootp != null ==> (q != null <==> key in vrootp.Contents())
  {
    if vrootp == null {
      return null;
    }
    q := Find(key, vrootp);
  }
}
