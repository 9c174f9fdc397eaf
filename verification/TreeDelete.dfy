/** tdelete: removing a key with an explicit stack of slots. */
module TreeDelete {
  import opened TreeShape
  import opened TreeHeap
  import opened TreeSplit
  import opened TreeInsert
  import opened TreeHeight
  import opened TreeRepair
  import opened TreeFixup
  import opened TreeUnchain

  /** The focus (c, t) of a search with the slots above it on the stack. The stack has room for all of them. */
  ghost predicate Reached(tree: Tree, c: Ctx, t: T, h: nat, keys: seq<int>, stack: seq<Slot>) {
    && ZipRedBlack(c, t, h)
    && Before(c) + Keys(t) + After(c) == keys
    && |keys| < Pow2(48)
    && StackIs(stack, tree, c)
  }

  lemma ReachedFits(tree: Tree, c: Ctx, t: T, h: nat, keys: seq<int>, stack: seq<Slot>)
    requires Reached(tree, c, t, h, keys, stack)
    ensures |stack| <= 97
  {
    PathBound(c, t, h);
    StackDepth(stack, tree, c);
  }

  lemma ReachedDown(tree: Tree, c: Ctx, t: T, h: nat, keys: seq<int>, stack: seq<Slot>, stack': seq<Slot>, s: Side)
    returns (h': nat)
    requires t.B? && Reached(tree, c, t, h, keys, stack) && stack' == stack + [SlotOf(tree, c)]
    ensures Reached(tree, Down(c, t, s), Sub(t, s), h', keys, stack')
    ensures |stack| < 97
  {
    h' := DownRedBlack(c, t, h, s);
    DownKeys(c, t, s);
    StackPush(stack, stack', tree, Down(c, t, s));
    ReachedFits(tree, Down(c, t, s), Sub(t, s), h', keys, stack');
  }

  /** Pushes a slot, with the test that would abort. */
  method Push(nodestack: array<Slot>, sp: nat, slot: Slot) returns (sp': nat)
    requires nodestack.Length == 100 && sp <= 97
    modifies nodestack
    ensures sp' == sp + 1 && nodestack[..sp'] == old(nodestack[..sp]) + [slot]
  {
    if sp == nodestack.Length {
      assert false;
    }
    nodestack[sp] := slot;
    sp' := sp + 1;
  }

  /** The search for key has reached (c, t). */
  ghost predicate OnPath(heap: map<Node, Cell>, root: Node?, tree: Tree, c: Ctx, t: T, h: nat, key: int, keys: seq<int>,
                         stack: seq<Slot>)
  {
    ZipHolds(heap, root, c, t) && Between(c, key) && Sorted(Keys(t)) && Reached(tree, c, t, h, keys, stack)
  }

  lemma PathDown(tree: Tree, nodes: set<Node>, c: Ctx, t: T, h: nat, key: int, keys: seq<int>, stack: seq<Slot>,
                 stack': seq<Slot>)
    returns (h': nat)
    requires OnPath(Snapshot(nodes), tree.root, tree, c, t, h, key, keys, stack)
    requires t.B? && key != t.key && stack' == stack + [SlotOf(tree, c)]
    ensures var s := Way(Compare(key, t.key));
            OnPath(Snapshot(nodes), tree.root, tree, Down(c, t, s), Sub(t, s), h', key, keys, stack')
    ensures |stack| < 97
  {
    var s := Way(Compare(key, t.key));
    WalkDown(tree, nodes, c, t, key, keys);
    h' := ReachedDown(tree, c, t, h, keys, stack, stack', s);
  }

  lemma PathHere(tree: Tree, nodes: set<Node>, c: Ctx, t: T, h: nat, key: int, keys: seq<int>, stack: seq<Slot>)
    requires OnPath(Snapshot(nodes), tree.root, tree, c, t, h, key, keys, stack)
    ensures SlotOf(tree, c).Read() == Root(t) && (t.B? ==> t.node.key == t.key)
    ensures t.E? ==> key !in keys
    ensures t.B? && t.key == key ==> key in keys
  {
    WalkHere(tree, nodes, c, t, key, keys);
  }

  /** The search loop: it stacks the slots of all nodes above the key. */
  method Locate(tree: Tree, ghost nodes: set<Node>, ghost t0: T, ghost h0: nat, key: int, ghost keys: seq<int>,
                nodestack: array<Slot>, p0: Node)
    returns (found: bool, p: Node, rootp: Slot, sp: nat, ghost c: Ctx, ghost t: T, ghost h: nat)
    requires nodestack.Length == 100 && t0.B? && p0 == t0.node
    requires OnPath(Snapshot(nodes), tree.root, tree, Top, t0, h0, key, keys, [])
    modifies nodestack
    ensures sp <= 97 && OnPath(Snapshot(nodes), tree.root, tree, c, t, h, key, keys, nodestack[..sp])
    ensures rootp == SlotOf(tree, c) && p == if c.In? then c.node else p0
    ensures found <==> key in keys
    ensures found ==> t.B? && t.key == key
  {
    c, t, h := Top, t0, h0;
    rootp, sp, p, found := RootSlot(tree), 0, p0, true;
    ghost var heap := Snapshot(nodes);
    assert nodestack[..sp] == [];
    PathHere(tree, nodes, c, t, h, key, keys, []);
    var cmp := Compare(key, rootp.Read().key);
    while cmp != 0
      invariant sp <= 97 && t.B? && found
      invariant Snapshot(nodes) == heap && OnPath(heap, tree.root, tree, c, t, h, key, keys, nodestack[..sp])
      invariant rootp == SlotOf(tree, c) && p == if c.In? then c.node else p0
      invariant cmp == Compare(key, t.key)
      decreases t
    {
      PathHere(tree, nodes, c, t, h, key, keys, nodestack[..sp]);
      ghost var stack := nodestack[..sp];
      sp := Push(nodestack, sp, rootp);
      p := rootp.Read();
      rootp := ChildSlot(p, Way(cmp));
      h := PathDown(tree, nodes, c, t, h, key, keys, stack, nodestack[..sp]);
      c, t := Down(c, t, Way(cmp)), Sub(t, Way(cmp));
      PathHere(tree, nodes, c, t, h, key, keys, nodestack[..sp]);
      if rootp.Read() == null {
        found := false;
        return;
      }
      cmp := Compare(key, rootp.Read().key);
    }
    PathHere(tree, nodes, c, t, h, key, keys, nodestack[..sp]);
  }

  /** The walk from the node at (c, t) to its successor has reached (uc, ut); stack includes the slot of ut's parent. */
  ghost predicate OnSpine(heap: map<Node, Cell>, root: Node?, tree: Tree, c: Ctx, t: T, uc: Ctx, ut: T, uh: nat,
                          keys: seq<int>, stack: seq<Slot>)
  {
    && t.B? && ZipHolds(heap, root, uc, ut) && LeftSpine(uc, Down(c, t, Right))
    && Reached(tree, uc, ut, uh, keys, stack)
  }

  lemma SpineStart(tree: Tree, nodes: set<Node>, c: Ctx, t: T, h: nat, keys: seq<int>, stack: seq<Slot>,
                   stack': seq<Slot>)
    returns (uh: nat)
    requires t.B? && Zip(tree, nodes, c, t) && Reached(tree, c, t, h, keys, stack)
               && stack' == stack + [SlotOf(tree, c)]
    ensures OnSpine(Snapshot(nodes), tree.root, tree, c, t, Down(c, t, Right), t.right, uh, keys, stack')
    ensures ChildSlot(t.node, Right).Read() == Root(t.right) && |stack| < 97
  {
    DownZip(Snapshot(nodes), tree.root, c, t, Right);
    uh := ReachedDown(tree, c, t, h, keys, stack, stack', Right);
    SlotHolds(tree, nodes, Down(c, t, Right), t.right);
  }

  lemma SpineDown(tree: Tree, nodes: set<Node>, c: Ctx, t: T, uc: Ctx, ut: T, uh: nat, keys: seq<int>, stack: seq<Slot>,
                  stack': seq<Slot>)
    returns (uh': nat)
    requires OnSpine(Snapshot(nodes), tree.root, tree, c, t, uc, ut, uh, keys, stack) && ut.B?
               && stack' == stack + [SlotOf(tree, uc)]
    ensures OnSpine(Snapshot(nodes), tree.root, tree, c, t, Down(uc, ut, Left), ut.left, uh', keys, stack')
    ensures ChildSlot(ut.node, Left).Read() == Root(ut.left) && |stack| < 97
  {
    DownZip(Snapshot(nodes), tree.root, uc, ut, Left);
    uh' := ReachedDown(tree, uc, ut, uh, keys, stack, stack', Left);
    SlotHolds(tree, nodes, Down(uc, ut, Left), ut.left);
  }

  lemma SpineHere(tree: Tree, nodes: set<Node>, c: Ctx, t: T, uc: Ctx, ut: T, uh: nat, keys: seq<int>, stack: seq<Slot>)
    requires OnSpine(Snapshot(nodes), tree.root, tree, c, t, uc, ut, uh, keys, stack) && ut.B?
    ensures SlotOf(tree, uc).Read() == ut.node && ut.node.left == Root(ut.left)
  {
    SlotHolds(tree, nodes, uc, ut);
    SubNodesHeld(Snapshot(nodes), ut);
  }

  /** The loop that follows the left successors, stacking the slot of every node it leaves. */
  method Leftmost(tree: Tree, ghost nodes: set<Node>, ghost c: Ctx, ghost t: T, ghost uc0: Ctx, ghost ut0: T,
                  ghost uh0: nat, ghost keys: seq<int>, nodestack: array<Slot>, sp0: nat, parent0: Slot, up0: Slot)
    returns (unchained: Node, sp: nat, ghost uc: Ctx, ghost ut: T, ghost uh: nat)
    requires nodestack.Length == 100 && sp0 < 97
    requires OnSpine(Snapshot(nodes), tree.root, tree, c, t, uc0, ut0, uh0, keys, nodestack[..sp0] + [parent0])
    requires ut0.B? && up0 == SlotOf(tree, uc0)
    modifies nodestack
    ensures 0 < sp <= 97 && OnSpine(Snapshot(nodes), tree.root, tree, c, t, uc, ut, uh, keys, nodestack[..sp])
    ensures ut.B? && ut.left.E? && unchained == ut.node
  {
    var parent, up := parent0, up0;
    sp := sp0;
    uc, ut, uh := uc0, ut0, uh0;
    ghost var heap, stack := Snapshot(nodes), nodestack[..sp] + [parent];
    while true
      invariant sp < 97 && nodestack[..sp] + [parent] == stack
      invariant Snapshot(nodes) == heap && OnSpine(heap, tree.root, tree, c, t, uc, ut, uh, keys, stack)
      invariant ut.B? && up == SlotOf(tree, uc)
      decreases ut
    {
      sp := Push(nodestack, sp, parent);
      parent := up;
      SpineHere(tree, nodes, c, t, uc, ut, uh, keys, stack);
      if up.Read().left == null {
        break;
      }
      up := ChildSlot(up.Read(), Left);
      uh := SpineDown(tree, nodes, c, t, uc, ut, uh, keys, stack, stack + [parent]);
      stack := stack + [parent];
      uc, ut := Down(uc, ut, Left), ut.left;
    }
    unchained := up.Read();
  }

  /** The walk to the successor, which is unchained in the place of a node with two children. */
  method Successor(tree: Tree, ghost nodes: set<Node>, ghost c: Ctx, ghost t: T, ghost h: nat, ghost keys: seq<int>,
                   nodestack: array<Slot>, sp0: nat, rootp: Slot, root: Node)
    returns (unchained: Node, sp: nat, ghost uc: Ctx, ghost ut: T, ghost uh: nat)
    requires nodestack.Length == 100 && sp0 <= 97
    requires Zip(tree, nodes, c, t) && Reached(tree, c, t, h, keys, nodestack[..sp0])
    requires t.B? && t.right.B? && root == t.node && rootp == SlotOf(tree, c)
    modifies nodestack
    ensures 0 < sp <= 97 && OnSpine(Snapshot(nodes), tree.root, tree, c, t, uc, ut, uh, keys, nodestack[..sp])
    ensures ut.B? && ut.left.E? && unchained == ut.node
  {
    ghost var uh0 := SpineStart(tree, nodes, c, t, h, keys, nodestack[..sp0], nodestack[..sp0] + [rootp]);
    unchained, sp, uc, ut, uh := Leftmost(tree, nodes, c, t, Down(c, t, Right), t.right, uh0, keys, nodestack, sp0,
                                          rootp, ChildSlot(root, Right));
  }

  /** The node ut to be unchained has been chosen: t itself, or the successor of t. */
  ghost predicate Chosen(heap: map<Node, Cell>, root: Node?, tree: Tree, c: Ctx, t: T, uc: Ctx, ut: T, uh: nat,
                         keys: seq<int>, stack: seq<Slot>)
  {
    && t.B? && OneChild(ut) && ZipHolds(heap, root, uc, ut) && Reached(tree, uc, ut, uh, keys, stack)
    && if ut.node == t.node then uc == c && ut == t else ut.left.E? && LeftSpine(uc, Down(c, t, Right))
  }

  /** The surroundings of the unchained node at the end. */
  ghost function NewCtx(t: T, uc: Ctx, ut: T): Ctx
    requires t.B? && ut.B?
  {
    if ut.node == t.node then uc else Rekeyed(uc, ut.key)
  }

  ghost function NewKeys(t: T, uc: Ctx, ut: T): seq<int>
    requires t.B? && ut.B?
  {
    Before(NewCtx(t, uc, ut)) + Keys(Remainder(ut)) + After(NewCtx(t, uc, ut))
  }

  /** Chooses the node to unchain: the one to delete if it has a null child, otherwise its successor. */
  method Choose(tree: Tree, ghost nodes: set<Node>, ghost c: Ctx, ghost t: T, ghost h: nat, ghost keys: seq<int>,
                nodestack: array<Slot>, sp0: nat, rootp: Slot, root: Node)
    returns (unchained: Node, sp: nat, ghost uc: Ctx, ghost ut: T, ghost uh: nat)
    requires nodestack.Length == 100 && sp0 <= 97
    requires Zip(tree, nodes, c, t) && Reached(tree, c, t, h, keys, nodestack[..sp0])
    requires t.B? && root == t.node && rootp == SlotOf(tree, c)
    modifies nodestack
    ensures sp <= 97 && Chosen(Snapshot(nodes), tree.root, tree, c, t, uc, ut, uh, keys, nodestack[..sp])
    ensures unchained == ut.node
    ensures sp == 0 ==> rootp == RootSlot(tree)
  {
    SubNodesHeld(Snapshot(nodes), t);
    if root.left == null || root.right == null {
      unchained, sp, uc, ut, uh := root, sp0, c, t, h;
    } else {
      unchained, sp, uc, ut, uh := Successor(tree, nodes, c, t, h, keys, nodestack, sp0, rootp, root);
      SpineNode(uc, Down(c, t, Right));
      assert ut.node in Nodes(ut);
    }
  }

  lemma NewKeysRemoved(heap: map<Node, Cell>, root: Node?, tree: Tree, c: Ctx, t: T, uc: Ctx, ut: T, uh: nat,
                       keys: seq<int>, stack: seq<Slot>)
    requires Chosen(heap, root, tree, c, t, uc, ut, uh, keys, stack)
    ensures Removed(keys, t.key, NewKeys(t, uc, ut))
  {
    if ut.node == t.node {
      RemovedHere(c, t);
    } else {
      RemovedAbove(uc, ut, Down(c, t, Right));
    }
  }

  lemma NewColours(heap: map<Node, Cell>, root: Node?, tree: Tree, c: Ctx, t: T, uc: Ctx, ut: T, uh: nat,
                   keys: seq<int>, stack: seq<Slot>)
    requires Chosen(heap, root, tree, c, t, uc, ut, uh, keys, stack)
    ensures !ut.red ==> uh > 0 && Deficient(NewCtx(t, uc, ut), Remainder(ut), uh - 1)
    ensures ut.red ==> ZipRedBlack(NewCtx(t, uc, ut), Remainder(ut), uh)
    ensures StackIs(stack, tree, NewCtx(t, uc, ut))
  {
    UnchainedColours(uc, ut, uh);
    RekeyedColours(uc, ut.key, uh, !Black(Remainder(ut)));
    RekeyedColours(uc, ut.key, uh, false);
    RekeyedStack(stack, tree, uc, ut.key);
  }

  /** Unchains the chosen node and moves its key to the node to be deleted. */
  method TakeOut(tree: Tree, ghost nodes: set<Node>, ghost c: Ctx, ghost t: T, ghost uc: Ctx, ghost ut: T,
                 ghost uh: nat, ghost keys: seq<int>, nodestack: array<Slot>, sp: nat, rootp: Slot, root: Node,
                 unchained: Node)
    returns (r: Node?)
    requires sp <= nodestack.Length && Chosen(Snapshot(nodes), tree.root, tree, c, t, uc, ut, uh, keys, nodestack[..sp])
    requires root == t.node && unchained == ut.node && (sp == 0 ==> rootp == RootSlot(tree))
    modifies tree`root, nodes
    ensures r == Root(Remainder(ut)) && Zip(tree, nodes - {unchained}, NewCtx(t, uc, ut), Remainder(ut))
    ensures unchained.red == ut.red
  {
    SubNodesHeld(Snapshot(nodes), ut);
    r := Unchain(tree, nodes, uc, ut, unchained, rootp, nodestack, sp);
    if unchained != root {
      CopyKey(tree, nodes - {unchained}, uc, Down(c, t, Right), Remainder(ut), root, unchained.key);
    }
  }

  /** Chooses a node and unchains it. If it was black, the tree needs the fix-up. */
  method Extract(tree: Tree, ghost nodes: set<Node>, ghost c: Ctx, ghost t: T, ghost h: nat, ghost keys: seq<int>,
                 nodestack: array<Slot>, sp0: nat, rootp: Slot, root: Node)
    returns (unchained: Node, r: Node?, sp: nat, ghost c': Ctx, ghost t': T, ghost h': nat, ghost keys': seq<int>)
    requires nodestack.Length == 100 && sp0 <= 97 && t.B?
    requires Zip(tree, nodes, c, t) && Reached(tree, c, t, h, keys, nodestack[..sp0])
    requires root == t.node && rootp == SlotOf(tree, c)
    modifies tree`root, nodes, nodestack
    ensures sp <= 97 && Removed(keys, t.key, keys')
    ensures unchained.red ==> Described(tree, nodes - {unchained}, c', t', keys')
    ensures !unchained.red ==> Fixing(tree, nodes - {unchained}, c', t', h', keys', r, nodestack[..sp], false)
  {
    ghost var uc, ut, uh;
    unchained, sp, uc, ut, uh := Choose(tree, nodes, c, t, h, keys, nodestack, sp0, rootp, root);
    ghost var stack := nodestack[..sp];
    NewKeysRemoved(Snapshot(nodes), tree.root, tree, c, t, uc, ut, uh, keys, stack);
    NewColours(Snapshot(nodes), tree.root, tree, c, t, uc, ut, uh, keys, stack);
    c', t', keys' := NewCtx(t, uc, ut), Remainder(ut), NewKeys(t, uc, ut);
    h' := if ut.red then uh else uh - 1;
    r := TakeOut(tree, nodes, c, t, uc, ut, uh, keys, nodestack, sp, rootp, root, unchained);
    assert nodestack[..sp] == stack;
  }

  /** Takes the key at the focus out of the tree. */
  method Remove(tree: Tree, ghost nodes: set<Node>, ghost c: Ctx, ghost t: T, ghost h: nat, ghost keys: seq<int>,
                nodestack: array<Slot>, sp0: nat, rootp: Slot)
    returns (ghost nodes': set<Node>, ghost c': Ctx, ghost t': T, ghost keys': seq<int>)
    requires nodestack.Length == 100 && sp0 <= 97 && t.B?
    requires Zip(tree, nodes, c, t) && Reached(tree, c, t, h, keys, nodestack[..sp0]) && rootp == SlotOf(tree, c)
    modifies tree`root, nodes, nodestack
    ensures nodes' <= nodes && Described(tree, nodes', c', t', keys') && Removed(keys, t.key, keys')
  {
    SlotHolds(tree, nodes, c, t);
    var unchained, r, sp;
    ghost var h';
    unchained, r, sp, c', t', h', keys' := Extract(tree, nodes, c, t, h, keys, nodestack, sp0, rootp, rootp.Read());
    nodes' := nodes - {unchained};
    if !unchained.red {
      c', t' := Fixup(tree, nodes', c', t', h', keys', r, nodestack, sp);
    }
  }

  /** What tdelete returns: the root node if it holds the key, or else the parent of the node that does. */
  ghost predicate ParentOfKey(tree: Tree, q: Node, key: int)
    reads tree, tree.nodes
  {
    && q in tree.nodes
    && if q.key == key then q == tree.root
       else exists child :: child in tree.nodes && (child == q.left || child == q.right) && child.key == key
  }

  lemma FrameKey(c: Ctx)
    requires c.In?
    ensures c.key in Before(c) || c.key in After(c)
  {
    if c.side == Left {
      assert c.key == After(c)[0];
    } else {
      assert c.key == Before(c)[|Before(c)| - 1];
    }
  }

  lemma ParentFound(tree: Tree, nodes: set<Node>, c: Ctx, t: T, h: nat, key: int, keys: seq<int>, stack: seq<Slot>,
                    q: Node)
    requires tree.nodes == nodes && Sorted(keys)
    requires OnPath(Snapshot(nodes), tree.root, tree, c, t, h, key, keys, stack) && t.B? && t.key == key
    requires if c.In? then q == c.node else q == t.node
    ensures ParentOfKey(tree, q, key)
  {
    SubNodesHeld(Snapshot(nodes), t);
    if c.In? {
      FrameKey(c);
      assert t.node in nodes && (t.node == q.left || t.node == q.right) && t.node.key == key;
    }
  }

  lemma StartPath(tree: Tree, h0: nat, key: int)
    requires tree.Valid() && Balanced(tree.shape, h0) && |tree.Contents()| < Pow2(48)
    ensures OnPath(Snapshot(tree.nodes), tree.root, tree, Top, tree.shape, h0, key, tree.Contents(), [])
  {
    assert Before(Top) + Keys(tree.shape) + After(Top) == tree.Contents();
  }

  /** The focus has been reached; the definition is sealed, and seen only where a lemma opens it. */
  ghost predicate SealedPath(heap: map<Node, Cell>, tree: Tree, c: Ctx, t: T, h: nat, key: int, keys: seq<int>,
                             stack: seq<Slot>, depth: nat)
    reads tree`root
  {
    if depth == 0 then
      OnPath(heap, tree.root, tree, c, t, h, key, keys, stack)
    else
      SealedPath(heap, tree, c, t, h, key, keys, stack, depth - 1)
  }

  lemma OpenPath(heap: map<Node, Cell>, tree: Tree, c: Ctx, t: T, h: nat, key: int, keys: seq<int>, stack: seq<Slot>)
    ensures SealedPath(heap, tree, c, t, h, key, keys, stack, 4)
            == OnPath(heap, tree.root, tree, c, t, h, key, keys, stack)
  {
    assert SealedPath(heap, tree, c, t, h, key, keys, stack, 3) == SealedPath(heap, tree, c, t, h, key, keys, stack, 2)
        == SealedPath(heap, tree, c, t, h, key, keys, stack, 1)
        == SealedPath(heap, tree, c, t, h, key, keys, stack, 0);
  }

  /** Removes the key found and records the new tree. */
  method RemoveFound(tree: Tree, ghost c0: Ctx, ghost t0: T, ghost h: nat, key: int, nodestack: array<Slot>, sp: nat,
                     rootp: Slot)
    requires nodestack.Length == 100 && sp <= 97 && Sorted(tree.Contents()) && t0.B? && t0.key == key
    requires SealedPath(Snapshot(tree.nodes), tree, c0, t0, h, key, tree.Contents(), nodestack[..sp], 4)
    requires rootp == SlotOf(tree, c0)
    modifies tree, tree.nodes, nodestack
    ensures tree.Valid() && tree.nodes <= old(tree.nodes)
    ensures SetOf(tree.Contents()) == SetOf(old(tree.Contents())) - {key}
  {
    OpenPath(Snapshot(tree.nodes), tree, c0, t0, h, key, tree.Contents(), nodestack[..sp]);
    ghost var nodes, c, t, keys;
    nodes, c, t, keys := Remove(tree, tree.nodes, c0, t0, h, tree.Contents(), nodestack, sp, rootp);
    RemovedMeans(tree.Contents(), key, keys);
    Conclude(tree, nodes, c, t, keys);
  }

  /** The search of tdelete in a tree that is not empty. */
  method Seek(tree: Tree, key: int, nodestack: array<Slot>, p0: Node)
    returns (found: bool, p: Node, rootp: Slot, sp: nat, ghost c: Ctx, ghost t: T, ghost h: nat)
    requires tree.Valid() && |tree.Contents()| < Pow2(48) && nodestack.Length == 100 && tree.root == p0
    modifies nodestack
    ensures sp <= 97 && SealedPath(Snapshot(tree.nodes), tree, c, t, h, key, tree.Contents(), nodestack[..sp], 4)
    ensures rootp == SlotOf(tree, c)
    ensures found <==> key in tree.Contents()
    ensures found ==> t.B? && t.key == key && ParentOfKey(tree, p, key)
  {
    ghost var h0: nat :| Balanced(tree.shape, h0);
    StartPath(tree, h0, key);
    found, p, rootp, sp, c, t, h := Locate(tree, tree.nodes, tree.shape, h0, key, tree.Contents(), nodestack, p0);
    if found {
      ParentFound(tree, tree.nodes, c, t, h, key, tree.Contents(), nodestack[..sp], p);
    }
    OpenPath(Snapshot(tree.nodes), tree, c, t, h, key, tree.Contents(), nodestack[..sp]);
  }

  /** Deletes the node with the given key from a tree that is not empty. */
  method DeleteKey(key: int, tree: Tree, nodestack: array<Slot>, p0: Node) returns (retval: Node?)
    requires tree.Valid() && |tree.Contents()| < Pow2(48) && nodestack.Length == 100 && tree.root == p0
    modifies tree, tree.nodes, nodestack
    ensures tree.Valid() && tree.nodes <= old(tree.nodes)
    ensures SetOf(tree.Contents()) == SetOf(old(tree.Contents())) - {key}
    ensures retval != null <==> key in old(tree.Contents())
    ensures retval != null ==> retval in old(tree.nodes) && old(ParentOfKey(tree, retval, key))
  {
    var found, p, rootp, sp;
    ghost var c, t, h;
    found, p, rootp, sp, c, t, h := Seek(tree, key, nodestack, p0);
    if !found {
      return null;
    }
    RemoveFound(tree, c, t, h, key, nodestack, sp, rootp);
    retval := p;
  }

  /** Deletes the node with the given key from a tree of fewer than 2^48 nodes. */
  method Tdelete(key: int, vrootp: Tree?) returns (retval: Node?)
    requires vrootp != null ==> vrootp.Valid() && |vrootp.Contents()| < Pow2(48)
    modifies vrootp, if vrootp != null then vrootp.nodes else {}
    ensures vrootp == null ==> retval == null
    ensures vrootp != null ==> vrootp.Valid() && vrootp.nodes <= old(vrootp.nodes)
    ensures vrootp != null ==> SetOf(vrootp.Contents()) == SetOf(old(vrootp.Contents())) - {key}
    ensures vrootp != null ==> (retval != null <==> key in old(vrootp.Contents()))
    ensures retval != null ==> vrootp != null && retval in old(vrootp.nodes) && old(ParentOfKey(vrootp, retval, key))
  {
    if vrootp == null {
      return null;
    }
    var p := vrootp.root;
    if p == null {
      return null;
    }
    var nodestack := new Slot[100](_ => RootSlot(vrootp));
    retval := DeleteKey(key, vrootp, nodestack, p);
  }
}
