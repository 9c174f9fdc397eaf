/** Red/black trees as values: shapes with the node objects that make them up, and zippers into them. */
module TreeShape {

  datatype Side = Left | Right

  function Other(s: Side): Side {
    if s == Left then Right else Left
  }

  /** A tree node. */
  class Node {
    var key: int
    var left: Node?
    var right: Node?
    var red: bool

    constructor (k: int)
      ensures key == k && red && left == null && right == null
    {
      key, red, left, right := k, true, null, null;
    }

    function Child(s: Side): Node?
      reads this
    {
      if s == Left then left else right
    }
  }

  /** The contents of a subtree: E is the null pointer. */
  datatype T = E | B(node: Node, red: bool, left: T, key: int, right: T)

  /** The surroundings of a subtree: In says that the subtree is the child of node on the given side. */
  datatype Ctx = Top | In(side: Side, node: Node, red: bool, key: int, sibling: T, up: Ctx)

  function Root(t: T): Node? {
    if t.E? then null else t.node
  }

  function Sub(t: T, s: Side): T
    requires t.B?
  {
    if s == Left then t.left else t.right
  }

  /** The tree at node with subtree a on side s and subtree b on the other side. */
  function Make(s: Side, node: Node, red: bool, a: T, key: int, b: T): T {
    if s == Left then B(node, red, a, key, b) else B(node, red, b, key, a)
  }

  /** Fills a subtree into its surroundings. */
  ghost function Plug(c: Ctx, t: T): T {
    match c
    case Top => t
    case In(s, n, red, k, sib, up) => Plug(up, Make(s, n, red, t, k, sib))
  }

  /** Moves from a subtree to its child on side s. */
  ghost function Down(c: Ctx, t: T, s: Side): Ctx
    requires t.B?
  {
    In(s, t.node, t.red, t.key, Sub(t, Other(s)), c)
  }

  // ------------------------------------------------------------------------
  // Search order
  // ------------------------------------------------------------------------

  /** The keys in order. */
  ghost function Keys(t: T): seq<int> {
    match t
    case E => []
    case B(_, _, l, k, r) => Keys(l) + [k] + Keys(r)
  }

  /** The keys in front of the focus, in order. */
  ghost function Before(c: Ctx): seq<int> {
    match c
    case Top => []
    case In(s, _, _, k, sib, up) => if s == Left then Before(up) else Before(up) + Keys(sib) + [k]
  }

  /** The keys behind the focus, in order. */
  ghost function After(c: Ctx): seq<int> {
    match c
    case Top => []
    case In(s, _, _, k, sib, up) => if s == Left then [k] + Keys(sib) + After(up) else After(up)
  }

  lemma {:induction false} PlugKeys(c: Ctx, t: T)
    ensures Keys(Plug(c, t)) == Before(c) + Keys(t) + After(c)
  {
    match c
    case Top =>
    case In(s, n, red, k, sib, up) =>
      PlugKeys(up, Make(s, n, red, t, k, sib));
      if s == Left {
        Regroup(Before(up), Keys(t), [k], Keys(sib), After(up));
      } else {
        Regroup(Before(up), Keys(sib), [k], Keys(t), After(up));
      }
  }

  lemma Regroup(a: seq<int>, b: seq<int>, c: seq<int>, d: seq<int>, e: seq<int>)
    ensures a + (b + c + d) + e == a + b + (c + d + e) == (a + b + c) + d + e
  {
  }

  lemma DownKeys(c: Ctx, t: T, s: Side)
    requires t.B?
    ensures Before(Down(c, t, s)) + Keys(Sub(t, s)) + After(Down(c, t, s)) == Before(c) + Keys(t) + After(c)
  {
    Regroup(Before(c), Keys(t.left), [t.key], Keys(t.right), After(c));
  }

  ghost predicate Sorted(s: seq<int>) {
    forall i, j :: 0 <= i < j < |s| ==> s[i] < s[j]
  }

  /** x belongs between the keys before and behind the focus. */
  ghost predicate Between(c: Ctx, x: int) {
    && (forall k :: k in Before(c) ==> k < x)
    && (forall k :: k in After(c) ==> x < k)
  }

  lemma DownBetween(c: Ctx, t: T, x: int, s: Side)
    requires t.B? && Between(c, x) && Sorted(Keys(t))
    requires if s == Left then x < t.key else t.key < x
    ensures Between(Down(c, t, s), x)
  {
    var l, r := Keys(t.left), Keys(t.right);
    var ks := l + [t.key] + r;
    assert ks[|l|] == t.key;
    if s == Left {
      forall k | k in r ensures x < k {
        var i :| 0 <= i < |r| && r[i] == k;
        assert ks[|l| + 1 + i] == k;
      }
    } else {
      forall k | k in l ensures k < x {
        var i :| 0 <= i < |l| && l[i] == k;
        assert ks[i] == k;
      }
    }
  }

  lemma SortedParts(a: seq<int>, k: int, b: seq<int>)
    requires Sorted(a + [k] + b)
    ensures Sorted(a) && Sorted(b)
    ensures forall x :: x in a ==> x < k
    ensures forall x :: x in b ==> k < x
  {
    var s := a + [k] + b;
    assert forall i :: 0 <= i < |a| ==> s[i] == a[i];
    assert s[|a|] == k;
    assert forall i :: 0 <= i < |b| ==> s[|a| + 1 + i] == b[i];
    forall i, j | 0 <= i < j < |b| ensures b[i] < b[j] {
      assert s[|a| + 1 + i] < s[|a| + 1 + j];
    }
    forall x | x in b ensures k < x {
      var i :| 0 <= i < |b| && b[i] == x;
      assert s[|a|] < s[|a| + 1 + i];
    }
  }

  lemma SubSorted(t: T, s: Side)
    requires t.B? && Sorted(Keys(t))
    ensures Sorted(Keys(Sub(t, s)))
    ensures forall k :: k in Keys(t.left) ==> k < t.key
    ensures forall k :: k in Keys(t.right) ==> t.key < k
  {
    SortedParts(Keys(t.left), t.key, Keys(t.right));
  }

  /** Inserting x at an empty place keeps the order. */
  lemma SortedInsert(a: seq<int>, x: int, b: seq<int>)
    requires Sorted(a + b)
    requires forall k :: k in a ==> k < x
    requires forall k :: k in b ==> x < k
    ensures Sorted(a + [x] + b)
  {
    var s, t := a + b, a + [x] + b;
    forall i, j | 0 <= i < j < |t| ensures t[i] < t[j] {
      if i < |a| && j > |a| {
        assert t[i] == a[i] && t[j] == b[j - |a| - 1];
        assert t[i] in a && t[j] in b;
      } else if j < |a| {
        assert t[i] == s[i] && t[j] == s[j];
      } else if i > |a| {
        assert t[i] == s[i - 1] && t[j] == s[j - 1];
      } else if i == |a| {
        assert t[j] == b[j - |a| - 1] && t[j] in b;
      } else {
        assert t[i] == a[i] && t[i] in a;
      }
    }
  }

  /** Removing x keeps the order. */
  lemma SortedRemove(a: seq<int>, x: int, b: seq<int>)
    requires Sorted(a + [x] + b)
    ensures Sorted(a + b)
    ensures x !in a && x !in b
  {
    var s, t := a + [x] + b, a + b;
    SortedParts(a, x, b);
    forall i, j | 0 <= i < j < |t| ensures t[i] < t[j] {
      assert t[i] == s[if i < |a| then i else i + 1];
      assert t[j] == s[if j < |a| then j else j + 1];
    }
  }

  // ------------------------------------------------------------------------
  // Colours
  // ------------------------------------------------------------------------

  ghost predicate Black(t: T) {
    t.E? || !t.red
  }

  /** Every path down to a null pointer meets h black nodes. */
  ghost predicate Balanced(t: T, h: nat) {
    match t
    case E => h == 0
    case B(_, red, l, _, r) =>
      if red then Balanced(l, h) && Balanced(r, h) else h > 0 && Balanced(l, h - 1) && Balanced(r, h - 1)
  }

  /** No red node has a red child. */
  ghost predicate NoRedRed(t: T) {
    t.B? ==> (t.red ==> Black(t.left) && Black(t.right)) && NoRedRed(t.left) && NoRedRed(t.right)
  }

  /** The surroundings are balanced around a subtree of black height h. */
  ghost predicate CtxBalanced(c: Ctx, h: nat) {
    match c
    case Top => true
    case In(_, _, red, _, sib, up) => Balanced(sib, h) && CtxBalanced(up, if red then h else h + 1)
  }

  /** No red node in the surroundings has a red child, when the focus is red as given. */
  ghost predicate CtxNoRedRed(c: Ctx, red: bool) {
    match c
    case Top => true
    case In(_, _, r, _, sib, up) => (r ==> !red && Black(sib)) && NoRedRed(sib) && CtxNoRedRed(up, r)
  }

  /** A red/black tree; its root may be red. */
  ghost predicate RedBlack(t: T) {
    NoRedRed(t) && exists h: nat :: Balanced(t, h)
  }

  /** The red/black invariants of a tree seen from one of its subtrees. */
  ghost predicate ZipRedBlack(c: Ctx, t: T, h: nat) {
    && Balanced(t, h) && CtxBalanced(c, h)
    && NoRedRed(t) && CtxNoRedRed(c, !Black(t))
  }

  lemma {:induction false} PlugRedBlack(c: Ctx, t: T, h: nat)
    requires ZipRedBlack(c, t, h)
    ensures RedBlack(Plug(c, t))
  {
    match c
    case Top =>
    case In(s, n, red, k, sib, up) =>
      PlugRedBlack(up, Make(s, n, red, t, k, sib), if red then h else h + 1);
  }

  lemma DownRedBlack(c: Ctx, t: T, h: nat, s: Side) returns (h': nat)
    requires t.B? && ZipRedBlack(c, t, h)
    ensures ZipRedBlack(Down(c, t, s), Sub(t, s), h')
    ensures h' == if t.red then h else h - 1
  {
    h' := if t.red then h else h - 1;
  }

  // ------------------------------------------------------------------------
  // Node objects
  // ------------------------------------------------------------------------

  ghost function Nodes(t: T): set<Node> {
    match t
    case E => {}
    case B(n, _, l, _, r) => Nodes(l) + {n} + Nodes(r)
  }

  ghost function CtxNodes(c: Ctx): set<Node> {
    match c
    case Top => {}
    case In(_, n, _, _, sib, up) => CtxNodes(up) + {n} + Nodes(sib)
  }

  /** No node occurs twice. */
  ghost predicate Distinct(t: T) {
    match t
    case E => true
    case B(n, _, l, _, r) =>
      n !in Nodes(l) && n !in Nodes(r) && Nodes(l) !! Nodes(r) && Distinct(l) && Distinct(r)
  }

  ghost predicate CtxDistinct(c: Ctx) {
    match c
    case Top => true
    case In(_, n, _, _, sib, up) =>
      n !in Nodes(sib) && n !in CtxNodes(up) && Nodes(sib) !! CtxNodes(up) && Distinct(sib) && CtxDistinct(up)
  }

  ghost predicate ZipDistinct(c: Ctx, t: T) {
    CtxDistinct(c) && Distinct(t) && Nodes(t) !! CtxNodes(c)
  }
}
