/** The height of a red/black tree: why a stack of 100 slots is enough for 2^48 nodes. */
module TreeHeight {
  import opened TreeShape

  ghost function Pow2(n: nat): nat {
    if n == 0 then 1 else 2 * Pow2(n - 1)
  }

  lemma {:induction false} Pow2Monotone(m: nat, n: nat)
    requires m < n
    ensures Pow2(m) < Pow2(n)
  {
    if m + 1 < n {
      Pow2Monotone(m, n - 1);
    }
    Pow2Positive(n - 1);
  }

  lemma {:induction false} Pow2Positive(n: nat)
    ensures Pow2(n) > 0
  {
    if n > 0 {
      Pow2Positive(n - 1);
    }
  }

  /** A tree of black height h has at least 2^h - 1 nodes. */
  lemma {:induction false} SizeBound(t: T, h: nat)
    requires Balanced(t, h)
    ensures |Keys(t)| + 1 >= Pow2(h)
  {
    if t.B? {
      SizeBound(t.left, if t.red then h else h - 1);
      SizeBound(t.right, if t.red then h else h - 1);
    }
  }

  /** The number of nodes above the focus. */
  ghost function Depth(c: Ctx): nat {
    if c.Top? then 0 else Depth(c.up) + 1
  }

  /** The number of black nodes above the focus. */
  ghost function BlackDepth(c: Ctx): nat {
    if c.Top? then 0 else BlackDepth(c.up) + (if c.red then 0 else 1)
  }

  lemma {:induction false} PlugBalanced(c: Ctx, t: T, h: nat)
    requires Balanced(t, h) && CtxBalanced(c, h)
    ensures Balanced(Plug(c, t), h + BlackDepth(c))
  {
    if c.In? {
      PlugBalanced(c.up, Make(c.side, c.node, c.red, t, c.key, c.sibling), if c.red then h else h + 1);
    }
  }

  /** At least every second node on a path is black. */
  lemma {:induction false} DepthBound(c: Ctx, red: bool)
    requires CtxNoRedRed(c, red)
    ensures Depth(c) <= 2 * BlackDepth(c) + (if c.In? && c.red then 1 else 0)
  {
    if c.In? {
      DepthBound(c.up, c.red);
    }
  }

  /** With fewer than 2^48 nodes no path is longer than 97. */
  lemma PathBound(c: Ctx, t: T, h: nat)
    requires ZipRedBlack(c, t, h)
    requires |Before(c) + Keys(t) + After(c)| < Pow2(48)
    ensures Depth(c) <= 97
  {
    PlugBalanced(c, t, h);
    PlugKeys(c, t);
    SizeBound(Plug(c, t), h + BlackDepth(c));
    if h + BlackDepth(c) > 48 {
      Pow2Monotone(48, h + BlackDepth(c));
    }
    DepthBound(c, !Black(t));
  }

  // ------------------------------------------------------------------------
  // The longest and the shortest path
  // ------------------------------------------------------------------------

  ghost function Max(a: nat, b: nat): nat {
    if a < b then b else a
  }

  ghost function Min(a: nat, b: nat): nat {
    if a < b then a else b
  }

  /** The number of nodes on the longest path down to a null pointer. */
  ghost function Longest(t: T): nat {
    if t.E? then 0 else Max(Longest(t.left), Longest(t.right)) + 1
  }

  ghost function Shortest(t: T): nat {
    if t.E? then 0 else Min(Shortest(t.left), Shortest(t.right)) + 1
  }

  lemma {:induction false} PathsAndHeight(t: T, h: nat)
    requires Balanced(t, h) && NoRedRed(t)
    ensures h <= Shortest(t) && Longest(t) <= 2 * h + (if Black(t) then 0 else 1)
  {
    if t.B? {
      PathsAndHeight(t.left, if t.red then h else h - 1);
      PathsAndHeight(t.right, if t.red then h else h - 1);
    }
  }

  /** The longest path has at most twice as many nodes as the shortest, and one more. */
  lemma LongestPath(t: T)
    requires RedBlack(t)
    ensures Longest(t) <= 1 + 2 * Shortest(t)
  {
    var h: nat :| Balanced(t, h);
    PathsAndHeight(t, h);
  }

  /** An only child is red. */
  lemma OnlyChild(t: T, h: nat, s: Side)
    requires t.B? && Balanced(t, h) && Sub(t, s).E? && Sub(t, Other(s)).B?
    ensures Sub(t, Other(s)).red
  {
    assert Balanced(Sub(t, s), if t.red then h else h - 1) && Balanced(Sub(t, Other(s)), if t.red then h else h - 1);
  }
}
