/** The fix-up of a tree that has lost a black edge, as steps on values. */
module TreeRepair {
  import opened TreeShape
  import opened TreeRotate
  import opened TreeSplit

  /** The subtree r has one black edge less than its surroundings c expect; r itself may be red below
      a red node, because it will then be painted black. */
  ghost predicate Deficient(c: Ctx, r: T, h: nat) {
    && Balanced(r, h) && CtxBalanced(c, h + 1)
    && NoRedRed(Blackened(r)) && CtxNoRedRed(c, false)
  }

  /** The surroundings of r after its red brother has been rotated above its parent. */
  ghost function RedBrother(c: Ctx): Ctx
    requires c.In? && c.sibling.B?
  {
    var q, s := c.sibling, c.side;
    In(s, c.node, true, c.key, Sub(q, s), In(s, q.node, false, q.key, Sub(q, Other(s)), c.up))
  }

  /** The parent's subtree after the brother q has been painted red. */
  ghost function BrotherReddened(c: Ctx, r: T): T
    requires c.In? && c.sibling.B?
  {
    Make(c.side, c.node, c.red, r, c.key, c.sibling.(red := true))
  }

  /** The outer child of q is red: one rotation. */
  ghost function OuterTurn(c: Ctx, r: T): T
    requires c.In? && c.sibling.B?
  {
    var q, s := c.sibling, c.side;
    Make(s, q.node, c.red, Make(s, c.node, false, r, c.key, Sub(q, s)), q.key, Blackened(Sub(q, Other(s))))
  }

  /** The inner child q2 of q is red: a double rotation puts it on top. */
  ghost function InnerTurn(c: Ctx, r: T): T
    requires c.In? && c.sibling.B? && Sub(c.sibling, c.side).B?
  {
    var q, s := c.sibling, c.side;
    var q2 := Sub(q, s);
    Make(s, q2.node, c.red,
         Make(s, c.node, false, r, c.key, Sub(q2, s)),
         q2.key,
         Make(s, q.node, false, Sub(q2, Other(s)), q.key, Sub(q, Other(s))))
  }

  // ------------------------------------------------------------------------
  // Colours and black heights
  // ------------------------------------------------------------------------

  lemma BrotherExists(c: Ctx, r: T, h: nat)
    requires Deficient(c, r, h) && c.In?
    ensures c.sibling.B? && Balanced(c.sibling, h + 1) && NoRedRed(c.sibling)
    ensures c.red ==> Black(c.sibling)
    ensures CtxBalanced(c.up, if c.red then h + 1 else h + 2) && CtxNoRedRed(c.up, c.red)
  {
  }

  /** Rotating a red brother up leaves the black count of every path as it is. */
  lemma RedBrotherDeficient(c: Ctx, r: T, h: nat)
    requires Deficient(c, r, h) && c.In? && c.sibling.B? && c.sibling.red
    ensures Deficient(RedBrother(c), r, h)
    ensures RedBrother(c).sibling.B? && Black(RedBrother(c).sibling)
  {
    BrotherExists(c, r, h);
    var q, s := c.sibling, c.side;
    assert Balanced(Sub(q, s), h + 1) && Balanced(Sub(q, Other(s)), h + 1);
    assert Black(Sub(q, s)) && Black(Sub(q, Other(s)));
    assert NoRedRed(Sub(q, s)) && NoRedRed(Sub(q, Other(s)));
    assert CtxBalanced(RedBrother(c).up, h + 1);
    assert CtxNoRedRed(RedBrother(c).up, true);
  }

  /** With the brother painted red, the subtree of the parent lacks one black node on every path. */
  lemma BrotherReddenedDeficient(c: Ctx, r: T, h: nat)
    requires Deficient(c, r, h) && c.In? && c.sibling.B? && Black(c.sibling) && Black(r)
    requires Black(c.sibling.left) && Black(c.sibling.right)
    ensures Deficient(c.up, BrotherReddened(c, r), if c.red then h else h + 1)
  {
    BrotherExists(c, r, h);
    assert Balanced(c.sibling.(red := true), h);
    assert NoRedRed(c.sibling.(red := true)) && NoRedRed(r);
    WeakerCtx(c.up, c.red);
  }

  lemma WeakerCtx(c: Ctx, red: bool)
    requires CtxNoRedRed(c, red)
    ensures CtxNoRedRed(c, false)
  {
  }

  lemma OuterTurnRedBlack(c: Ctx, r: T, h: nat)
    requires Deficient(c, r, h) && c.In? && c.sibling.B? && Black(c.sibling) && Black(r)
    requires !Black(Sub(c.sibling, Other(c.side)))
    ensures ZipRedBlack(c.up, OuterTurn(c, r), if c.red then h + 1 else h + 2)
  {
    BrotherExists(c, r, h);
    var q, s := c.sibling, c.side;
    var outer := Sub(q, Other(s));
    assert Balanced(Sub(q, s), h) && Balanced(outer, h) && NoRedRed(Sub(q, s)) && NoRedRed(outer);
    assert Balanced(Blackened(outer), h + 1) && NoRedRed(Blackened(outer));
    var a := Make(s, c.node, false, r, c.key, Sub(q, s));
    assert Balanced(a, h + 1) && NoRedRed(a);
  }

  lemma InnerTurnRedBlack(c: Ctx, r: T, h: nat)
    requires Deficient(c, r, h) && c.In? && c.sibling.B? && Black(c.sibling) && Black(r)
    requires Black(Sub(c.sibling, Other(c.side))) && !Black(Sub(c.sibling, c.side))
    ensures ZipRedBlack(c.up, InnerTurn(c, r), if c.red then h + 1 else h + 2)
  {
    BrotherExists(c, r, h);
    var q, s := c.sibling, c.side;
    var q2, outer := Sub(q, s), Sub(q, Other(s));
    assert Balanced(q2, h) && Balanced(outer, h) && NoRedRed(q2) && NoRedRed(outer);
    assert Balanced(Sub(q2, s), h) && Balanced(Sub(q2, Other(s)), h) && NoRedRed(Sub(q2, s))
        && NoRedRed(Sub(q2, Other(s)));
    var a, b := Make(s, c.node, false, r, c.key, Sub(q2, s)), Make(s, q.node, false, Sub(q2, Other(s)), q.key, outer);
    assert Balanced(a, h + 1) && Balanced(b, h + 1) && NoRedRed(a) && NoRedRed(b);
  }

  /** Painting a red r black restores the missing edge; at the top nothing is missing. */
  lemma BlackenedRepairs(c: Ctx, r: T, h: nat) returns (h': nat)
    requires Deficient(c, r, h) && (c.In? ==> !Black(r))
    ensures ZipRedBlack(c, Blackened(r), h')
  {
    h' := if r.B? && r.red then h + 1 else h;
  }

  // ------------------------------------------------------------------------
  // Keys
  // ------------------------------------------------------------------------

  lemma BlackenedKeys(t: T)
    ensures Keys(Blackened(t)) == Keys(t)
  {
  }

  lemma RedBrotherKeys(c: Ctx)
    requires c.In? && c.sibling.B?
    ensures Before(RedBrother(c)) == Before(c) && After(RedBrother(c)) == After(c)
  {
    var q, up := c.sibling, c.up;
    if c.side == Left {
      RegroupTail([c.key], Keys(q.left), [q.key], Keys(q.right), After(up));
    } else {
      RegroupHead(Before(up), Keys(q.left), [q.key], Keys(q.right), [c.key]);
    }
  }

  lemma BrotherReddenedKeys(c: Ctx, r: T)
    requires c.In? && c.sibling.B?
    ensures Before(c.up) + Keys(BrotherReddened(c, r)) + After(c.up) == Before(c) + Keys(r) + After(c)
  {
    assert Keys(c.sibling.(red := true)) == Keys(c.sibling);
    UpKeys(c, r);
  }

  /** Moving the focus up to the parent. */
  lemma UpKeys(c: Ctx, r: T)
    requires c.In?
    ensures Before(c.up) + Keys(Make(c.side, c.node, c.red, r, c.key, c.sibling)) + After(c.up)
              == Before(c) + Keys(r) + After(c)
  {
    if c.side == Left {
      Regroup(Before(c.up), Keys(r), [c.key], Keys(c.sibling), After(c.up));
    } else {
      Regroup(Before(c.up), Keys(c.sibling), [c.key], Keys(r), After(c.up));
    }
  }

  lemma OuterTurnKeys(c: Ctx, r: T)
    requires c.In? && c.sibling.B?
    ensures Keys(OuterTurn(c, r)) == Keys(Make(c.side, c.node, c.red, r, c.key, c.sibling))
  {
    BlackenedKeys(Sub(c.sibling, Other(c.side)));
  }

  lemma InnerTurnKeys(c: Ctx, r: T)
    requires c.In? && c.sibling.B? && Sub(c.sibling, c.side).B?
    ensures Keys(InnerTurn(c, r)) == Keys(Make(c.side, c.node, c.red, r, c.key, c.sibling))
  {
    var q := c.sibling;
    var q2 := Sub(q, c.side);
    assert Keys(q) == Keys(q.left) + [q.key] + Keys(q.right);
    assert Keys(q2) == Keys(q2.left) + [q2.key] + Keys(q2.right);
    if c.side == Left {
      RegroupRight(Keys(r), [c.key], Keys(q2.left), [q2.key], Keys(q2.right), [q.key], Keys(q.right));
    } else {
      RegroupLeft(Keys(q.left), [q.key], Keys(q2.left), [q2.key], Keys(q2.right), [c.key], Keys(r));
    }
  }

  lemma RegroupRight(a: seq<int>, b: seq<int>, c: seq<int>, d: seq<int>, e: seq<int>, f: seq<int>, g: seq<int>)
    ensures a + b + ((c + d + e) + f + g) == (a + b + c) + d + (e + f + g)
  {
  }

  lemma RegroupLeft(a: seq<int>, b: seq<int>, c: seq<int>, d: seq<int>, e: seq<int>, f: seq<int>, g: seq<int>)
    ensures (a + b + (c + d + e)) + f + g == (a + b + c) + d + (e + f + g)
  {
  }
}
