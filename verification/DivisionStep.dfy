/** One round of the multiple-precision division loop: estimate, subtract, add back. */
module DivisionStep {
  import opened Limbs
  import opened Division

  // ------------------------------------------------------------------------
  // Subtracting q * b in complemented form
  // ------------------------------------------------------------------------

  lemma SubtractFits(carry: int, q: int, x: int, c: int)
    requires 0 <= q < BASE && 0 <= x < BASE && 0 <= carry <= q && 0 <= c < BASE
    ensures 0 <= q * x && carry + q * x + c < BASE2
    ensures (carry + q * x + c) / BASE <= q
  {
    LimbProduct(q, x);
    MulMono(x, BASE - 1, q);
  }

  /** out has replaced the |out| low limbs of r, which still need carry subtracted above. */
  ghost predicate SubtractInvariant(out: seq<Limb>, r: seq<Limb>, b: seq<Limb>, q: int, carry: int)
    requires |out| <= |b| && |out| <= |r|
  {
    Value(out) + q * Value(b[..|out|]) == Value(r[..|out|]) + Up(carry, |out|)
  }

  lemma SubtractedOne(out: seq<Limb>, r: seq<Limb>, b: seq<Limb>, q: int, carry: int, o: Limb, carry': int)
    requires |out| < |b| && |out| < |r| && SubtractInvariant(out, r, b, q, carry)
    requires (BASE - 1 - o) + BASE * carry' == carry + q * b[|out|] + (BASE - 1 - r[|out|])
    ensures SubtractInvariant(out + [o], r, b, q, carry')
  {
    var i := |out|;
    ValueSnoc(out, o);
    ValueNext(r, i);
    ValueNext(b, i);
    SubtractColumn(Value(out), q, Value(b[..i]), Value(r[..i]), carry, b[i], r[i], o, carry', i);
  }

  lemma SubtractColumn(v: int, q: int, b: int, u: int, carry: int, x: int, y: int, o: int, carry': int, i: nat)
    requires v + q * b == u + Up(carry, i)
    requires (BASE - 1 - o) + BASE * carry' == carry + q * x + (BASE - 1 - y)
    ensures (v + Up(o, i)) + q * (b + Up(x, i)) == (u + Up(y, i)) + Up(carry', i + 1)
  {
    UpCarry(y, carry', i);
    UpAdd(carry + q * x, o, i);
    UpAdd(carry, q * x, i);
    UpMul(q, x, i);
    Distribute(b, Up(x, i), q);
  }

  /** One limb of the subtraction; the running carry stays at most q. */
  method SubtractLimb(carry: TwoLimb, q: Limb, x: Limb, y: Limb) returns (carry': TwoLimb, o: Limb)
    requires carry <= q
    ensures carry' <= q
    ensures (BASE - 1 - o) + BASE * carry' == carry + q * x + (BASE - 1 - y)
  {
    SubtractFits(carry, q, x, BASE - 1 - y);
    carry' := carry + q * x + (BASE - 1 - y);
    o := BASE - 1 - carry' % BASE;
    carry' := carry' / BASE;
  }

  /** Replaces the b.nlimbs limbs at r + j by themselves minus q * b and returns the limb still to be
      subtracted above them. */
  method SubtractProduct(q: Limb, b: Mpn, r: array<Limb>, j: nat) returns (cr: Limb)
    requires b.InBounds() && r != b.limbs && j + b.nlimbs <= r.Length
    modifies r
    ensures Value(r[j..j + b.nlimbs]) + q * b.Val()
         == old(Value(r[j..j + b.nlimbs])) + Up(cr, b.nlimbs)
    ensures r[..j] == old(r[..j]) && r[j + b.nlimbs..] == old(r[j + b.nlimbs..])
  {
    ghost var r0, bs := r[..], b.Digits();
    ghost var out: seq<Limb> := [];
    ghost var window := r[j..j + b.nlimbs];
    var carry: TwoLimb := 0;
    WriteStart(r0, j);
    var i := 0;
    while i < b.nlimbs
      invariant i == |out| <= b.nlimbs && carry <= q
      invariant r[..] == Overwritten(r0, j, out)
      invariant SubtractInvariant(out, window, bs, q, carry)
    {
      assert b.limbs[b.start + i] == bs[i] && r[..][j + i] == window[i];
      var next, o := SubtractLimb(carry, q, b.limbs[b.start + i], r[j + i]);
      r[j + i] := o;
      WriteNext(r0, j, out, o);
      SubtractedOne(out, window, bs, q, carry, o, next);
      out := out + [o];
      carry := next;
      i := i + 1;
    }
    assert bs[..i] == bs && window[..i] == window;
    assert r[j..j + i] == r[..][j..j + i] == out;
    cr := carry;
  }

  // ------------------------------------------------------------------------
  // Adding b back
  // ------------------------------------------------------------------------

  /** out has replaced the |out| low limbs of r, and carry is pending. */
  ghost predicate AddInvariant(out: seq<Limb>, r: seq<Limb>, b: seq<Limb>, carry: int)
    requires |out| <= |b| && |out| <= |r|
  {
    Value(out) + Up(carry, |out|) == Value(r[..|out|]) + Value(b[..|out|])
  }

  lemma AddedOne(out: seq<Limb>, r: seq<Limb>, b: seq<Limb>, carry: int, o: Limb, carry': int)
    requires |out| < |b| && |out| < |r| && AddInvariant(out, r, b, carry)
    requires o + BASE * carry' == b[|out|] + r[|out|] + carry
    ensures AddInvariant(out + [o], r, b, carry')
  {
    var i := |out|;
    ValueSnoc(out, o);
    ValueNext(b, i);
    ValueNext(r, i);
    AddColumn(Value(out), Value(r[..i]), Value(b[..i]), carry, b[i], r[i], o, carry', i);
  }

  lemma AddColumn(v: int, u: int, b: int, carry: int, x: int, y: int, o: int, carry': int, i: nat)
    requires v + Up(carry, i) == u + b
    requires o + BASE * carry' == x + y + carry
    ensures (v + Up(o, i)) + Up(carry', i + 1) == (u + Up(y, i)) + (b + Up(x, i))
  {
    UpCarry(o, carry', i);
    UpAdd(x + y, carry, i);
    UpAdd(x, y, i);
  }

  /** One limb of the addition; the carry is found by comparisons. */
  method AddLimb(source1: Limb, source2: Limb, carry: Limb) returns (carry': Limb, o: Limb)
    requires carry <= 1
    ensures carry' <= 1 && o + BASE * carry' == source1 + source2 + carry
  {
    o := (source1 + source2 + carry) % BASE;
    carry' := if carry != 0
              then if source1 >= BASE - 1 - source2 then 1 else 0
              else if source1 > BASE - 1 - source2 then 1 else 0;
  }

  /** Adds b to the limbs at r + j; the carry out of the top limb is forgotten. */
  method AddBack(b: Mpn, r: array<Limb>, j: nat) returns (ghost carried: Limb)
    requires b.InBounds() && r != b.limbs && j + b.nlimbs <= r.Length
    modifies r
    ensures carried <= 1
    ensures Value(r[j..j + b.nlimbs]) + Up(carried, b.nlimbs)
         == old(Value(r[j..j + b.nlimbs])) + b.Val()
    ensures r[..j] == old(r[..j]) && r[j + b.nlimbs..] == old(r[j + b.nlimbs..])
  {
    ghost var r0, bs := r[..], b.Digits();
    ghost var out: seq<Limb> := [];
    ghost var window := r[j..j + b.nlimbs];
    var carry: Limb := 0;
    WriteStart(r0, j);
    var i := 0;
    while i < b.nlimbs
      invariant i == |out| <= b.nlimbs && carry <= 1
      invariant r[..] == Overwritten(r0, j, out)
      invariant AddInvariant(out, window, bs, carry)
    {
      assert b.limbs[b.start + i] == bs[i] && r[..][j + i] == window[i];
      var next, o := AddLimb(b.limbs[b.start + i], r[j + i], carry);
      r[j + i] := o;
      WriteNext(r0, j, out, o);
      AddedOne(out, window, bs, carry, o, next);
      out := out + [o];
      carry := next;
      i := i + 1;
    }
    assert bs[..i] == bs && window[..i] == window;
    assert r[j..j + i] == r[..][j..j + i] == out;
    carried := carry;
  }

  // ------------------------------------------------------------------------
  // One quotient digit
  // ------------------------------------------------------------------------

  /** q is the digit of a window of value rt with respect to b, or one more. */
  ghost predicate Estimated(q: int, b: int, rt: int) {
    && 0 < b
    && 0 <= rt
    && rt < q * b + b
    && q * b <= rt + b
  }

  lemma TwoLimbs(s: seq<Limb>)
    requires |s| == 2
    ensures Value(s) == s[1] * BASE + s[0]
  {
    assert Value(s[1..][1..]) == 0;
  }

  lemma ThreeLimbs(s: seq<Limb>)
    requires |s| == 3
    ensures Value(s) == (s[2] * BASE + s[1]) * BASE + s[0]
  {
    TwoLimbs(s[1..]);
  }

  /** The two leading limbs as one number. */
  function LeadingTwo(s: seq<Limb>): nat
    requires |s| >= 2
  {
    s[|s| - 1] * BASE + s[|s| - 2]
  }

  /** The three leading limbs as one number. */
  function LeadingThree(s: seq<Limb>): nat
    requires |s| >= 3
  {
    (s[|s| - 1] * BASE + s[|s| - 2]) * BASE + s[|s| - 3]
  }

  lemma SplitLeadingTwo(s: seq<Limb>, k: nat)
    requires |s| == k + 2
    ensures Value(s) == Up(LeadingTwo(s), k) + Value(s[..k])
    ensures 0 <= Value(s[..k]) < Up(1, k)
  {
    TwoLimbs(s[k..]);
    ValueSplit(s, k);
    ValueBound(s[..k]);
  }

  lemma SplitLeadingThree(s: seq<Limb>, k: nat)
    requires |s| == k + 3
    ensures Value(s) == Up(LeadingThree(s), k) + Value(s[..k])
    ensures 0 <= Value(s[..k]) < Up(1, k)
  {
    ThreeLimbs(s[k..]);
    ValueSplit(s, k);
    ValueBound(s[..k]);
  }

  /** q is the trial digit for a window and a normalised divisor. */
  predicate Trial(q: int, window: seq<Limb>, b: seq<Limb>) {
    && |b| >= 2 && |window| == |b| + 1
    && b[|b| - 1] >= 0x8000_0000
    && IsTrialDigit(q, LeadingThree(window), LeadingTwo(b))
  }

  /** What the estimate of the three leading limbs means for the whole window: by Knuth's bound it is
      the true quotient digit or one more. */
  lemma WindowEstimate(window: seq<Limb>, b: seq<Limb>, q: int)
    requires Trial(q, window, b) && Value(window) < Value(b) * BASE
    ensures Estimated(q, Value(b), Value(window))
  {
    var k := |b| - 2;
    SplitLeadingTwo(b, k);
    SplitLeadingThree(window, k);
    TrialDigitBound(q, LeadingThree(window), LeadingTwo(b), k, Value(window[..k]), Value(b[..k]), Value(window),
        Value(b));
  }

  /** The trial digit, as the comment of `divide` puts it, is the true digit or one more. */
  lemma TrialDigitNearTrueDigit(window: seq<Limb>, b: seq<Limb>, q: int)
    requires Trial(q, window, b) && Value(window) < Value(b) * BASE
    ensures Value(b) > 0
    ensures q == Value(window) / Value(b) || q == Value(window) / Value(b) + 1
  {
    WindowEstimate(window, b, q);
    TrueDigit(q, Value(window), Value(b));
  }

  /** The estimate for the window at r + j. */
  method EstimateDigit(b: Mpn, r: array<Limb>, j: nat) returns (q_star: Limb)
    requires b.InBounds() && b.nlimbs >= 2 && j + b.nlimbs < r.Length
    requires b.limbs[b.start + b.nlimbs - 1] >= 0x8000_0000
    ensures Trial(q_star, r[j..j + b.nlimbs + 1], b.Digits())
  {
    var n := b.nlimbs;
    q_star := TrialDigit(r[j + n], r[j + n - 1], r[j + n - 2], b.limbs[b.start + n - 1], b.limbs[b.start + n - 2]);
    ghost var window, bs := r[j..j + n + 1], b.Digits();
    assert window[n] == r[j + n] && window[n - 1] == r[j + n - 1] && window[n - 2] == r[j + n - 2];
    assert bs[n - 1] == b.limbs[b.start + n - 1] && bs[n - 2] == b.limbs[b.start + n - 2];
  }

  /** Determines one quotient digit. The window of b.nlimbs + 1 limbs at r + j is replaced by its
      remainder modulo b, and the digit is stored in the top limb that the remainder no longer needs. */
  method QuotientDigit(b: Mpn, r: array<Limb>, j: nat)
    requires b.InBounds() && b.nlimbs >= 2 && r != b.limbs && j + b.nlimbs < r.Length
    requires b.limbs[b.start + b.nlimbs - 1] >= 0x8000_0000
    requires Value(r[j..j + b.nlimbs + 1]) < b.Val() * BASE
    modifies r
    ensures DigitFound(r[j + b.nlimbs], b.Val(), old(Value(r[j..j + b.nlimbs + 1])), Value(r[j..j + b.nlimbs]))
    ensures r[..j] == old(r[..j]) && r[j + b.nlimbs + 1..] == old(r[j + b.nlimbs + 1..])
  {
    var n := b.nlimbs;
    ghost var window, bs := r[j..j + n + 1], b.Digits();
    var q_star := EstimateDigit(b, r, j);
    WindowAt(r[..], j, n);
    WindowEstimate(window, bs, q_star);
    WindowSplit(window, n);
    var digit := DigitFrom(q_star, b, r, j);
    StoreDigit(r, j, n, digit);
  }

  /** Leaves r alone if the estimate is zero, and otherwise subtracts and repairs. */
  method DigitFrom(q_star: Limb, b: Mpn, r: array<Limb>, j: nat) returns (digit: Limb)
    requires b.InBounds() && r != b.limbs && j + b.nlimbs < r.Length
    requires Estimated(q_star, b.Val(), Value(r[j..j + b.nlimbs]) + Up(r[j + b.nlimbs], b.nlimbs))
    modifies r
    ensures DigitFound(digit, b.Val(), old(Value(r[j..j + b.nlimbs]) + Up(r[j + b.nlimbs], b.nlimbs)),
              Value(r[j..j + b.nlimbs]))
    ensures r[..j] == old(r[..j]) && r[j + b.nlimbs + 1..] == old(r[j + b.nlimbs + 1..])
  {
    digit := q_star;
    if q_star > 0 {
      ghost var r0 := r[..];
      digit := SubtractAndRepair(q_star, b, r, j);
      Beyond(r0, r[..], j + b.nlimbs);
    } else {
      ValueBound(r[j..j + b.nlimbs]);
      ZeroDigit(b.Digits(), Value(r[j..j + b.nlimbs]), r[j + b.nlimbs]);
    }
  }

  lemma Beyond(s: seq<Limb>, t: seq<Limb>, k: nat)
    requires k < |s| == |t| && s[k..] == t[k..]
    ensures s[k + 1..] == t[k + 1..]
  {
    assert s[k + 1..] == s[k..][1..] && t[k + 1..] == t[k..][1..];
  }

  lemma WindowAt(r: seq<Limb>, j: nat, n: nat)
    requires j + n < |r|
    ensures r[j..j + n + 1][..n] == r[j..j + n]
  {
  }

  lemma WindowSplit(window: seq<Limb>, n: nat)
    requires |window| == n + 1
    ensures Value(window) == Value(window[..n]) + Up(window[n], n)
  {
    ValueTop(window);
  }

  method StoreDigit(r: array<Limb>, j: nat, n: nat, digit: Limb)
    requires j + n < r.Length
    modifies r
    ensures r[j + n] == digit
    ensures r[..j] == old(r[..j]) && r[j..j + n] == old(r[j..j + n]) && r[j + n + 1..] == old(r[j + n + 1..])
  {
    r[j + n] := digit;
  }

  lemma ZeroDigit(b: seq<Limb>, low: int, top: Limb)
    requires 0 <= low < Up(1, |b|) && Estimated(0, Value(b), low + Up(top, |b|))
    ensures DigitFound(0, Value(b), low + Up(top, |b|), low)
  {
    ValueBound(b);
    NothingAbove(low, top, low + Up(top, |b|), |b|);
    UpZero(|b|);
  }

  /** The subtraction of q * b with at most one repair. */
  method SubtractAndRepair(q: Limb, b: Mpn, r: array<Limb>, j: nat) returns (digit: Limb)
    requires b.InBounds() && r != b.limbs && j + b.nlimbs < r.Length
    requires Estimated(q, b.Val(), Value(r[j..j + b.nlimbs]) + Up(r[j + b.nlimbs], b.nlimbs))
    modifies r
    ensures DigitFound(digit, b.Val(), old(Value(r[j..j + b.nlimbs]) + Up(r[j + b.nlimbs], b.nlimbs)),
              Value(r[j..j + b.nlimbs]))
    ensures r[..j] == old(r[..j]) && r[j + b.nlimbs..] == old(r[j + b.nlimbs..])
  {
    digit := q;
    var n := b.nlimbs;
    ghost var bv, v0, top := b.Val(), Value(r[j..j + n]), r[j + n];
    ghost var above := r[j + n..];
    ValueBound(b.Digits());
    var cr := SubtractProduct(q, b, r, j);
    ghost var v1 := Value(r[j..j + n]);
    ValueBound(r[j..j + n]);
    assert r[j + n] == top by { assert r[j + n] == r[j + n..][0] == above[0]; }
    if cr > r[j + n] {
      ghost var carried := AddBack(b, r, j);
      ValueBound(r[j..j + n]);
      Repaired(q, bv, v0, top, v1, cr, Value(r[j..j + n]), carried, n);
      digit := digit - 1;
    } else {
      Unrepaired(q, bv, v0, top, v1, cr, n);
    }
  }

  /** A number below BASE^n leaves no room for a limb above it. */
  lemma NothingAbove(x: int, e: int, y: int, n: nat)
    requires x + Up(e, n) == y && 0 <= x < Up(1, n) && 0 <= y < Up(1, n)
    ensures e == 0 && x == y
  {
    UpZero(n);
    UpAdd(1, -1, n);
    UpMono(1, e, n);
    UpMono(e, -1, n);
  }

  /** No borrow: the estimate was the digit, and the top limb is used up exactly. */
  lemma Unrepaired(q: int, b: int, v0: int, top: int, v1: int, cr: int, n: nat)
    requires Estimated(q, b, v0 + Up(top, n)) && b <= Up(1, n)
    requires v1 + q * b == v0 + Up(cr, n) && 0 <= v1 < Up(1, n) && cr <= top
    ensures DigitFound(q, b, v0 + Up(top, n), v1)
  {
    UsedUp(q * b, b, v0, top, v1, cr, n);
  }

  lemma UsedUp(qb: int, b: int, v0: int, top: int, v1: int, cr: int, n: nat)
    requires v0 + Up(top, n) < qb + b <= qb + Up(1, n)
    requires v1 + qb == v0 + Up(cr, n) && 0 <= v1 < Up(1, n) && cr <= top
    ensures v0 + Up(top, n) == qb + v1 && v1 < b
  {
    UpAdd(cr, top - cr, n);
    UpMono(0, top - cr, n);
    UpZero(n);
    NothingAbove(v1, top - cr, v1 + Up(top - cr, n), n);
  }

  /** A borrow: the estimate was one too large, and one addition repairs it. */
  lemma Repaired(q: int, b: int, v0: int, top: int, v1: int, cr: int, v2: int, carried: int, n: nat)
    requires Estimated(q, b, v0 + Up(top, n)) && b <= Up(1, n)
    requires v1 + q * b == v0 + Up(cr, n) && 0 <= v1 < Up(1, n) && cr > top
    requires v2 + Up(carried, n) == v1 + b && 0 <= v2 < Up(1, n)
    ensures DigitFound(q - 1, b, v0 + Up(top, n), v2) && q > 0
  {
    OneAddBack(q * b, b, v0, top, v1, cr, v2, carried, n);
    Distribute(q, 1, b);
    if q <= 0 {
      MulMono(q, 0, b);
    }
  }

  lemma OneAddBack(qb: int, b: int, v0: int, top: int, v1: int, cr: int, v2: int, carried: int, n: nat)
    requires 0 <= v0 + Up(top, n) && qb <= v0 + Up(top, n) + b && 0 < b <= Up(1, n)
    requires v1 + qb == v0 + Up(cr, n) && 0 <= v1 < Up(1, n) && cr > top
    requires v2 + Up(carried, n) == v1 + b && 0 <= v2 < Up(1, n)
    ensures v0 + Up(top, n) == qb - b + v2 && v2 < b && 0 < qb
  {
    var d := cr - top;
    UpAdd(top, d, n);
    UpMono(1, d, n);
    UpAdd(carried - d, d, n);
    AddBackArithmetic(v0 + Up(top, n), qb, b, v1, v2, Up(d, n), Up(carried - d, n));
    NothingAbove(v2, carried - d, v0 + Up(top, n) - qb + b, n);
  }

  lemma AddBackArithmetic(rt: int, qb: int, b: int, v1: int, v2: int, d: int, e: int)
    requires 0 <= rt && qb <= rt + b && v1 < d && 0 <= v2
    requires v1 + qb == rt + d && v2 + (e + d) == v1 + b
    ensures v2 + e == rt - qb + b && 0 <= rt - qb + b < b && 0 < qb
  {
  }
}
