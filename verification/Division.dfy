/** The loops and estimates of the bignum long division. */
module Division {
  import opened Limbs

  /** digit and rest are the quotient and the remainder of rt by b. */
  ghost predicate DigitFound(digit: int, b: int, rt: int, rest: int) {
    && rt == digit * b + rest
    && 0 <= rest < b
  }

  // ------------------------------------------------------------------------
  // Normalisation
  // ------------------------------------------------------------------------

  /** d * cur is msd rounded down to a multiple of d, where d has s bits less than bit 31. */
  ghost predicate Halved(msd: int, cur: int, d: int, s: nat) {
    && d * cur <= msd < d * (cur + 1)
    && d * Pow(2, s) == 0x8000_0000
  }

  lemma HalveStep(msd: int, cur: nat, d: int, s: nat, k: nat)
    requires Halved(msd, cur, d, s) && k <= s
    ensures Halved(msd, cur / Pow(2, k), d * Pow(2, k), s - k)
  {
    var c := Pow(2, k);
    var h := cur / c;
    DivBounds(cur, c);
    HalveRange(d, c, h, cur, msd);
    PowAdd(2, k, s - k);
    MulAssoc(d, c, Pow(2, s - k));
  }

  lemma DivBounds(x: int, c: int)
    requires c > 0
    ensures c * (x / c) <= x && x + 1 <= c * (x / c + 1)
  {
  }

  lemma HalveRange(d: int, c: int, h: int, cur: int, m: int)
    requires c * h <= cur && cur + 1 <= c * (h + 1) && d * cur <= m < d * (cur + 1)
    requires d >= 0
    ensures (d * c) * h <= m < (d * c) * (h + 1)
  {
    MulMono(c * h, cur, d);
    MulMono(cur + 1, c * (h + 1), d);
    MulAssoc(d, c, h);
    MulAssoc(d, c, h + 1);
  }

  lemma SmallPowers()
    ensures Pow(2, 0) == 1 && Pow(2, 1) == 2 && Pow(2, 2) == 4 && Pow(2, 4) == 16
    ensures Pow(2, 8) == 0x100 && Pow(2, 16) == 0x10000 && Pow(2, 31) == 0x8000_0000
  {
    assert Pow(2, 3) == 8 && Pow(2, 4) == 16;
    PowAdd(2, 4, 4);
    PowAdd(2, 8, 8);
    PowAdd(2, 16, 16);
    assert 2 * Pow(2, 31) == Pow(2, 32);
  }

  /** One step of the search for the highest set bit: shifts msd right by k bits unless that leaves nothing. */
  method Halve(msd: Limb, s: nat, k: nat, ghost msd0: int, ghost d: int) returns (msd': Limb, s': nat, ghost d': int)
    requires Halved(msd0, msd, d, s) && k <= s
    requires 0 < msd < Pow(2, k) * Pow(2, k)
    ensures Halved(msd0, msd', d', s') && 0 < msd' < Pow(2, k)
    ensures s - k <= s' <= s
  {
    msd', s', d' := msd, s, d;
    if msd >= Pow(2, k) {
      HalveStep(msd0, msd, d, s, k);
      d' := d * Pow(2, k);
      HalveSmaller(msd, Pow(2, k));
      msd' := msd / Pow(2, k);
      s' := s - k;
    }
  }

  lemma HalveSmaller(msd: int, c: int)
    requires 0 < c <= msd < c * c
    ensures 0 < msd / c < c && msd / c <= msd
  {
    var h := msd / c;
    assert c * h <= msd < c * (h + 1);
    if h >= c { MulMono(c, h, c); }
    if h <= 0 { MulMono(h + 1, 1, c); }
    MulMono(1, c, h);
  }

  /** The number of bits by which msd must be shifted so that bit 31 becomes set. */
  method ShiftCount(msd0: Limb) returns (s: nat)
    requires msd0 > 0
    ensures s < 32 && 0x8000_0000 <= msd0 * Pow(2, s) < BASE
  {
    SmallPowers();
    var msd;
    ghost var d;
    msd, s, d := Halve(msd0, 31, 16, msd0, 1);
    msd, s, d := Halve(msd, s, 8, msd0, d);
    msd, s, d := Halve(msd, s, 4, msd0, d);
    msd, s, d := Halve(msd, s, 2, msd0, d);
    msd, s, d := Halve(msd, s, 1, msd0, d);
    TopBit(msd0, d, s);
  }

  lemma TopBit(msd: int, d: int, s: nat)
    requires Halved(msd, 1, d, s)
    ensures 0x8000_0000 <= msd * Pow(2, s) < BASE
  {
    var p := Pow(2, s);
    MulMono(d, msd, p);
    MulMono(msd + 1, 2 * d, p);
    assert (msd + 1) * p == msd * p + p;
    assert (2 * d) * p == 2 * (d * p);
  }

  // ------------------------------------------------------------------------
  // Shifting
  // ------------------------------------------------------------------------

  /** Limbs out have been written and accu is pending, of the |out| low limbs of src times p. */
  ghost predicate ShiftInvariant(out: seq<Limb>, accu: int, src: seq<Limb>, p: nat)
    requires |out| <= |src|
  {
    Value(out) + Up(accu, |out|) == Value(src[..|out|]) * p
  }

  lemma ShiftedOne(out: seq<Limb>, src: seq<Limb>, accu: int, p: nat, o: Limb, accu': int)
    requires |out| < |src| && ShiftInvariant(out, accu, src, p)
    requires o + BASE * accu' == accu + src[|out|] * p
    ensures ShiftInvariant(out + [o], accu', src, p)
  {
    var i := |out|;
    ValueSnoc(out, o);
    ValueNext(src, i);
    ShiftColumn(Value(out), Value(src[..i]), accu, src[i], p, o, accu', i);
  }

  lemma ShiftColumn(v: int, u: int, accu: int, x: int, p: int, o: int, accu': int, i: nat)
    requires v + Up(accu, i) == u * p
    requires o + BASE * accu' == accu + x * p
    ensures (v + Up(o, i)) + Up(accu', i + 1) == (u + Up(x, i)) * p
  {
    UpCarry(o, accu', i);
    UpAdd(accu, x * p, i);
    ScaledLimb(u, x, i, p);
  }

  lemma ScaledLimb(v: int, x: int, i: nat, p: int)
    ensures (v + Up(x, i)) * p == v * p + Up(x * p, i)
  {
    UpMul(p, x, i);
    Distribute(v, Up(x, i), p);
    assert p * x == x * p;
  }

  lemma ShiftFits(accu: int, x: int, s: nat)
    requires s < 32 && 0 <= accu < Pow(2, s) && 0 <= x < BASE
    ensures 0 <= x * Pow(2, s) && accu + x * Pow(2, s) < BASE * Pow(2, s) <= BASE2
  {
    PowMonotone(2, s, 32);
    Pow2Of32();
    ShiftBound(accu, x, Pow(2, s));
  }

  lemma ShiftBound(accu: int, x: int, p: int)
    requires 0 < p <= BASE && 0 <= accu < p && 0 <= x < BASE
    ensures 0 <= x * p && accu + x * p < BASE * p <= BASE2
  {
    MulMono(0, x, p);
    MulMono(x + 1, BASE, p);
    Distribute(x, 1, p);
  }

  /** Copies src to dst + pos, shifted left by s bits, and returns the bits shifted out.
      The copy may be in place. */
  method ShiftLeft(src: Mpn, s: nat, dst: array<Limb>, pos: nat) returns (accu: TwoLimb)
    requires src.InBounds() && s < 32 && pos + src.nlimbs <= dst.Length
    requires dst == src.limbs ==> pos == src.start
    modifies dst
    ensures accu < Pow(2, s)
    ensures Value(dst[pos..pos + src.nlimbs]) + Up(accu, src.nlimbs) == old(src.Val()) * Pow(2, s)
    ensures dst[..pos] == old(dst[..pos]) && dst[pos + src.nlimbs..] == old(dst[pos + src.nlimbs..])
  {
    ghost var before, d0 := src.Digits(), dst[..];
    ghost var out: seq<Limb> := [];
    accu := 0;
    WriteStart(d0, pos);
    var i := 0;
    while i < src.nlimbs
      invariant i == |out| <= src.nlimbs && accu < Pow(2, s)
      invariant dst[..] == Overwritten(d0, pos, out)
      invariant ShiftInvariant(out, accu, before, Pow(2, s))
    {
      assert dst[..][pos + i] == d0[pos + i];
      var x := src.limbs[src.start + i];
      assert x == before[i];
      var next, o := ShiftLimb(accu, x, s);
      dst[pos + i] := o;
      WriteNext(d0, pos, out, o);
      ShiftedOne(out, before, accu, Pow(2, s), o, next);
      out := out + [o];
      accu := next;
      i := i + 1;
    }
    assert before[..i] == before;
    assert dst[pos..pos + i] == dst[..][pos..pos + i] == out;
  }

  /** One limb of a left shift. */
  method ShiftLimb(accu: TwoLimb, x: Limb, s: nat) returns (accu': TwoLimb, o: Limb)
    requires s < 32 && accu < Pow(2, s)
    ensures accu' < Pow(2, s) && o + BASE * accu' == accu + x * Pow(2, s)
  {
    ShiftFits(accu, x, s);
    accu' := accu + x * Pow(2, s);
    o := accu' % BASE;
    accu' := accu' / BASE;
  }

  // ------------------------------------------------------------------------
  // The quotient digit estimate
  // ------------------------------------------------------------------------

  /** q is the largest single limb with q * b12 <= top3. */
  predicate IsTrialDigit(q: int, top3: int, b12: int) {
    && 0 <= q < BASE
    && q * b12 <= top3
    && (q == BASE - 1 || top3 < (q + 1) * b12)
  }

  /** Before the correction the estimate exceeds the trial digit by at most two. */
  lemma TwoCorrections(q0: int, c1: int, top2: int, lo: int, b1: int, b2: int)
    requires 0x8000_0000 <= b1 < BASE && 0 <= b2 < BASE && 0 <= lo < BASE
    requires 0 <= q0 < BASE && 0 <= c1 < BASE
    requires top2 == q0 * b1 + c1 && (c1 < b1 || q0 == BASE - 1)
    ensures var b12, top3, d := b1 * BASE + b2, top2 * BASE + lo, b2 * q0 - (c1 * BASE + lo);
            && d == q0 * b12 - top3
            && d < 2 * b12
            && (top3 < (q0 + 1) * b12 || q0 == BASE - 1)
  {
    var b12, top3 := b1 * BASE + b2, top2 * BASE + lo;
    assert q0 * b12 == (q0 * b1) * BASE + b2 * q0;
    MulMono(q0, BASE - 1, b2);
    MulMono(b2, BASE - 1, BASE - 1);
    assert (q0 + 1) * b12 == q0 * b12 + b12;
  }

  lemma CorrectOnce(q: int, b12: int, top3: int, d: int)
    requires 0 <= q < BASE && b12 > 0 && top3 >= 0 && d == q * b12 - top3
    ensures 0 < d <= b12 ==> IsTrialDigit(q - 1, top3, b12)
    ensures b12 < d < 2 * b12 ==> IsTrialDigit(q - 2, top3, b12)
    ensures 0 < d ==> q >= 1
    ensures b12 < d ==> q >= 2
  {
    assert (q - 1) * b12 == q * b12 - b12;
    assert (q - 2) * b12 == q * b12 - 2 * b12;
    if q == 0 { assert q * b12 == 0; }
    if q == 1 { assert q * b12 == b12; }
  }

  lemma OverflowDigit(hi: int, mid: int, lo: int, b1: int, b2: int)
    requires 0 <= mid < BASE && 0 <= lo && 0 <= b1 < BASE && 0 <= b2 < BASE
    requires hi > b1 || (hi == b1 && mid + b1 >= BASE)
    ensures IsTrialDigit(BASE - 1, (hi * BASE + mid) * BASE + lo, b1 * BASE + b2)
  {
  }

  /** Estimates a quotient digit from the three leading limbs of r and the two leading limbs of b. */
  method TrialDigit(hi: Limb, mid: Limb, lo: Limb, b_msd: Limb, b_2msd: Limb) returns (q_star: Limb)
    requires b_msd >= 0x8000_0000
    ensures IsTrialDigit(q_star, (hi * BASE + mid) * BASE + lo, b_msd * BASE + b_2msd)
  {
    var c1: Limb;
    if hi < b_msd {
      var num: TwoLimb := hi * BASE + mid;
      QuotientFits(num, b_msd, hi);
      q_star := num / b_msd;
      c1 := num % b_msd;
    } else {
      q_star := BASE - 1;
      if hi > b_msd {
        OverflowDigit(hi, mid, lo, b_msd, b_2msd);
        return;
      }
      c1 := (mid + b_msd) % BASE;
      if c1 < b_msd {
        OverflowDigit(hi, mid, lo, b_msd, b_2msd);
        return;
      }
    }
    q_star := CorrectDigit(q_star, c1, hi * BASE + mid, lo, b_msd, b_2msd);
  }

  /** The correction of an estimate taken from two limbs by the next limb: it is lowered at most twice. */
  method CorrectDigit(q0: Limb, c1: Limb, ghost top2: int, lo: Limb, b_msd: Limb, b_2msd: Limb) returns (q_star: Limb)
    requires b_msd >= 0x8000_0000
    requires top2 == q0 * b_msd + c1 && (c1 < b_msd || q0 == BASE - 1)
    requires top2 >= 0
    ensures q0 - 2 <= q_star <= q0
    ensures IsTrialDigit(q_star, top2 * BASE + lo, b_msd * BASE + b_2msd)
  {
    q_star := q0;
    var b_msdd: TwoLimb := b_msd * BASE + b_2msd;
    var c2: TwoLimb := c1 * BASE + lo;
    LimbProduct(b_2msd, q0);
    var c3: TwoLimb := b_2msd * q0;
    TwoCorrections(q0, c1, top2, lo, b_msd, b_2msd);
    CorrectOnce(q0, b_msdd, top2 * BASE + lo, c3 - c2);
    if c3 > c2 {
      q_star := q_star - 1;
      if c3 - c2 > b_msdd {
        q_star := q_star - 1;
      }
    }
  }

  lemma QuotientFits(num: int, den: int, hi: int)
    requires 0 <= hi < den && hi * BASE <= num < (hi + 1) * BASE
    ensures 0 <= num / den < BASE && num == num / den * den + num % den
  {
    if num / den >= BASE {
      MulMono(BASE, num / den, den);
      assert false;
    }
  }

  lemma LeadingProduct(n: int, b12: int, k: nat, blow: int)
    requires 0 <= n && 0 <= blow
    ensures Up(n * b12, k) <= n * (Up(b12, k) + blow)
  {
    UpMul(n, b12, k);
    MulMono(0, n, blow);
    Distribute(Up(b12, k), blow, n);
  }

  /** A trial digit taken from leading limbs is not too small: k limbs of both numbers are ignored. */
  lemma TrialDigitNotSmall(q: int, top3: int, b12: int, k: nat, rlow: int, blow: int)
    requires 0 <= q && top3 < (q + 1) * b12
    requires rlow < Up(1, k) && 0 <= blow
    ensures Up(top3, k) + rlow < (q + 1) * (Up(b12, k) + blow)
  {
    UpMono(top3 + 1, (q + 1) * b12, k);
    UpAdd(top3, 1, k);
    LeadingProduct(q + 1, b12, k, blow);
  }

  /** ... and too large by at most one. */
  lemma TrialDigitNotLarge(q: int, top3: int, b12: int, k: nat, rlow: int, blow: int)
    requires 0 <= q <= b12 && q * b12 <= top3
    requires 0 <= rlow && 0 <= blow < Up(1, k)
    ensures q * (Up(b12, k) + blow) <= Up(top3, k) + rlow + (Up(b12, k) + blow)
  {
    UpMono(q * b12, top3, k);
    UpMul(q, b12, k);
    Distribute(Up(b12, k), blow, q);
    MulMono(blow, Up(1, k), q);
    UpMul(q, 1, k);
    UpMono(q, b12, k);
  }

  /** Knuth's bound: the trial digit is the true digit or one more. */
  lemma TrialDigitBound(q: int, top3: int, b12: int, k: nat, rlow: int, blow: int, rt: int, b: int)
    requires IsTrialDigit(q, top3, b12) && top3 >= 0
    requires 0 <= rlow < Up(1, k) && 0 <= blow < Up(1, k) && b12 >= 0x8000_0000 * BASE
    requires rt == Up(top3, k) + rlow && b == Up(b12, k) + blow
    requires rt < b * BASE
    ensures rt < q * b + b && q * b <= rt + b && b > 0
  {
    UpZero(k);
    UpMono(0, top3, k);
    UpMono(0, b12, k);
    if q < BASE - 1 {
      TrialDigitNotSmall(q, top3, b12, k, rlow, blow);
    }
    TrialDigitNotLarge(q, top3, b12, k, rlow, blow);
    Distribute(q, 1, b);
  }

  lemma TrueDigit(q: int, rt: int, b: int)
    requires b > 0 && rt >= 0 && q >= 0 && rt < q * b + b && q * b <= rt + b
    ensures rt / b <= q <= rt / b + 1
  {
    var t := rt / b;
    assert t * b <= rt < t * b + b;
    if t > q {
      MulMono(q + 1, t, b);
    }
    if q > t + 1 {
      MulMono(t + 2, q, b);
      assert false by { Distribute(t, 2, b); }
    }
  }
}
