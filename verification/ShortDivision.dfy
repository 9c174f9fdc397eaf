/** Division of a bignum by a single limb. */
module ShortDivision {
  import opened Limbs
  import opened Division

  /** Two limbs divided by one. */
  ghost function DivideTwo(hi: Limb, lo: Limb, den: Limb): (r: (Limb, Limb))
    requires hi < den
    ensures r.1 < den
  {
    QuotientFits(hi * BASE + lo, den, hi);
    ((hi * BASE + lo) / den, (hi * BASE + lo) % den)
  }

  /** Quotient limbs and remainder of a division by one limb, most significant limb first. */
  ghost function ShortQuotient(a: seq<Limb>, den: Limb): (r: (seq<Limb>, Limb))
    requires den > 0
    ensures |r.0| == |a| && r.1 < den
  {
    if a == [] then ([], 0)
    else
      var (q, rem) := ShortQuotient(a[1..], den);
      var (digit, rem') := DivideTwo(rem, a[0], den);
      ([digit] + q, rem')
  }

  lemma {:induction false} ShortQuotientValue(a: seq<Limb>, den: Limb)
    requires den > 0
    ensures Value(a) == Value(ShortQuotient(a, den).0) * den + ShortQuotient(a, den).1
  {
    if a != [] {
      ShortQuotientValue(a[1..], den);
      var (q, rem) := ShortQuotient(a[1..], den);
      var num := rem * BASE + a[0];
      QuotientFits(num, den, rem);
      assert ([num / den] + q)[1..] == q;
      ShortStep(Value(a[1..]), Value(q), den, rem, a[0], num / den, num % den);
    }
  }

  lemma ShortStep(v: int, q: int, den: int, rem: int, x: int, digit: int, rem': int)
    requires v == q * den + rem && rem * BASE + x == digit * den + rem'
    ensures x + BASE * v == (digit + BASE * q) * den + rem'
  {
    Distribute(digit, BASE * q, den);
    assert (BASE * q) * den == BASE * (q * den);
  }

  /** The limbs from count upwards have been divided, and their quotient stored over d0. */
  ghost predicate ShortInvariant(a: seq<Limb>, den: Limb, d0: seq<Limb>, d: seq<Limb>, pos: nat, count: nat, rem: Limb)
    requires den > 0
  {
    && count <= |a| && pos + |a| <= |d0|
    && d == Overwritten(d0, pos + count, ShortQuotient(a[count..], den).0)
    && rem == ShortQuotient(a[count..], den).1
  }

  lemma ShortUntouched(a: seq<Limb>, den: Limb, d0: seq<Limb>, d: seq<Limb>, pos: nat, count: nat, rem: Limb)
    requires den > 0 && ShortInvariant(a, den, d0, d, pos, count + 1, rem)
    ensures |d| == |d0| && d[pos + count] == d0[pos + count] && rem < den
  {
  }

  lemma ShortNext(a: seq<Limb>, den: Limb, d0: seq<Limb>, d: seq<Limb>, pos: nat, count: nat, rem: Limb, digit: Limb,
                  rem': Limb)
    requires den > 0 && count < |a| && ShortInvariant(a, den, d0, d, pos, count + 1, rem)
    requires rem < den && (digit, rem') == DivideTwo(rem, a[count], den)
    ensures ShortInvariant(a, den, d0, d[pos + count := digit], pos, count, rem')
  {
    assert a[count..][0] == a[count] && a[count..][1..] == a[count + 1..];
    WritePrevious(d0, pos + count + 1, ShortQuotient(a[count + 1..], den).0, digit);
  }

  lemma ShortDone(a: seq<Limb>, den: Limb, d0: seq<Limb>, d: seq<Limb>, pos: nat, rem: Limb)
    requires den > 0 && ShortInvariant(a, den, d0, d, pos, 0, rem)
    ensures DigitFound(Value(d[pos..pos + |a|]), den, Value(a), rem)
    ensures |d| == |d0| && d[..pos] == d0[..pos] && d[pos + |a|..] == d0[pos + |a|..]
  {
    assert a[0..] == a;
    WrittenParts(d0, pos, ShortQuotient(a, den).0);
    ShortQuotientValue(a, den);
  }

  /** Divides src by one limb, storing the quotient limbs at dst + pos; the division may be in place. */
  method DivideByLimb(src: Mpn, den: Limb, dst: array<Limb>, pos: nat) returns (remainder: Limb)
    requires src.InBounds() && den > 0 && pos + src.nlimbs <= dst.Length
    requires dst == src.limbs ==> pos == src.start
    modifies dst
    ensures DigitFound(Value(dst[pos..pos + src.nlimbs]), den, old(src.Val()), remainder)
    ensures dst[..pos] == old(dst[..pos]) && dst[pos + src.nlimbs..] == old(dst[pos + src.nlimbs..])
  {
    ghost var a, d0 := src.Digits(), dst[..];
    remainder := ShortLoop(src, den, dst, pos);
    ShortDone(a, den, d0, dst[..], pos, remainder);
    assert dst[pos..pos + src.nlimbs] == dst[..][pos..pos + src.nlimbs];
  }

  method ShortLoop(src: Mpn, den: Limb, dst: array<Limb>, pos: nat) returns (remainder: Limb)
    requires src.InBounds() && den > 0 && pos + src.nlimbs <= dst.Length
    requires dst == src.limbs ==> pos == src.start
    modifies dst
    ensures ShortInvariant(old(src.Digits()), den, old(dst[..]), dst[..], pos, 0, remainder)
  {
    ghost var a, d0 := src.Digits(), dst[..];
    remainder := 0;
    var count := src.nlimbs;
    WriteStart(d0, pos + count);
    while count > 0
      invariant 0 <= count <= src.nlimbs
      invariant ShortInvariant(a, den, d0, dst[..], pos, count, remainder)
    {
      count := count - 1;
      ghost var d := dst[..];
      ShortUntouched(a, den, d0, d, pos, count, remainder);
      var x := src.limbs[src.start + count];
      assert x == a[count] by {
        if dst == src.limbs {
          assert x == d[pos + count] == d0[pos + count];
        }
      }
      var digit, rem := DivideTwoLimbs(remainder, x, den);
      dst[pos + count] := digit;
      ShortNext(a, den, d0, d, pos, count, remainder, digit, rem);
      remainder := rem;
    }
  }

  method DivideTwoLimbs(hi: Limb, lo: Limb, den: Limb) returns (digit: Limb, rem: Limb)
    requires hi < den
    ensures (digit, rem) == DivideTwo(hi, lo, den)
  {
    var num: TwoLimb := hi * BASE + lo;
    QuotientFits(num, den, hi);
    digit := num / den;
    rem := num % den;
  }
}
