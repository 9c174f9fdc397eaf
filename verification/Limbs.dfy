/** Little-endian bignums in base 2^32, the representation behind `mpn_t`. */
module Limbs {

  const BASE: int := 0x1_0000_0000
  const BASE2: int := 0x1_0000_0000_0000_0000

  /** A limb: an unsigned 32-bit word. */
  type Limb = x: int | 0 <= x < 0x1_0000_0000

  /** A double limb: assigning to it proves the absence of 64-bit overflow. */
  type TwoLimb = x: int | 0 <= x < 0x1_0000_0000_0000_0000

  function Pow(b: nat, e: nat): (p: nat)
    ensures b > 0 ==> p > 0
  {
    if e == 0 then 1 else b * Pow(b, e - 1)
  }

  /** x * BASE^k: x moved up by k limbs. Keeping the power inside keeps proofs linear. */
  function Up(x: int, k: nat): int {
    if k == 0 then x else BASE * Up(x, k - 1)
  }

  /** The number denoted by a limb sequence, least significant limb first. */
  function Value(s: seq<Limb>): nat
  {
    if s == [] then 0 else s[0] + BASE * Value(s[1..])
  }

  /** A bignum: `nlimbs` limbs found at `limbs + start`. */
  datatype Mpn = Mpn(limbs: array<Limb>, start: nat, nlimbs: nat)
  {
    ghost predicate InBounds() {
      start + nlimbs <= limbs.Length
    }

    ghost function Digits(): seq<Limb>
      requires InBounds()
      reads limbs
    {
      limbs[start..start + nlimbs]
    }

    ghost function Val(): nat
      requires InBounds()
      reads limbs
    {
      Value(Digits())
    }
  }

  /** No most significant zero limb. */
  predicate Normalised(s: seq<Limb>) {
    s != [] ==> s[|s| - 1] != 0
  }

  // ------------------------------------------------------------------------
  // Nonlinear helpers
  // ------------------------------------------------------------------------

  lemma MulAssoc(a: int, b: int, c: int)
    ensures a * (b * c) == (a * b) * c
  {
  }

  lemma MulMono(a: int, b: int, c: int)
    requires a <= b && 0 <= c
    ensures a * c <= b * c
  {
  }

  lemma ProductBound(x: int, y: int, m: int)
    requires 0 <= x <= m && 0 <= y <= m
    ensures 0 <= x * y <= m * m
  {
    MulMono(0, x, y);
    MulMono(x, m, y);
    MulMono(y, m, m);
  }

  lemma LimbProduct(x: int, y: int)
    requires 0 <= x < BASE && 0 <= y < BASE
    ensures 0 <= x * y <= (BASE - 1) * (BASE - 1)
  {
    ProductBound(x, y, BASE - 1);
  }

  lemma Distribute(a: int, b: int, c: int)
    ensures (a + b) * c == a * c + b * c
    ensures (a - b) * c == a * c - b * c
  {
  }

  // ------------------------------------------------------------------------
  // Powers
  // ------------------------------------------------------------------------

  lemma {:induction false} PowAdd(b: nat, m: nat, n: nat)
    ensures Pow(b, m + n) == Pow(b, m) * Pow(b, n)
  {
    if m > 0 {
      PowAdd(b, m - 1, n);
      MulAssoc(b, Pow(b, m - 1), Pow(b, n));
    }
  }

  lemma SwapFactors(a: int, b: int, x: int, y: int)
    ensures (a * b) * (x * y) == (a * x) * (b * y)
  {
    MulAssoc(a * b, x, y);
    MulAssoc(a * x, b, y);
    assert (a * b) * x == (a * x) * b;
  }

  lemma {:induction false} PowMul(a: nat, b: nat, n: nat)
    ensures Pow(a * b, n) == Pow(a, n) * Pow(b, n)
  {
    if n > 0 {
      PowMul(a, b, n - 1);
      SwapFactors(a, b, Pow(a, n - 1), Pow(b, n - 1));
    }
  }

  lemma {:induction false} PowPow(b: nat, m: nat, n: nat)
    ensures Pow(Pow(b, m), n) == Pow(b, m * n)
  {
    if n > 0 {
      PowPow(b, m, n - 1);
      PowAdd(b, m, m * (n - 1));
      assert m * n == m + m * (n - 1);
    } else {
      assert m * n == 0;
    }
  }

  lemma {:induction false} PowMonotone(b: nat, m: nat, n: nat)
    requires b > 0 && m <= n
    ensures Pow(b, m) <= Pow(b, n)
  {
    if m < n {
      PowMonotone(b, m, n - 1);
      MulMono(1, b, Pow(b, n - 1));
    }
  }

  lemma {:induction false} PowBaseMonotone(a: nat, b: nat, n: nat)
    requires a <= b
    ensures Pow(a, n) <= Pow(b, n)
  {
    if n > 0 {
      PowBaseMonotone(a, b, n - 1);
      MulMono(Pow(a, n - 1), Pow(b, n - 1), a);
      MulMono(a, b, Pow(b, n - 1));
    }
  }

  lemma Pow2Of32()
    ensures Pow(2, 32) == BASE
  {
    PowAdd(2, 8, 8);
    PowAdd(2, 16, 16);
    assert Pow(2, 4) == 16;
    PowAdd(2, 4, 4);
  }

  // ------------------------------------------------------------------------
  // Moving up
  // ------------------------------------------------------------------------

  lemma {:induction false} UpAdd(x: int, y: int, k: nat)
    ensures Up(x + y, k) == Up(x, k) + Up(y, k)
  {
    if k > 0 { UpAdd(x, y, k - 1); }
  }

  lemma UpCarry(o: int, carry: int, k: nat)
    ensures Up(o, k) + Up(carry, k + 1) == Up(o + BASE * carry, k)
  {
    UpUp(carry, 1, k);
    UpAdd(o, BASE * carry, k);
    assert Up(carry, 1) == BASE * carry;
  }

  lemma {:induction false} UpMono(x: int, y: int, k: nat)
    ensures x < y ==> Up(x, k) < Up(y, k)
    ensures x <= y ==> Up(x, k) <= Up(y, k)
  {
    if k > 0 { UpMono(x, y, k - 1); }
  }

  lemma UpReflect(x: int, y: int, k: nat)
    ensures Up(x, k) < Up(y, k) ==> x < y
  {
    UpMono(y, x, k);
  }

  lemma {:induction false} UpZero(k: nat)
    ensures Up(0, k) == 0
  {
    if k > 0 { UpZero(k - 1); }
  }

  lemma {:induction false} UpUp(x: int, m: nat, n: nat)
    ensures Up(Up(x, m), n) == Up(x, m + n)
  {
    if n > 0 { UpUp(x, m, n - 1); }
  }

  /** Multiplication commutes with moving up. */
  lemma {:induction false} UpMul(d: int, x: int, k: nat)
    ensures d * Up(x, k) == Up(d * x, k) == Up(x, k) * d
  {
    if k > 0 {
      UpMul(d, x, k - 1);
      var u := Up(x, k - 1);
      assert d * (BASE * u) == BASE * (d * u);
    }
  }

  lemma {:induction false} UpIsPow(x: int, k: nat)
    ensures Up(x, k) == x * Pow(2, 32 * k)
  {
    if k > 0 {
      UpIsPow(x, k - 1);
      Pow2Of32();
      PowAdd(2, 32, 32 * (k - 1));
      var p := Pow(2, 32 * (k - 1));
      assert x * (BASE * p) == BASE * (x * p);
    }
  }

  lemma {:induction false} UpLonger(m: nat, n: nat)
    requires m <= n
    ensures 0 < Up(1, m) <= Up(1, n)
  {
    if m < n {
      UpLonger(m, n - 1);
    } else {
      UpMono(0, 1, m);
      UpZero(m);
    }
  }

  // ------------------------------------------------------------------------
  // The value of concatenations
  // ------------------------------------------------------------------------

  lemma {:induction false} ValueAppend(s: seq<Limb>, t: seq<Limb>)
    ensures Value(s + t) == Value(s) + Up(Value(t), |s|)
  {
    if s == [] {
      assert s + t == t;
    } else {
      assert (s + t)[1..] == s[1..] + t;
      ValueAppend(s[1..], t);
    }
  }

  lemma ValueSnoc(s: seq<Limb>, x: Limb)
    ensures Value(s + [x]) == Value(s) + Up(x, |s|)
  {
    ValueAppend(s, [x]);
    assert Value([x]) == x;
  }

  lemma ValueNext(s: seq<Limb>, i: nat)
    requires i < |s|
    ensures Value(s[..i + 1]) == Value(s[..i]) + Up(s[i], i)
  {
    assert s[..i + 1] == s[..i] + [s[i]];
    ValueSnoc(s[..i], s[i]);
  }

  /** Splitting off the most significant limb. */
  lemma ValueTop(s: seq<Limb>)
    requires s != []
    ensures Value(s) == Value(s[..|s| - 1]) + Up(s[|s| - 1], |s| - 1)
  {
    assert s == s[..|s| - 1] + [s[|s| - 1]];
    ValueSnoc(s[..|s| - 1], s[|s| - 1]);
  }

  lemma ValueSplit(s: seq<Limb>, k: nat)
    requires k <= |s|
    ensures Value(s) == Value(s[..k]) + Up(Value(s[k..]), k)
  {
    assert s == s[..k] + s[k..];
    ValueAppend(s[..k], s[k..]);
  }

  lemma TailsAgree(s: seq<Limb>, t: seq<Limb>, k: nat)
    requires k <= |s| && k <= |t| && s[k..] == t[k..]
    ensures Value(s) - Value(s[..k]) == Value(t) - Value(t[..k])
  {
    ValueSplit(s, k);
    ValueSplit(t, k);
  }

  lemma {:induction false} ValueBound(s: seq<Limb>)
    ensures Value(s) < Up(1, |s|)
  {
    if s != [] {
      ValueBound(s[1..]);
    }
  }

  lemma {:induction false} ValueZero(s: seq<Limb>)
    requires forall i :: 0 <= i < |s| ==> s[i] == 0
    ensures Value(s) == 0
  {
    if s != [] {
      ValueZero(s[1..]);
    }
  }

  /** A normalised number has exactly as many limbs as its value needs. */
  lemma NormalisedLength(s: seq<Limb>)
    requires Normalised(s) && s != []
    ensures Up(1, |s| - 1) <= Value(s)
  {
    ValueTop(s);
    UpMono(1, s[|s| - 1], |s| - 1);
  }

  /** ... and a number that needs all its limbs is normalised. */
  lemma LongEnough(s: seq<Limb>)
    requires s != [] ==> Up(1, |s| - 1) <= Value(s)
    ensures Normalised(s)
  {
    if s != [] && s[|s| - 1] == 0 {
      DropTopZero(s);
      ValueBound(s[..|s| - 1]);
    }
  }

  lemma ValueOne(x: Limb)
    ensures Value([x]) == x
  {
    assert [x][1..] == [];
  }

  /** Dropping a most significant zero limb keeps the value. */
  lemma DropTopZero(s: seq<Limb>)
    requires s != [] && s[|s| - 1] == 0
    ensures Value(s) == Value(s[..|s| - 1])
  {
    ValueTop(s);
    UpZero(|s| - 1);
  }

  /** Two numbers of different magnitude are ordered by their limb counts. */
  lemma ShorterIsSmaller(s: seq<Limb>, t: seq<Limb>)
    requires |s| < |t| && Normalised(t)
    ensures Value(s) < Value(t)
  {
    ValueBound(s);
    NormalisedLength(t);
    UpLonger(|s|, |t| - 1);
  }

  /** Drops most significant zero limbs. */
  method NormalisedLen(m: Mpn) returns (len: nat)
    requires m.InBounds()
    ensures len <= m.nlimbs
    ensures Value(m.limbs[m.start..m.start + len]) == m.Val()
    ensures Normalised(m.limbs[m.start..m.start + len])
  {
    len := m.nlimbs;
    while len > 0 && m.limbs[m.start + len - 1] == 0
      invariant len <= m.nlimbs
      invariant Value(m.limbs[m.start..m.start + len]) == m.Val()
    {
      DropTopZero(m.limbs[m.start..m.start + len]);
      assert m.limbs[m.start..m.start + len][..len - 1] == m.limbs[m.start..m.start + (len - 1)];
      len := len - 1;
    }
  }

  // ------------------------------------------------------------------------
  // Buffers written limb by limb
  // ------------------------------------------------------------------------

  /** d0 with the limbs from pos onwards overwritten by out. */
  ghost function Overwritten(d0: seq<Limb>, pos: nat, out: seq<Limb>): (d: seq<Limb>)
    requires pos + |out| <= |d0|
    ensures |d| == |d0|
  {
    d0[..pos] + out + d0[pos + |out|..]
  }

  lemma WrittenParts(d0: seq<Limb>, pos: nat, out: seq<Limb>)
    requires pos + |out| <= |d0|
    ensures var d, end := Overwritten(d0, pos, out), pos + |out|;
            d[..pos] == d0[..pos] && d[pos..end] == out && d[end..] == d0[end..]
  {
  }

  lemma WriteNext(d0: seq<Limb>, pos: nat, out: seq<Limb>, o: Limb)
    requires pos + |out| < |d0|
    ensures Overwritten(d0, pos, out)[pos + |out| := o] == Overwritten(d0, pos, out + [o])
  {
  }

  lemma WritePrevious(d0: seq<Limb>, pos: nat, out: seq<Limb>, o: Limb)
    requires 0 < pos && pos + |out| <= |d0|
    ensures Overwritten(d0, pos, out)[pos - 1 := o] == Overwritten(d0, pos - 1, [o] + out)
  {
  }

  lemma SliceUpdate(d: seq<Limb>, lo: nat, hi: nat, i: nat, o: Limb)
    requires lo + i < hi <= |d|
    ensures d[lo + i := o][lo..hi] == d[lo..hi][i := o]
  {
  }

  lemma WriteStart(d0: seq<Limb>, pos: nat)
    requires pos <= |d0|
    ensures Overwritten(d0, pos, []) == d0
  {
  }
}
