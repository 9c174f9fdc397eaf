/** Exact rational bounds for the logarithms that size the decimal and bignum buffers. */
module Logarithms {
  import opened Limbs

  // The base is a parameter b, fixed by a precondition, so that the powers are computed by the
  // squarings listed here and not by unrolling their definition.

  lemma Square(b: nat, n: nat, v: nat)
    requires Pow(b, n) == v
    ensures Pow(b, 2 * n) == v * v
  {
    PowAdd(b, n, n);
  }

  lemma Successor(b: nat, n: nat, v: nat)
    requires Pow(b, n) == v
    ensures Pow(b, n + 1) == b * v
  {
  }

  lemma TwoTo202(b: nat)
    requires b == 2
    ensures Pow(b, 202) == 0x400000000000000000000000000000000000000000000000000
  {
    Square(b, 1, 0x2);
    Successor(b, 2, 0x4);
    Square(b, 3, 0x8);
    Square(b, 6, 0x40);
    Square(b, 12, 0x1000);
    Successor(b, 24, 0x1000000);
    Square(b, 25, 0x2000000);
    Square(b, 50, 0x4000000000000);
    Successor(b, 100, 0x10000000000000000000000000);
    Square(b, 101, 0x20000000000000000000000000);
  }

  lemma FiveTo87(b: nat)
    requires b == 5
    ensures Pow(b, 87) == 0x40582f2d6305b0bc2a27c0ac18ad82da1617c47b470070c48ed
  {
    Square(b, 1, 0x5);
    Square(b, 2, 0x19);
    Successor(b, 4, 0x271);
    Square(b, 5, 0xc35);
    Square(b, 10, 0x9502f9);
    Successor(b, 20, 0x56bc75e2d631);
    Square(b, 21, 0x1b1ae4d6e2ef5);
    Successor(b, 42, 0x2deaf189c140c16b7c528f679);
    Square(b, 43, 0xe596b7b0c643c7196d9ccd05d);
    Successor(b, 86, 0xcde6fd5e09abcf26ed4c0226b55e6f86ad18db241667cf41c9);
  }

  lemma FiveTo205(b: nat)
    requires b == 5
    ensures Pow(b, 205) == 0xff290242c83396ce7e67047175a152712d7d9d59a4583f261f0c9ce92e97d651fda41f575373e9fe737308f86f50d25f0731e96a86bbf1e46d49495
  {
    Square(b, 1, 0x5);
    Successor(b, 2, 0x19);
    Square(b, 3, 0x7d);
    Square(b, 6, 0x3d09);
    Square(b, 12, 0xe8d4a51);
    Successor(b, 24, 0xd3c21bcecceda1);
    Square(b, 25, 0x422ca8b0a00a425);
    Successor(b, 50, 0x111b0ec57e6499a1f4b1014d3f6d59);
    Square(b, 51, 0x558749db77f70029c77506823d22bd);
    Square(b, 102, 0x1c931e8ab871732f416dbf7381f2ac88e244de13b962cab688bd86c8bf89);
    Successor(b, 204, 0x330833a6f4d71e294c7b00e37ded107d09191f785411a63ad30285c83c84c476cc540644aa4a61ffb0b09b64e3102a13017061e21af2639415db751);
  }

  lemma TwoTo476(b: nat)
    requires b == 2
    ensures Pow(b, 476) == 0x100000000000000000000000000000000000000000000000000000000000000000000000000000000000000000000000000000000000000000000000
  {
    Square(b, 1, 0x2);
    Successor(b, 2, 0x4);
    Square(b, 3, 0x8);
    Successor(b, 6, 0x40);
    Square(b, 7, 0x80);
    Square(b, 14, 0x4000);
    Successor(b, 28, 0x10000000);
    Square(b, 29, 0x20000000);
    Successor(b, 58, 0x400000000000000);
    Square(b, 59, 0x800000000000000);
    Successor(b, 118, 0x400000000000000000000000000000);
    Square(b, 119, 0x800000000000000000000000000000);
    Square(b, 238, 0x400000000000000000000000000000000000000000000000000000000000);
  }

  lemma {:induction false} PowStrict(x: nat, y: nat, n: nat)
    requires x < y && n > 0
    ensures Pow(x, n) < Pow(y, n)
  {
    if n > 1 {
      PowStrict(x, y, n - 1);
      StrictProduct(x, y, Pow(x, n - 1), Pow(y, n - 1));
    } else {
      assert Pow(x, 1) == x && Pow(y, 1) == y;
    }
  }

  lemma StrictProduct(x: nat, y: nat, p: nat, q: nat)
    requires x < y && p < q
    ensures x * p < y * q
  {
    MulMono(x, y, p);
    MulMono(p + 1, q, y);
    Distribute(p, 1, y);
  }

  lemma RootMonotone(x: nat, y: nat, t: nat)
    requires t > 0 && Pow(x, t) <= Pow(y, t)
    ensures x <= y
  {
    if y < x {
      PowStrict(y, x, t);
    }
  }

  lemma RaiseBoth(a: nat, b: nat, s: nat, t: nat, n: nat)
    requires Pow(a, s) <= Pow(b, t)
    ensures Pow(a, s * n) <= Pow(Pow(b, n), t)
  {
    PowPow(a, s, n);
    PowPow(b, t, n);
    PowPow(b, n, t);
    PowBaseMonotone(Pow(a, s), Pow(b, t), n);
    assert n * t == t * n;
  }

  /** From a^s <= b^t to a^m <= b^n whenever m / n does not exceed s / t. */
  lemma CompareExponents(a: nat, b: nat, s: nat, t: nat, m: nat, n: nat)
    requires a > 0 && t > 0 && Pow(a, s) <= Pow(b, t) && m * t <= s * n
    ensures Pow(a, m) <= Pow(b, n)
  {
    MulMono(0, m, t);
    PowMonotone(a, m * t, s * n);
    PowPow(a, m, t);
    RaiseBoth(a, b, s, t, n);
    RootMonotone(Pow(a, m), Pow(b, n), t);
  }

  /** 2^289 <= 10^87 */
  lemma TwoVersusTen(a: nat, b: nat, c: nat)
    requires a == 2 && b == 5 && c == a * b
    ensures Pow(a, 289) <= Pow(c, 87)
  {
    TwoTo202(a);
    FiveTo87(b);
    PowMul(a, b, 87);
    PowAdd(a, 202, 87);
    MulMono(Pow(a, 202), Pow(b, 87), Pow(a, 87));
  }

  /** 5^205 <= 2^476 */
  lemma FiveVersusTwo(a: nat, b: nat)
    requires a == 2 && b == 5
    ensures Pow(b, 205) <= Pow(a, 476)
  {
    TwoTo476(a);
    FiveTo205(b);
  }

  /** The factor 0.03345 of `convert_to_decimal`, taken as an exact rational: limbs to chunks of
      nine decimal digits. */
  function ChunkBound(a_len: nat): nat {
    a_len * 32 * 3345 / 100000 + 1
  }

  lemma LimbsFitChunks(a_len: nat)
    ensures Pow(2, 32 * a_len) <= Pow(10, 9 * ChunkBound(a_len))
  {
    TwoVersusTen(2, 5, 10);
    CompareExponents(2, 10, 289, 87, 32 * a_len, 9 * ChunkBound(a_len));
  }

  /** The factor 2.322 of `scale10_round_decimal_decoded`, taken as an exact rational: the limbs of 5^n. */
  function Pow5Bound(n: nat): nat {
    n * 2322 / 32000 + 1
  }

  lemma {:induction false} PowersOfFiveAreOdd(n: nat)
    ensures Pow(5, n) % 2 == 1
  {
    if n > 0 { PowersOfFiveAreOdd(n - 1); }
  }

  lemma EvenPower(k: nat)
    requires k > 0
    ensures Pow(2, k) % 2 == 0
  {
  }

  lemma DifferentParity(x: int, y: int)
    requires x <= y && x % 2 != y % 2
    ensures x < y
  {
  }

  lemma Pow5FitsLimbs(n: nat)
    ensures Pow(5, n) < Pow(2, 32 * Pow5Bound(n))
  {
    FiveVersusTwo(2, 5);
    CompareExponents(5, 2, 205, 476, n, 32 * Pow5Bound(n));
    PowersOfFiveAreOdd(n);
    EvenPower(32 * Pow5Bound(n));
    DifferentParity(Pow(5, n), Pow(2, 32 * Pow5Bound(n)));
  }
}
