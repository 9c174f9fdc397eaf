/** Round-half-even, stated without division. */
module Rounding {
  import opened Limbs

  function Abs(x: int): nat {
    if x < 0 then -x else x
  }

  /** q is the integer nearest to a / b; a tie is resolved to the even neighbour. */
  predicate NearestEven(q: nat, a: nat, b: nat) {
    && 2 * Abs(a - q * b) <= b
    && (2 * Abs(a - q * b) == b ==> q % 2 == 0)
  }

  lemma NoTwoNearest(p: nat, q: nat, a: nat, b: nat)
    requires b > 0 && p < q
    requires NearestEven(p, a, b)
    ensures !NearestEven(q, a, b)
  {
    var gap := (q - p) * b;
    Distribute(q, p, b);
    MulMono(1, q - p, b);
    assert (a - p * b) - (a - q * b) == gap;
    if q - p >= 2 {
      MulMono(2, q - p, b);
    }
  }

  /** The specification determines the result. */
  lemma NearestEvenUnique(p: nat, q: nat, a: nat, b: nat)
    requires b > 0
    requires NearestEven(p, a, b) && NearestEven(q, a, b)
    ensures p == q
  {
    if p < q {
      NoTwoNearest(p, q, a, b);
    } else if q < p {
      NoTwoNearest(q, p, a, b);
    }
  }

  lemma ScaleAbs(k: nat, a: int, c: int)
    ensures Abs(k * a - k * c) == k * Abs(a - c)
  {
    Distribute(a, c, k);
    assert k * a - k * c == k * (a - c);
    if a - c < 0 {
      assert k * (a - c) <= 0;
      assert -(k * (a - c)) == k * (-(a - c));
    } else {
      assert k * (a - c) >= 0;
    }
  }

  lemma ScaleCompare(x: int, y: int, k: nat)
    requires k > 0
    ensures x <= y <==> k * x <= k * y
    ensures x == y <==> k * x == k * y
  {
    if x < y { MulMono(x + 1, y, k); Distribute(x, 1, k); }
    if y < x { MulMono(y + 1, x, k); Distribute(y, 1, k); }
  }

  lemma ScaledDistance(q: nat, a: nat, b: nat, k: nat)
    ensures Abs(a * k - q * (b * k)) == k * Abs(a - q * b)
  {
    MulAssoc(q, b, k);
    ScaleAbs(k, a, q * b);
  }

  lemma CancelFactor(d: nat, b: nat, k: nat, d': int, b': int)
    requires k > 0 && d' == k * d && b' == b * k
    ensures 2 * d' <= b' <==> 2 * d <= b
    ensures 2 * d' == b' <==> 2 * d == b
  {
    ScaleCompare(2 * d, b, k);
  }

  /** Cancelling a common factor changes nothing. */
  lemma NearestEvenScale(q: nat, a: nat, b: nat, k: nat)
    requires k > 0
    ensures NearestEven(q, a * k, b * k) <==> NearestEven(q, a, b)
  {
    ScaledDistance(q, a, b, k);
    CancelFactor(Abs(a - q * b), b, k, Abs(a * k - q * (b * k)), b * k);
  }

  /** Rounding a quotient with remainder. */
  lemma RoundUp(q: nat, r: nat, a: nat, b: nat)
    requires a == q * b + r && r < b
    requires 2 * r > b || (2 * r == b && q % 2 == 1)
    ensures NearestEven(q + 1, a, b)
  {
    assert (q + 1) * b == q * b + b;
  }

  lemma RoundDown(q: nat, r: nat, a: nat, b: nat)
    requires a == q * b + r && r < b
    requires 2 * r < b || (2 * r == b && q % 2 == 0)
    ensures NearestEven(q, a, b)
  {
  }
}
