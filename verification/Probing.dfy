/** The probe sequence of double hashing in a table of prime size visits every slot. */
module Probing {

  ghost predicate Prime(p: int) {
    p > 1 && forall d :: 1 < d < p ==> p % d != 0
  }

  lemma RemainderOf(a: int, q: int, r: int, p: int)
    requires p > 0 && a == q * p + r && 0 <= r < p
    ensures a % p == r
  {
    var d := a / p;
    if d < q {
      AtLeast(q - d, p);
    } else if d > q {
      AtLeast(d - q, p);
    }
  }

  lemma AtLeast(k: int, p: int)
    requires k >= 1 && p > 0
    ensures k * p >= p
  {
  }

  /** A multiple of p stays one after removing a multiple of p times k. */
  lemma ReduceFactor(k: int, a: int, p: int)
    requires p > 0 && a > 0 && (k * a) % p == 0
    ensures (k * (p % a)) % p == 0
  {
    var m, q := k * a / p, p / a;
    assert k * a == m * p;
    assert p == q * a + p % a;
    Expand(k, q, a, p % a);
    Swap(k, q, a, m, p);
    RemainderOf(k * (p % a), k - q * m, 0, p);
  }

  lemma Expand(k: int, q: int, a: int, r: int)
    ensures k * (q * a + r) == q * (k * a) + k * r
  {
  }

  lemma Swap(k: int, q: int, a: int, m: int, p: int)
    requires k * a == m * p
    ensures q * (k * a) == (q * m) * p
    ensures (k - q * m) * p == k * p - (q * m) * p
  {
  }

  /** Euclid's lemma: a prime divides no product of smaller positive numbers. */
  lemma {:induction false} NoZeroProduct(k: int, a: int, p: int)
    requires Prime(p) && 0 < k < p && 0 < a < p
    ensures (k * a) % p != 0
    decreases a
  {
    if (k * a) % p == 0 {
      if a == 1 {
        RemainderOf(k, 0, k, p);
      } else {
        ReduceFactor(k, a, p);
        NoZeroProduct(k, p % a, p);
      }
    }
  }

  /** The slot of probe number k. */
  function Probe(start: nat, incr: nat, k: nat, p: nat): (i: nat)
    requires p > 0
    ensures i < p
  {
    (start + k * incr) % p
  }

  lemma ProbesDiffer(start: nat, incr: nat, j: nat, k: nat, p: nat)
    requires Prime(p) && 0 < incr < p && j < k < p
    ensures Probe(start, incr, j, p) != Probe(start, incr, k, p)
  {
    var x, y := start + j * incr, start + k * incr;
    if x % p == y % p {
      assert y - x == (k - j) * incr;
      var d := y / p - x / p;
      assert y - x == d * p by {
        assert x == x / p * p + x % p && y == y / p * p + y % p;
      }
      RemainderOf((k - j) * incr, d, 0, p);
      NoZeroProduct(k - j, incr, p);
    }
  }

  ghost function Visited(start: nat, incr: nat, n: nat, p: nat): set<nat>
    requires p > 0
  {
    set k | 0 <= k < n :: Probe(start, incr, k, p)
  }

  lemma {:induction false} VisitedSize(start: nat, incr: nat, n: nat, p: nat)
    requires Prime(p) && 0 < incr < p && n <= p
    ensures |Visited(start, incr, n, p)| == n
  {
    if n == 0 {
      assert Visited(start, incr, 0, p) == {};
    } else {
      VisitedSize(start, incr, n - 1, p);
      var i := Probe(start, incr, n - 1, p);
      assert Visited(start, incr, n, p) == Visited(start, incr, n - 1, p) + {i};
      forall k | 0 <= k < n - 1
        ensures Probe(start, incr, k, p) != i
      {
        ProbesDiffer(start, incr, k, n - 1, p);
      }
    }
  }

  /** The slots. */
  ghost function Below(p: nat): (s: set<nat>)
    ensures forall i: nat :: i in s <==> i < p
  {
    if p == 0 then {} else Below(p - 1) + {p - 1}
  }

  lemma {:induction false} BelowSize(p: nat)
    ensures |Below(p)| == p
  {
    if p > 0 {
      BelowSize(p - 1);
    }
  }

  lemma {:induction false} SubsetFull(a: set<nat>, b: set<nat>)
    requires a <= b && |a| == |b|
    ensures a == b
    decreases |a|
  {
    if x :| x in b && x !in a {
      assert |b - {x}| == |b| - 1;
      SubsetSize(a, b - {x});
    }
  }

  lemma {:induction false} SubsetSize(a: set<nat>, b: set<nat>)
    requires a <= b
    ensures |a| <= |b|
    decreases |a|
  {
    if x :| x in a {
      SubsetSize(a - {x}, b - {x});
    }
  }

  /** A probe sequence of prime size visits all slots. */
  lemma VisitsAll(start: nat, incr: nat, p: nat, slot: nat) returns (k: nat)
    requires Prime(p) && 0 < incr < p && slot < p
    ensures k < p && Probe(start, incr, k, p) == slot
  {
    VisitedSize(start, incr, p, p);
    BelowSize(p);
    SubsetFull(Visited(start, incr, p, p), Below(p));
    assert slot in Visited(start, incr, p, p);
    k :| 0 <= k < p && Probe(start, incr, k, p) == slot;
  }

  /** The next probe: the sum of index and increment modulo the size, computed without overflow. */
  lemma NextProbe(start: nat, incr: nat, k: nat, p: nat)
    requires 0 < incr < p
    ensures var idx := Probe(start, incr, k, p);
            Probe(start, incr, k + 1, p) == if idx >= p - incr then idx - (p - incr) else idx + incr
  {
    var x := start + k * incr;
    var q, r := x / p, x % p;
    assert start + (k + 1) * incr == x + incr;
    assert x == q * p + r;
    if r >= p - incr {
      assert (q + 1) * p == q * p + p;
      RemainderOf(x + incr, q + 1, r + incr - p, p);
    } else {
      RemainderOf(x + incr, q, r + incr, p);
    }
  }
}
