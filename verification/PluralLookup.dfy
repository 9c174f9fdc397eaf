/** Choosing the plural form of a translation. */
module PluralLookup {
  import opened Wrappers
  import opened PluralExp
  import opened PluralEval

  /** The number of NULs in front of position k. */
  ghost function Nuls(t: string, k: nat): nat
    requires k <= |t|
  {
    if k == 0 then 0 else Nuls(t, k - 1) + (if t[k - 1] == '\0' then 1 else 0)
  }

  /** Variant number index of the translation t begins at position p. */
  ghost predicate Begins(t: string, index: nat, p: nat) {
    p < |t| && Nuls(t, p) == index && (p == 0 || t[p - 1] == '\0')
  }

  lemma {:induction false} NulsMonotone(t: string, i: nat, j: nat)
    requires i <= j <= |t|
    ensures Nuls(t, i) <= Nuls(t, j)
    decreases j
  {
    if i < j {
      NulsMonotone(t, i, j - 1);
    }
  }

  lemma {:induction false} NoNuls(t: string, i: nat, j: nat)
    requires i <= j <= |t| && forall k :: i <= k < j ==> t[k] != '\0'
    ensures Nuls(t, j) == Nuls(t, i)
    decreases j
  {
    if i < j {
      NoNuls(t, i, j - 1);
    }
  }

  /** Each variant begins at one place. */
  lemma BeginsOnce(t: string, index: nat, p: nat, q: nat)
    requires Begins(t, index, p) && Begins(t, index, q)
    ensures p == q
  {
    if p < q {
      NulsMonotone(t, p, q - 1);
    } else if q < p {
      NulsMonotone(t, q, p - 1);
    }
  }

  /** strchr (p, '\0'). */
  method FindNul(t: string, p: nat) returns (q: nat)
    requires p < |t| && t[|t| - 1] == '\0'
    ensures p <= q < |t| && t[q] == '\0' && forall k :: p <= k < q ==> t[k] != '\0'
  {
    q := p;
    while t[q] != '\0'
      invariant p <= q < |t| && forall k :: p <= k < q ==> t[k] != '\0'
      decreases |t| - q
    {
      q := q + 1;
    }
  }

  /** The position of the variant that the plural expression selects for n, or of the first one if there
      is no such variant. A division by zero in the expression gives None. */
  method Lookup(plural: Expression, nplurals: nat, n: nat, m: ULongRange, t: string) returns (r: Option<nat>)
    requires WellFormed(plural, m) && n < m
    requires t != "" && t[|t| - 1] == '\0'
    ensures r == None <==> Eval(plural, n, m) == Sigfpe
    ensures r.Some? ==>
              var v := Eval(plural, n, m).v;
              var index := if v >= nplurals then 0 else v;
              if index < Nuls(t, |t|) then Begins(t, index, r.value) else r.value == 0
  {
    var value := Eval(plural, n, m);
    if value.Sigfpe? {
      return None;
    }
    var index := if value.v >= nplurals then 0 else value.v;
    var p, left: int := 0, index;
    while left > 0
      invariant 0 <= left <= index && Begins(t, index - left, p)
      decreases left
    {
      left := left - 1;
      var q := FindNul(t, p);
      NoNuls(t, p, q);
      p := q + 1;
      if p >= |t| {
        return Some(0);
      }
    }
    NulsMonotone(t, p, |t| - 1);
    return Some(p);
  }
}
