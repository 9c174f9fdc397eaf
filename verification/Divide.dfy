/** Bignum division with round-half-even. */
module Divide {
  import opened Limbs
  import opened Division
  import opened DivisionStep
  import opened ShortDivision
  import opened Rounding

  // ------------------------------------------------------------------------
  // The multiple-precision loop; quotient and remainder share one buffer
  // ------------------------------------------------------------------------

  /** The digits from position j upwards are final: a == q * beta^j * b + r with r < b * beta^j,
      where r occupies room[..n + j] and q the limbs above. */
  ghost predicate Divided(a: nat, b: nat, room: seq<Limb>, n: nat, j: nat) {
    && n + j <= |room|
    && a == Up(Value(room[n + j..]) * b, j) + Value(room[..n + j])
    && Value(room[..n + j]) < Up(b, j)
  }

  lemma NextWindow(a: nat, b: nat, room: seq<Limb>, n: nat, j: nat)
    requires Divided(a, b, room, n, j + 1)
    ensures Value(room[j..j + n + 1]) < b * BASE
  {
    SplitAt(room, j, n + 1);
    UpUp(b, 1, j);
    UpMono(BASE * b, Value(room[j..j + n + 1]), j);
    assert Up(b, 1) == BASE * b;
  }

  /** One digit: the window is split into digit * b + rest. */
  lemma NextDigit(a: int, b: int, j: nat, hi: int, low: int, window: int, digit: int, rest: int)
    requires a == Up(hi * b, j + 1) + (low + Up(window, j))
    requires DigitFound(digit, b, window, rest) && 0 <= low < Up(1, j)
    ensures a == Up((digit + BASE * hi) * b, j) + (low + Up(rest, j))
    ensures low + Up(rest, j) < Up(b, j)
  {
    UpAdd(digit * b, rest, j);
    UpCarry(digit * b, hi * b, j);
    assert (digit + BASE * hi) * b == digit * b + BASE * (hi * b);
    UpMono(rest + 1, b, j);
    UpAdd(rest, 1, j);
  }

  lemma DividedOneMore(a: nat, b: nat, s: seq<Limb>, t: seq<Limb>, n: nat, j: nat)
    requires Divided(a, b, s, n, j + 1) && |t| == |s|
    requires t[..j] == s[..j] && t[j + n + 1..] == s[j + n + 1..]
    requires DigitFound(t[j + n], b, Value(s[j..j + n + 1]), Value(t[j..j + n]))
    ensures Divided(a, b, t, n, j)
  {
    SplitAt(s, j, n + 1);
    SplitAt(t, j, n);
    ValueBound(t[..j]);
    var hi := s[n + j + 1..];
    assert t[n + j..] == [t[j + n]] + hi;
    assert Value(t[n + j..]) == t[j + n] + BASE * Value(hi);
    NextDigit(a, b, j, Value(hi), Value(s[..j]), Value(s[j..j + n + 1]), t[j + n], Value(t[j..j + n]));
  }

  lemma SplitAt(s: seq<Limb>, j: nat, n: nat)
    requires j + n <= |s|
    ensures Value(s[..n + j]) == Value(s[..j]) + Up(Value(s[j..j + n]), j)
  {
    var r := s[..n + j];
    ValueSplit(r, j);
    assert r[..j] == s[..j] && r[j..] == s[j..j + n];
  }

  /** Divides the number in room by b. Afterwards room[..n] is the remainder and room[n..] the quotient. */
  method LongDivide(room: array<Limb>, m: nat, b: Mpn)
    requires b.InBounds() && room != b.limbs && 2 <= b.nlimbs <= m < room.Length
    requires b.limbs[b.start + b.nlimbs - 1] >= 0x8000_0000
    requires Value(room[..m + 1]) < Up(b.Val(), m - b.nlimbs + 1)
    modifies room
    ensures DigitFound(Value(room[b.nlimbs..m + 1]), b.Val(), old(Value(room[..m + 1])), Value(room[..b.nlimbs]))
  {
    var n := b.nlimbs;
    ghost var a, bv := Value(room[..m + 1]), b.Val();
    var j := m - n + 1;
    NothingDivided(bv, room[..m + 1], n, j);
    while j > 0
      invariant 0 <= j <= m - n + 1 && b.Val() == bv
      invariant Divided(a, bv, room[..m + 1], n, j)
    {
      j := j - 1;
      ghost var s := room[..m + 1];
      NextWindow(a, bv, s, n, j);
      DigitInto(room, m, b, j, s);
      DividedOneMore(a, bv, s, room[..m + 1], n, j);
    }
    Finished(a, bv, room[..m + 1], n);
    ghost var t := room[..m + 1];
    assert t[n..] == room[n..m + 1];
    assert t[..n] == room[..n];
  }

  lemma NothingDivided(b: nat, s: seq<Limb>, n: nat, j: nat)
    requires |s| == n + j && Value(s) < Up(b, j)
    ensures Divided(Value(s), b, s, n, j)
  {
    WholeSlices(s, n + j);
    UpZero(j);
    ZeroTimes(b);
  }

  lemma WholeSlices(s: seq<Limb>, k: nat)
    requires k == |s|
    ensures s[..k] == s && s[k..] == [] && Value(s[k..]) == 0
  {
  }

  lemma ZeroTimes(b: nat)
    ensures 0 * b == 0
  {
  }

  lemma Finished(a: nat, b: nat, s: seq<Limb>, n: nat)
    requires Divided(a, b, s, n, 0)
    ensures DigitFound(Value(s[n..]), b, a, Value(s[..n]))
  {
  }

  /** QuotientDigit, seen from the used part of the buffer. */
  method DigitInto(room: array<Limb>, m: nat, b: Mpn, j: nat, ghost s: seq<Limb>)
    requires b.InBounds() && b.nlimbs >= 2 && room != b.limbs && j + b.nlimbs <= m < room.Length
    requires b.limbs[b.start + b.nlimbs - 1] >= 0x8000_0000
    requires s == room[..m + 1] && Value(s[j..j + b.nlimbs + 1]) < b.Val() * BASE
    modifies room
    ensures var t, n := room[..m + 1], b.nlimbs;
            && t[..j] == s[..j] && t[j + n + 1..] == s[j + n + 1..]
            && DigitFound(t[j + n], b.Val(), Value(s[j..j + n + 1]), Value(t[j..j + n]))
  {
    var n := b.nlimbs;
    assert s[j..j + n + 1] == room[j..j + n + 1];
    ghost var all := room[..];
    assert s[..j] == all[..j] && s[j + n + 1..] == all[j + n + 1..][..m - j - n];
    QuotientDigit(b, room, j);
    ghost var t := room[..m + 1];
    assert t == room[..][..m + 1];
    assert t[..j] == room[..j] && t[j + n + 1..] == room[j + n + 1..][..m - j - n];
    assert t[j..j + n] == room[..][j..j + n] == room[j..j + n];
  }

  // ------------------------------------------------------------------------
  // Comparing r << 1 with b
  // ------------------------------------------------------------------------

  /** Limb i of r << 1. */
  function DoubledLimb(r: seq<Limb>, i: nat): Limb {
    (if i <= |r| && i > 0 then r[i - 1] / 0x8000_0000 else 0) + (if i < |r| then r[i] * 2 % BASE else 0)
  }

  ghost function Doubled(r: seq<Limb>, n: nat, carry: Limb): (d: seq<Limb>)
    requires |r| <= n && carry <= 1
    ensures |d| == n + 1
  {
    if n == 0 then [carry]
    else if r == [] then [carry] + Doubled([], n - 1, 0)
    else [carry + r[0] * 2 % BASE] + Doubled(r[1..], n - 1, r[0] / 0x8000_0000)
  }

  lemma {:induction false} DoubledValue(r: seq<Limb>, n: nat, carry: Limb)
    requires |r| <= n && carry <= 1
    ensures Value(Doubled(r, n, carry)) == 2 * Value(r) + carry
  {
    var d := Doubled(r, n, carry);
    if n == 0 {
      assert d[1..] == [];
    } else if r == [] {
      DoubledValue([], n - 1, 0);
      assert d[1..] == Doubled([], n - 1, 0);
    } else {
      DoubledValue(r[1..], n - 1, r[0] / 0x8000_0000);
      assert d[1..] == Doubled(r[1..], n - 1, r[0] / 0x8000_0000);
    }
  }

  lemma {:induction false} DoubledAt(r: seq<Limb>, n: nat, carry: Limb, i: nat)
    requires |r| <= n && carry <= 1 && i <= n
    ensures Doubled(r, n, carry)[i] == if i == 0 then carry + DoubledLimb(r, 0) else DoubledLimb(r, i)
  {
    if n > 0 && i > 0 {
      if r == [] {
        DoubledAt([], n - 1, 0, i - 1);
      } else {
        DoubledAt(r[1..], n - 1, r[0] / 0x8000_0000, i - 1);
      }
    }
  }

  /** The first differing limb from the top decides. */
  lemma CompareFromTop(s: seq<Limb>, t: seq<Limb>, i: nat)
    requires |s| == |t| && i < |s| && s[i] < t[i]
    requires forall k :: i < k < |s| ==> s[k] == t[k]
    ensures Value(s) < Value(t)
  {
    assert s[i + 1..] == t[i + 1..];
    TailsAgree(s, t, i + 1);
    ValueNext(s, i);
    ValueNext(t, i);
    ValueBound(s[..i]);
    UpMono(s[i] + 1, t[i], i);
    UpAdd(s[i], 1, i);
  }

  /** Limb i of r << 1 and of b, read from their buffers. */
  method LimbsToCompare(r: Mpn, b: Mpn, i: nat) returns (r_i: Limb, b_i: Limb)
    requires r.InBounds() && b.InBounds() && r.nlimbs <= b.nlimbs && i <= b.nlimbs
    ensures r_i == Doubled(r.Digits(), b.nlimbs, 0)[i]
    ensures b_i == (b.Digits() + [0])[i]
  {
    DoubledAt(r.Digits(), b.nlimbs, 0, i);
    r_i := (if i <= r.nlimbs && i > 0 then r.limbs[r.start + i - 1] / 0x8000_0000 else 0)
         + (if i < r.nlimbs then r.limbs[r.start + i] * 2 % BASE else 0);
    b_i := if i < b.nlimbs then b.limbs[b.start + i] else 0;
  }

  /** c is the sign of x - y. */
  ghost predicate IsComparison(c: int, x: int, y: int) {
    (c < 0 <==> x < y) && (c > 0 <==> x > y)
  }

  lemma CompareAt(s: seq<Limb>, t: seq<Limb>, i: nat, c: int)
    requires |s| == |t| && i < |s| && s[i] != t[i]
    requires forall k :: i < k < |s| ==> s[k] == t[k]
    requires c == if s[i] > t[i] then 1 else -1
    ensures IsComparison(c, Value(s), Value(t))
  {
    if s[i] < t[i] {
      CompareFromTop(s, t, i);
    } else {
      CompareFromTop(t, s, i);
    }
  }

  /** Compares r << 1 with b limb by limb from the top. */
  method CompareLimbs(r: Mpn, b: Mpn, ghost s: seq<Limb>, ghost t: seq<Limb>) returns (c: int)
    requires r.InBounds() && b.InBounds() && r.nlimbs <= b.nlimbs
    requires s == Doubled(r.Digits(), b.nlimbs, 0) && t == b.Digits() + [0]
    ensures IsComparison(c, Value(s), Value(t))
  {
    var i := b.nlimbs;
    while true
      invariant 0 <= i <= b.nlimbs
      invariant forall k :: i < k < |s| ==> s[k] == t[k]
      decreases i
    {
      var r_i, b_i := LimbsToCompare(r, b, i);
      if r_i > b_i {
        CompareAt(s, t, i, 1);
        return 1;
      }
      if r_i < b_i {
        CompareAt(s, t, i, -1);
        return -1;
      }
      if i == 0 {
        break;
      }
      i := i - 1;
    }
    assert s == t;
    c := 0;
  }

  /** Compares 2 * r with b: negative, zero or positive. */
  method CompareDoubled(r: Mpn, b: Mpn) returns (c: int)
    requires r.InBounds() && b.InBounds() && Normalised(r.Digits())
    ensures IsComparison(c, 2 * r.Val(), b.Val())
  {
    if r.nlimbs > b.nlimbs {
      ShorterIsSmaller(b.Digits(), r.Digits());
      return 1;
    }
    ghost var s, t := Doubled(r.Digits(), b.nlimbs, 0), b.Digits() + [0];
    DoubledValue(r.Digits(), b.nlimbs, 0);
    ValueSnoc(b.Digits(), 0);
    UpZero(b.nlimbs);
    c := CompareLimbs(r, b, s, t);
  }

  // ------------------------------------------------------------------------
  // Incrementing the quotient
  // ------------------------------------------------------------------------

  /** The i lowest limbs of q0 have overflowed to zero. */
  ghost predicate Overflowed(q0: seq<Limb>, q1: seq<Limb>, i: nat) {
    && |q0| == |q1| && i <= |q0|
    && q1[i..] == q0[i..]
    && Value(q1[..i]) + Up(1, i) == Value(q0[..i]) + 1
  }

  /** q2 is q1 with its limb i, the limb of q0, replaced by o. */
  ghost predicate LimbReplaced(q0: seq<Limb>, q1: seq<Limb>, q2: seq<Limb>, i: nat, o: Limb) {
    && |q0| == |q1| == |q2| && i < |q0|
    && q2[..i] == q1[..i] && q2[i + 1..] == q0[i + 1..] && q2[i] == o && q1[i] == q0[i]
  }

  lemma IncrementStep(q0: seq<Limb>, q1: seq<Limb>, i: nat, o: Limb)
    requires Overflowed(q0, q1, i) && i < |q0|
    ensures LimbReplaced(q0, q1, q1[i := o], i, o)
  {
    assert q1[i] == q1[i..][0] == q0[i..][0] == q0[i];
    assert q1[i := o][i + 1..] == q1[i..][1..] && q0[i + 1..] == q0[i..][1..];
  }

  lemma IncrementDone(q0: seq<Limb>, q1: seq<Limb>, q2: seq<Limb>, i: nat, o: Limb)
    requires Overflowed(q0, q1, i) && LimbReplaced(q0, q1, q2, i, o) && o == q1[i] as int + 1
    ensures Value(q2) == Value(q0) + 1
  {
    TailsAgree(q0, q2, i + 1);
    ValueNext(q0, i);
    ValueNext(q2, i);
    PassOne(Value(q0[..i]), Value(q2[..i]), q0[i], q2[i], i);
  }

  lemma PassOne(u: int, v: int, x: int, y: int, i: nat)
    requires v + Up(1, i) == u + 1 && y == x + 1
    ensures v + Up(y, i) == u + Up(x, i) + 1
  {
    UpAdd(x, 1, i);
  }

  lemma IncrementCarries(q0: seq<Limb>, q1: seq<Limb>, q2: seq<Limb>, i: nat)
    requires Overflowed(q0, q1, i) && LimbReplaced(q0, q1, q2, i, 0) && q1[i] == BASE - 1
    ensures Overflowed(q0, q2, i + 1)
  {
    ValueNext(q0, i);
    ValueNext(q2, i);
    UpZero(i);
    UpUp(1, 1, i);
    UpAdd(BASE - 1, 1, i);
    assert Up(1, 1) == BASE;
  }

  /** Adds one to q, growing it by a limb when all its limbs overflow. */
  method Increment(q: Mpn) returns (q': Mpn)
    requires q.start + q.nlimbs < q.limbs.Length && Normalised(q.Digits())
    modifies q.limbs
    ensures q'.limbs == q.limbs && q'.InBounds()
    ensures q'.Val() == old(q.Val()) + 1 && Normalised(q'.Digits())
  {
    ghost var q0 := q.Digits();
    var i := 0;
    while i < q.nlimbs
      invariant i <= q.nlimbs
      invariant Overflowed(q0, q.Digits(), i)
    {
      ghost var q1 := q.Digits();
      SliceUpdate(q.limbs[..], q.start, q.start + q.nlimbs, i, (q1[i] + 1) % BASE);
      var o: Limb := (q.limbs[q.start + i] + 1) % BASE;
      q.limbs[q.start + i] := o;
      assert q.Digits() == q.limbs[..][q.start..q.start + q.nlimbs] == q1[i := o];
      IncrementStep(q0, q1, i, o);
      if o != 0 {
        IncrementDone(q0, q1, q.Digits(), i, o);
        StillNormalised(q0, q.Digits());
        return q;
      }
      IncrementCarries(q0, q1, q.Digits(), i);
      i := i + 1;
    }
    ghost var q1 := q.Digits();
    assert q1[..i] == q1 && q0[..i] == q0;
    q.limbs[q.start + i] := 1;
    q' := Mpn(q.limbs, q.start, i + 1);
    assert q'.Digits() == q1 + [1];
    ValueSnoc(q1, 1);
  }

  lemma StillNormalised(q0: seq<Limb>, q1: seq<Limb>)
    requires |q0| == |q1| && Normalised(q0) && Value(q0) <= Value(q1)
    ensures Normalised(q1)
  {
    if q0 != [] {
      NormalisedLength(q0);
    }
    LongEnough(q1);
  }

  // ------------------------------------------------------------------------
  // Division
  // ------------------------------------------------------------------------

  /** The outcomes of `divide`. Aborted is the call of abort() for a zero divisor. */
  datatype Result = OutOfMemory | Aborted | Rounded(q: Mpn)

  /** The quotient and remainder left in the buffer before rounding. */
  ghost predicate Remainder(a: nat, b: nat, q: Mpn, r: Mpn)
    requires q.InBounds() && r.InBounds()
    reads q.limbs, r.limbs
  {
    && DigitFound(q.Val(), b, a, r.Val())
    && Normalised(q.Digits())
    && Normalised(r.Digits())
  }

  /** The final rounding step: increments q when r > b/2, or r = b/2 and q is odd. */
  method RoundQuotient(q: Mpn, r: Mpn, b: Mpn, ghost a: nat) returns (q': Mpn)
    requires q.start + q.nlimbs < q.limbs.Length && r.InBounds() && b.InBounds()
    requires q.limbs != b.limbs
    requires Remainder(a, b.Val(), q, r)
    modifies q.limbs
    ensures q'.limbs == q.limbs && q'.InBounds() && Normalised(q'.Digits())
    ensures NearestEven(q'.Val(), a, old(b.Val()))
  {
    ghost var qv, rv, bv := q.Val(), r.Val(), b.Val();
    var c := CompareDoubled(r, b);
    var odd := q.nlimbs > 0 && q.limbs[q.start] % 2 != 0;
    assert odd <==> qv % 2 == 1 by { Parity(q.Digits()); }
    if c > 0 || (c == 0 && odd) {
      RoundUp(qv, rv, a, bv);
      q' := Increment(q);
    } else {
      RoundDown(qv, rv, a, bv);
      q' := q;
    }
  }

  lemma Parity(s: seq<Limb>)
    ensures (s != [] && s[0] % 2 != 0) <==> Value(s) % 2 == 1
  {
  }

  /** A quotient of m - n + 1 limbs has at most one leading zero. */
  lemma OneLeadingZero(a: nat, b: nat, q: seq<Limb>, rest: nat, m: nat, n: nat)
    requires 1 <= n <= m && |q| == m - n + 1
    requires Up(1, m - 1) <= a && b < Up(1, n) && DigitFound(Value(q), b, a, rest)
    requires q[|q| - 1] == 0
    ensures Value(q[..|q| - 1]) == Value(q) && Normalised(q[..|q| - 1])
  {
    DropTopZero(q);
    if m > n {
      if Value(q) + 1 <= Up(1, m - n - 1) {
        ProductBound(Value(q) + 1, b, m - n - 1, n);
        Distribute(Value(q), 1, b);
        assert false;
      }
    }
    LongEnough(q[..|q| - 1]);
  }

  lemma ProductBound(x: int, b: int, k: nat, n: nat)
    requires 0 <= x <= Up(1, k) && 0 <= b <= Up(1, n)
    ensures x * b <= Up(1, k + n)
  {
    MulMono(x, Up(1, k), b);
    MulMono(b, Up(1, n), Up(1, k));
    UpMul(Up(1, k), 1, n);
    UpUp(1, k, n);
    assert Up(1, k) * b == b * Up(1, k);
    assert Up(1, n) * Up(1, k) == Up(1, k) * Up(1, n);
  }

  /** a < b: the quotient is zero and the remainder a copy of a. */
  method TrivialDivide(a: Mpn, b: Mpn, room: array<Limb>) returns (q: Mpn, r: Mpn)
    requires a.InBounds() && b.InBounds() && room != a.limbs && room != b.limbs
    requires Normalised(a.Digits()) && Normalised(b.Digits())
    requires a.nlimbs < b.nlimbs && a.nlimbs < room.Length
    modifies room
    ensures q.limbs == r.limbs == room && q.start + q.nlimbs < room.Length && r.InBounds()
    ensures Remainder(a.Val(), b.Val(), q, r)
  {
    ShorterIsSmaller(a.Digits(), b.Digits());
    forall i | 0 <= i < a.nlimbs {
      room[i] := a.limbs[a.start + i];
    }
    r := Mpn(room, 0, a.nlimbs);
    assert r.Digits() == a.Digits();
    q := Mpn(room, a.nlimbs, 0);
    assert q.Digits() == [];
  }

  /** One-limb divisor. */
  method ShortDivide(a: Mpn, b: Mpn, room: array<Limb>) returns (q: Mpn, r: Mpn)
    requires a.InBounds() && b.InBounds() && room != a.limbs && room != b.limbs
    requires Normalised(a.Digits()) && Normalised(b.Digits())
    requires b.nlimbs == 1 <= a.nlimbs && a.nlimbs + 1 < room.Length
    modifies room
    ensures q.limbs == r.limbs == room && q.start + q.nlimbs < room.Length && r.InBounds()
    ensures Remainder(a.Val(), b.Val(), q, r)
  {
    var den := b.limbs[b.start];
    var m := a.nlimbs;
    assert b.Digits() == [den];
    ValueOne(den);
    ghost var av := a.Val();
    var remainder := DivideByLimb(a, den, room, 1);
    ghost var digits := room[1..1 + m];
    r := StoreRemainder(room, remainder);
    assert digits == room[1..1 + m] && b.Digits() == [den] && a.Val() == av;
    var q_len := ShortenOnce(a, b, room, 1, m, remainder);
    q := Mpn(room, 1, q_len);
  }

  /** Normalises and stores a remainder of at most one limb. */
  method StoreRemainder(room: array<Limb>, remainder: Limb) returns (r: Mpn)
    requires room.Length > 0
    modifies room
    ensures r.limbs == room && r.InBounds() && r.Val() == remainder && Normalised(r.Digits())
    ensures forall k :: 1 <= k < room.Length ==> room[k] == old(room[k])
  {
    if remainder > 0 {
      room[0] := remainder;
      r := Mpn(room, 0, 1);
      assert r.Digits() == [remainder];
      ValueOne(remainder);
    } else {
      r := Mpn(room, 0, 0);
    }
  }

  /** Normalises a quotient of m - n + 1 limbs by dropping at most one zero limb. */
  method ShortenOnce(a: Mpn, b: Mpn, room: array<Limb>, pos: nat, len: nat, ghost rest: nat) returns (q_len: nat)
    requires a.InBounds() && b.InBounds() && 1 <= len && pos + len <= room.Length
    requires Normalised(a.Digits()) && 1 <= b.nlimbs <= a.nlimbs && len == a.nlimbs - b.nlimbs + 1
    requires DigitFound(Value(room[pos..pos + len]), b.Val(), a.Val(), rest)
    ensures q_len <= len
    ensures Value(room[pos..pos + q_len]) == Value(room[pos..pos + len])
    ensures Normalised(room[pos..pos + q_len])
  {
    q_len := len;
    ghost var q := room[pos..pos + len];
    if room[pos + q_len - 1] == 0 {
      q_len := q_len - 1;
      NormalisedLength(a.Digits());
      ValueBound(b.Digits());
      OneLeadingZero(a.Val(), b.Val(), q, rest, a.nlimbs, b.nlimbs);
      assert room[pos..pos + q_len] == q[..len - 1];
    }
  }

  // ------------------------------------------------------------------------
  // Multi-limb divisors
  // ------------------------------------------------------------------------

  lemma ScaledTop(b: seq<Limb>, p: nat)
    requires b != []
    ensures Value(b) * p == Value(b[..|b| - 1]) * p + Up(b[|b| - 1] * p, |b| - 1)
  {
    ValueTop(b);
    ScaledLimb(Value(b[..|b| - 1]), b[|b| - 1], |b| - 1, p);
  }

  lemma ShiftedDivisor(b: seq<Limb>, shifted: seq<Limb>, accu: int, p: nat)
    requires b != [] && |shifted| == |b| && 0 <= accu && p > 0
    requires 0x8000_0000 <= b[|b| - 1] * p && b[|b| - 1] * p + p <= BASE
    requires Value(shifted) + Up(accu, |b|) == Value(b) * p
    ensures accu == 0 && shifted[|b| - 1] >= 0x8000_0000
  {
    var n := |b| - 1;
    ScaledTop(b, p);
    ValueBound(b[..n]);
    ValueTop(shifted);
    ValueBound(shifted[..n]);
    TopLimb(Value(b[..n]), b[n] * p, p, Value(shifted[..n]), shifted[n], accu, n);
  }

  lemma RoomForLowBits(x: nat, s: nat)
    requires s < 32 && x * Pow(2, s) < BASE
    ensures x * Pow(2, s) + Pow(2, s) <= BASE
  {
    var p, k := Pow(2, s), Pow(2, 32 - s);
    Pow2Of32();
    PowAdd(2, 32 - s, s);
    if x + 1 > k {
      MulMono(k, x, p);
    }
    MulMono(x + 1, k, p);
    Distribute(x, 1, p);
  }

  /** v * p + Up(x, n) with v < BASE^n: from position n upwards it is a single limb of at least x. */
  lemma TopLimb(v: nat, x: int, p: nat, low: nat, top: int, accu: int, n: nat)
    requires v < Up(1, n) && low < Up(1, n) && 0 <= top && 0 <= accu && 0 < p
    requires 0x8000_0000 <= x && x + p <= BASE
    requires low + (Up(top, n) + Up(accu, n + 1)) == v * p + Up(x, n)
    ensures accu == 0 && top >= 0x8000_0000
  {
    UpCarry(top, accu, n);
    assert 0 <= v * p < Up(p, n) by {
      MulMono(0, v, p);
      MulMono(v + 1, Up(1, n), p);
      Distribute(v, 1, p);
      UpMul(p, 1, n);
    }
    Between(low, top + BASE * accu, v * p, x, p, n);
  }

  lemma Between(low: nat, t: int, vp: int, x: int, p: int, n: nat)
    requires low < Up(1, n) && 0 <= vp < Up(p, n)
    requires low + Up(t, n) == vp + Up(x, n)
    ensures x <= t < x + p
  {
    UpAdd(x, p, n);
    UpReflect(t, x + p, n);
    UpAdd(t, 1, n);
    UpReflect(x, t + 1, n);
  }

  method CopyLimbs(src: Mpn, dst: array<Limb>, pos: nat)
    requires src.InBounds() && dst != src.limbs && pos + src.nlimbs <= dst.Length
    modifies dst
    ensures dst[pos..pos + src.nlimbs] == src.Digits()
    ensures dst[..pos] == old(dst[..pos]) && dst[pos + src.nlimbs..] == old(dst[pos + src.nlimbs..])
  {
    ghost var s := src.Digits();
    forall i | 0 <= i < src.nlimbs {
      dst[pos + i] := src.limbs[src.start + i];
    }
    assert forall i :: 0 <= i < |s| ==> dst[pos + i] == s[i];
  }

  /** A normalised divisor: b shifted left until its top bit is set; s == 0 keeps b itself. */
  method ShiftDivisor(b: Mpn, s: nat) returns (b': Mpn)
    requires b.InBounds() && b.nlimbs >= 1 && s < 32
    requires 0x8000_0000 <= b.limbs[b.start + b.nlimbs - 1] * Pow(2, s) < BASE
    ensures b'.InBounds() && b'.nlimbs == b.nlimbs
    ensures b' == b || fresh(b'.limbs)
    ensures b'.Val() == b.Val() * Pow(2, s)
    ensures b'.limbs[b'.start + b'.nlimbs - 1] >= 0x8000_0000
  {
    if s > 0 {
      var tmp := new Limb[b.nlimbs];
      var accu := ShiftLeft(b, s, tmp, 0);
      b' := Mpn(tmp, 0, b.nlimbs);
      RoomForLowBits(b.limbs[b.start + b.nlimbs - 1], s);
      ShiftedDivisor(b.Digits(), b'.Digits(), accu, Pow(2, s));
      UpZero(b.nlimbs);
    } else {
      b' := b;
    }
  }

  /** The dividend shifted left by s bits into m + 1 limbs of room. */
  method ShiftDividend(a: Mpn, s: nat, room: array<Limb>)
    requires a.InBounds() && room != a.limbs && a.nlimbs < room.Length && s < 32
    modifies room
    ensures Value(room[..a.nlimbs + 1]) == a.Val() * Pow(2, s)
  {
    var m := a.nlimbs;
    var top: Limb := 0;
    if s == 0 {
      CopyLimbs(a, room, 0);
    } else {
      var accu := ShiftLeft(a, s, room, 0);
      PowMonotone(2, s, 32);
      Pow2Of32();
      top := accu;
    }
    ghost var low := room[0..m];
    room[m] := top;
    assert room[..m + 1] == low + [top];
    ValueSnoc(low, top);
    UpZero(m);
  }

  lemma QuotientFitsBuffer(a: nat, b: nat, m: nat, n: nat, p: nat)
    requires 1 <= n <= m && a < Up(1, m) && Up(1, n - 1) <= b && p > 0
    ensures a * p < Up(b * p, m - n + 1)
  {
    UpUp(1, n - 1, m - n + 1);
    UpMono(Up(1, n - 1), b, m - n + 1);
    MulMono(a + 1, Up(b, m - n + 1), p);
    Distribute(a, 1, p);
    UpMul(p, b, m - n + 1);
    assert p * b == b * p;
  }

  /** Divisors of two limbs or more. The divisor and dividend are shifted by s bits, which changes
      neither the quotient nor the comparison of the remainder with half the divisor. */
  method KnuthDivide(a: Mpn, b: Mpn, b': Mpn, s: nat, room: array<Limb>) returns (q: Mpn, r: Mpn)
    requires a.InBounds() && b.InBounds() && b'.InBounds() && s < 32
    requires room != a.limbs && room != b.limbs && room != b'.limbs
    requires Normalised(a.Digits()) && Normalised(b.Digits())
    requires 2 <= b.nlimbs <= a.nlimbs && a.nlimbs + 1 < room.Length
    requires b'.nlimbs == b.nlimbs && b'.Val() == b.Val() * Pow(2, s)
    requires b'.limbs[b'.start + b'.nlimbs - 1] >= 0x8000_0000
    modifies room
    ensures q.limbs == r.limbs == room && q.start + q.nlimbs < room.Length && r.InBounds()
    ensures Remainder(a.Val() * Pow(2, s), b'.Val(), q, r)
  {
    var m, n := a.nlimbs, b.nlimbs;
    ghost var p := Pow(2, s);
    ShiftDividend(a, s, room);
    ValueBound(a.Digits());
    NormalisedLength(b.Digits());
    QuotientFitsBuffer(a.Val(), b.Val(), m, n, p);
    LongDivide(room, m, b');
    q, r := Collect(a, b, room, Value(room[n..m + 1]), a.Val() * p, b'.Val(), p);
  }

  /** Normalises the remainder room[..n] and the quotient room[n..m + 1]. */
  method Collect(a: Mpn, b: Mpn, room: array<Limb>, ghost qv: nat, ghost av: nat, ghost bv: nat, ghost p: nat)
    returns (q: Mpn, r: Mpn)
    requires a.InBounds() && b.InBounds() && room != a.limbs && room != b.limbs
    requires Normalised(a.Digits()) && Normalised(b.Digits())
    requires 2 <= b.nlimbs <= a.nlimbs && a.nlimbs + 1 < room.Length
    requires p > 0 && av == a.Val() * p && bv == b.Val() * p
    requires qv == Value(room[b.nlimbs..a.nlimbs + 1])
    requires DigitFound(qv, bv, av, Value(room[..b.nlimbs]))
    ensures q.limbs == r.limbs == room && q.start + q.nlimbs < room.Length && r.InBounds()
    ensures Remainder(av, bv, q, r)
  {
    var m, n := a.nlimbs, b.nlimbs;
    var r_len := NormalisedLen(Mpn(room, 0, n));
    r := Mpn(room, 0, r_len);
    assert room[0..n] == room[..n];
    ghost var rest := UnshiftQuotient(qv, a.Val(), b.Val(), p, r.Val());
    var q_len := ShortenOnce(a, b, room, n, m - n + 1, rest);
    q := Mpn(room, n, q_len);
  }

  lemma UnshiftQuotient(q: int, a: int, b: int, p: nat, r: nat) returns (t: nat)
    requires p > 0 && DigitFound(q, b * p, a * p, r)
    ensures DigitFound(q, b, a, t)
  {
    var d := a - q * b;
    MulAssoc(q, b, p);
    Distribute(a, q * b, p);
    assert r == d * p;
    NotNegative(d, p);
    NotNegative(b - 1 - d, p) by {
      Distribute(b, d, p);
      Distribute(b - d, 1, p);
    }
    t := d;
  }

  lemma NotNegative(x: int, p: nat)
    requires p > 0 && x * p + p > 0
    ensures x >= 0
  {
    if x < 0 { MulMono(x, -1, p); }
  }

  /** The integer nearest to a / b, ties to even. */
  method Divide(a0: Mpn, b0: Mpn, roomGranted: bool, tmpGranted: bool) returns (res: Result)
    requires a0.InBounds() && b0.InBounds()
    ensures res.OutOfMemory? ==> !roomGranted || !tmpGranted
    ensures !roomGranted ==> res.OutOfMemory?
    ensures res.Aborted? <==> roomGranted && b0.Val() == 0
    ensures res.Rounded? ==> fresh(res.q.limbs) && res.q.InBounds() && Normalised(res.q.Digits())
    ensures res.Rounded? ==> NearestEven(res.q.Val(), a0.Val(), b0.Val())
  {
    if !roomGranted {
      return OutOfMemory;
    }
    var room := new Limb[a0.nlimbs + 2];
    var a_len := NormalisedLen(a0);
    var a := Mpn(a0.limbs, a0.start, a_len);
    var b_len := NormalisedLen(b0);
    if b_len == 0 {
      return Aborted;
    }
    var b := Mpn(b0.limbs, b0.start, b_len);
    NormalisedLength(b.Digits());
    UpLonger(0, b_len - 1);
    res := DivideNormalised(a, b, room, tmpGranted);
  }

  /** Division of normalised numbers: the three cases. */
  method DivideNormalised(a: Mpn, b: Mpn, room: array<Limb>, tmpGranted: bool) returns (res: Result)
    requires a.InBounds() && b.InBounds() && room != a.limbs && room != b.limbs
    requires Normalised(a.Digits()) && Normalised(b.Digits())
    requires 1 <= b.nlimbs && a.nlimbs + 1 < room.Length
    modifies room
    ensures !res.Aborted?
    ensures res.OutOfMemory? ==> !tmpGranted
    ensures res.Rounded? ==> res.q.limbs == room && res.q.InBounds() && Normalised(res.q.Digits())
    ensures res.Rounded? ==> NearestEven(res.q.Val(), old(a.Val()), old(b.Val()))
  {
    ghost var av, bv := a.Val(), b.Val();
    if 2 <= b.nlimbs <= a.nlimbs {
      res := LongDivision(a, b, room, tmpGranted);
    } else {
      var q, r;
      if a.nlimbs < b.nlimbs {
        q, r := TrivialDivide(a, b, room);
      } else {
        q, r := ShortDivide(a, b, room);
      }
      q := RoundQuotient(q, r, b, av);
      res := Rounded(q);
    }
  }

  method LongDivision(a: Mpn, b: Mpn, room: array<Limb>, tmpGranted: bool) returns (res: Result)
    requires a.InBounds() && b.InBounds() && room != a.limbs && room != b.limbs
    requires Normalised(a.Digits()) && Normalised(b.Digits())
    requires 2 <= b.nlimbs <= a.nlimbs && a.nlimbs + 1 < room.Length
    modifies room
    ensures !res.Aborted?
    ensures res.OutOfMemory? ==> !tmpGranted
    ensures res.Rounded? ==> res.q.limbs == room && res.q.InBounds() && Normalised(res.q.Digits())
    ensures res.Rounded? ==> NearestEven(res.q.Val(), old(a.Val()), old(b.Val()))
  {
    ghost var av, bv := a.Val(), b.Val();
    var s := ShiftCount(b.limbs[b.start + b.nlimbs - 1]);
    if s > 0 && !tmpGranted {
      return OutOfMemory;
    }
    var b' := ShiftDivisor(b, s);
    ghost var p := Pow(2, s);
    var q, r := KnuthDivide(a, b, b', s, room);
    q := RoundQuotient(q, r, b', av * p);
    NearestEvenScale(q.Val(), av, bv, p);
    res := Rounded(q);
  }
}
