/** Rounding m * 2^e * 10^n to an integer and printing it in decimal. */
module Scale10 {
  import opened Limbs
  import opened Rounding
  import opened Division
  import opened Logarithms
  import M = Multiply
  import D = Divide
  import Dec = Decimal

  function Plus(x: int): nat {
    if x > 0 then x else 0
  }

  function Minus(x: int): nat {
    if x < 0 then -x else 0
  }

  // ------------------------------------------------------------------------
  // Powers of five
  // ------------------------------------------------------------------------

  const SMALL_POW5: seq<Limb> :=
    [1, 5, 25, 125, 625, 3125, 15625, 78125, 390625, 1953125, 9765625, 48828125, 244140625, 1220703125]

  lemma SmallPow5(k: nat)
    requires k <= 13
    ensures SMALL_POW5[k] == Pow(5, k)
  {
    assert Pow(5, 0) == 1 && Pow(5, 1) == 5 && Pow(5, 2) == 25 && Pow(5, 3) == 125 && Pow(5, 4) == 625;
    assert Pow(5, 5) == 3125 && Pow(5, 6) == 15625 && Pow(5, 7) == 78125 && Pow(5, 8) == 390625;
    assert Pow(5, 9) == 1953125 && Pow(5, 10) == 9765625 && Pow(5, 11) == 48828125;
    assert Pow(5, 12) == 244140625 && Pow(5, 13) == 1220703125;
  }

  /** Multiplies the first len limbs of ptr by one limb, in place, and returns the carry. */
  method MultiplyInPlace(ptr: array<Limb>, len: nat, digit1: Limb) returns (carry: TwoLimb)
    requires len <= ptr.Length
    modifies ptr
    ensures carry < BASE
    ensures Value(ptr[..len]) + Up(carry, len) == old(Value(ptr[..len])) * digit1
    ensures ptr[len..] == old(ptr[len..])
  {
    ghost var before, d0 := ptr[..len], ptr[..];
    ghost var out: seq<Limb> := [];
    carry := 0;
    WriteStart(d0, 0);
    var j := 0;
    while j < len
      invariant j == |out| <= len && carry < BASE
      invariant ptr[..] == Overwritten(d0, 0, out)
      invariant ShiftInvariant(out, carry, before, digit1)
    {
      assert ptr[..][j] == d0[j] == before[j];
      var next, o := M.MultiplyLimb(carry, ptr[j], digit1, 0);
      ptr[j] := o;
      WriteNext(d0, 0, out, o);
      ShiftedOne(out, before, carry, digit1, o, next);
      out := out + [o];
      carry := next;
      j := j + 1;
    }
    assert before[..j] == before;
    assert ptr[..j] == ptr[..][..j] == out;
  }

  /** The first len limbs of ptr hold exactly 5^k, without leading zero. */
  ghost predicate HoldsPow5(s: seq<Limb>, k: nat) {
    && s != []
    && Normalised(s)
    && Value(s) == Pow(5, k)
  }

  lemma Pow5Grows(s: seq<Limb>, s': seq<Limb>, carry: Limb, k: nat, k': nat, digit1: int)
    requires HoldsPow5(s, k) && |s'| == |s| && k <= k' && digit1 == Pow(5, k' - k)
    requires Value(s') + Up(carry, |s|) == Value(s) * digit1
    ensures carry == 0 ==> HoldsPow5(s', k')
    ensures carry > 0 ==> HoldsPow5(s' + [carry], k')
  {
    PowAdd(5, k, k' - k);
    if carry == 0 {
      UpZero(|s|);
      NormalisedLength(s);
      PowMonotone(5, k, k');
      LongEnough(s');
    } else {
      ValueSnoc(s', carry);
    }
  }

  lemma Pow5Length(s: seq<Limb>, k: nat, n: nat)
    requires HoldsPow5(s, k) && k <= n
    ensures |s| <= Pow5Bound(n)
  {
    NormalisedLength(s);
    PowMonotone(5, k, n);
    Pow5FitsLimbs(n);
    UpIsPow(1, Pow5Bound(n));
    if |s| > Pow5Bound(n) {
      UpLonger(Pow5Bound(n), |s| - 1);
    }
  }

  /** One step of the table-driven loop: multiplies 5^k by 5^(k' - k). */
  method Pow5Step(ptr: array<Limb>, len: nat, ghost k: nat, ghost k': nat, ghost n: nat, digit1: Limb)
    returns (len': nat)
    requires len <= ptr.Length && Pow5Bound(n) <= ptr.Length
    requires HoldsPow5(ptr[..len], k) && k <= k' <= n && digit1 == Pow(5, k' - k)
    modifies ptr
    ensures len' <= ptr.Length && HoldsPow5(ptr[..len'], k')
  {
    ghost var s := ptr[..len];
    var carry := MultiplyInPlace(ptr, len, digit1);
    ghost var s' := ptr[..len];
    len' := len;
    Pow5Grows(s, s', carry, k, k', digit1);
    if carry > 0 {
      Pow5Length(s' + [carry], k', n);
      ptr[len'] := carry;
      len' := len' + 1;
      assert ptr[..len'] == s' + [carry];
    }
  }

  /** 5^abs_n in base 2^32, thirteen factors at a time. */
  method PowerOfFive(ptr: array<Limb>, abs_n: nat) returns (len: nat)
    requires abs_n < 0x8000_0000 && Pow5Bound(abs_n) <= ptr.Length
    modifies ptr
    ensures len <= Pow5Bound(abs_n)
    ensures HoldsPow5(ptr[..len], abs_n)
  {
    ptr[0] := 1;
    len := 1;
    assert ptr[..1] == [1];
    ValueOne(1);
    if abs_n > 0 {
      var n13: Limb := 0;
      ghost var k := 0;
      while n13 <= abs_n
        invariant k == if n13 <= abs_n then n13 else abs_n
        invariant len <= ptr.Length && HoldsPow5(ptr[..len], k)
        decreases abs_n + 13 - n13
      {
        var count := if n13 + 13 <= abs_n then 13 else abs_n - n13;
        SmallPow5(count);
        ghost var k' := k + count;
        len := Pow5Step(ptr, len, k, k', abs_n, SMALL_POW5[count]);
        k := k';
        n13 := n13 + 13;
      }
    }
    Pow5Length(ptr[..len], abs_n, abs_n);
  }

  // ------------------------------------------------------------------------
  // Powers of two
  // ------------------------------------------------------------------------

  lemma ShiftParts(v: nat, abs_s: nat)
    ensures Up(v * Pow(2, abs_s % 32), abs_s / 32) == v * Pow(2, abs_s)
  {
    var b, l := abs_s % 32, abs_s / 32;
    UpIsPow(v * Pow(2, b), l);
    PowAdd(2, b, 32 * l);
    MulAssoc(v, Pow(2, b), Pow(2, 32 * l));
    assert b + 32 * l == abs_s;
  }

  lemma {:induction false} ZeroesBelow(k: nat, s: seq<Limb>)
    ensures Value(seq(k, _ => 0 as Limb) + s) == Up(Value(s), k)
  {
    var z: seq<Limb> := seq(k, _ => 0 as Limb);
    ValueZero(z);
    ValueAppend(z, s);
  }

  /** Multiplies the first len limbs of ptr by 2^s_bits, in place. */
  method ShiftBits(ptr: array<Limb>, len: nat, s_bits: nat) returns (len': nat)
    requires len < ptr.Length && s_bits < 32
    modifies ptr
    ensures len <= len' <= len + 1
    ensures Value(ptr[..len']) == old(Value(ptr[..len])) * Pow(2, s_bits)
  {
    len' := len;
    if s_bits > 0 {
      var m := Mpn(ptr, 0, len);
      assert m.Digits() == ptr[..len];
      var accu := ShiftLeft(m, s_bits, ptr, 0);
      PowMonotone(2, s_bits, 32);
      Pow2Of32();
      assert ptr[0..len] == ptr[..len];
      UpZero(len);
      ghost var low := ptr[..len];
      if accu > 0 {
        ptr[len] := accu;
        len' := len + 1;
        assert ptr[..len'] == low + [accu as Limb];
        ValueSnoc(low, accu as Limb);
      }
    }
  }

  /** Moves the first len limbs of ptr up by s_limbs and clears the limbs below. */
  method MoveUp(ptr: array<Limb>, len: nat, s_limbs: nat)
    requires len + s_limbs <= ptr.Length
    modifies ptr
    ensures Value(ptr[..len + s_limbs]) == Up(old(Value(ptr[..len])), s_limbs)
  {
    ghost var s := ptr[..len];
    if s_limbs > 0 {
      var count := len;
      while count > 0
        invariant 0 <= count <= len
        invariant forall k :: 0 <= k < count ==> ptr[k] == s[k]
        invariant ptr[s_limbs + count..s_limbs + len] == s[count..]
      {
        count := count - 1;
        ghost var above := ptr[s_limbs + count + 1..s_limbs + len];
        ptr[s_limbs + count] := ptr[count];
        assert ptr[s_limbs + count..s_limbs + len] == [s[count]] + above;
      }
      count := s_limbs;
      while count > 0
        invariant 0 <= count <= s_limbs
        invariant forall k :: count <= k < s_limbs ==> ptr[k] == 0
        invariant ptr[s_limbs..s_limbs + len] == s
      {
        count := count - 1;
        ptr[count] := 0;
      }
    }
    assert ptr[..len + s_limbs] == seq(s_limbs, _ => 0 as Limb) + s;
    ZeroesBelow(s_limbs, s);
  }

  /** Multiplies the first len limbs of ptr by 2^abs_s, in place. */
  method TimesPow2(ptr: array<Limb>, len: nat, abs_s: nat) returns (len': nat)
    requires len + abs_s / 32 + 1 <= ptr.Length
    modifies ptr
    ensures len' <= ptr.Length
    ensures Value(ptr[..len']) == old(Value(ptr[..len])) * Pow(2, abs_s)
  {
    ghost var v := Value(ptr[..len]);
    len' := ShiftBits(ptr, len, abs_s % 32);
    MoveUp(ptr, len', abs_s / 32);
    len' := len' + abs_s / 32;
    ShiftParts(v, abs_s);
  }

  /** Constructs 2^abs_s in the limbs of ptr above the first len. */
  method PowerOfTwo(ptr: array<Limb>, len: nat, abs_s: nat) returns (p: Mpn)
    requires len + abs_s / 32 + 1 <= ptr.Length
    modifies ptr
    ensures p.limbs == ptr && p.InBounds() && p.Val() == Pow(2, abs_s)
  {
    var s_limbs, s_bits := abs_s / 32, abs_s % 32;
    var i := 0;
    while i < s_limbs
      invariant i <= s_limbs
      invariant forall k :: len <= k < len + i ==> ptr[k] == 0
    {
      ptr[len + i] := 0;
      i := i + 1;
    }
    PowStrictBound(s_bits);
    var top: Limb := Pow(2, s_bits);
    ptr[len + s_limbs] := top;
    p := Mpn(ptr, len, s_limbs + 1);
    assert p.Digits() == seq(s_limbs, _ => 0 as Limb) + [top];
    ZeroesBelow(s_limbs, [top]);
    ValueOne(top);
    ShiftParts(1, abs_s);
  }

  lemma PowStrictBound(b: nat)
    requires b < 32
    ensures Pow(2, b) < BASE
  {
    PowMonotone(2, b, 31);
    Pow2Of32();
    assert Pow(2, 32) == 2 * Pow(2, 31);
  }

  /** m * 2^abs_s in a buffer of its own. */
  method ShiftedCopy(m: Mpn, abs_s: nat) returns (p: Mpn)
    requires m.InBounds()
    ensures fresh(p.limbs) && p.InBounds() && p.Val() == m.Val() * Pow(2, abs_s)
  {
    var s_limbs, s_bits := abs_s / 32, abs_s % 32;
    var num := new Limb[m.nlimbs + s_limbs + 1];
    var i := 0;
    while i < s_limbs
      invariant i <= s_limbs
      invariant forall k :: 0 <= k < i ==> num[k] == 0
    {
      num[i] := 0;
      i := i + 1;
    }
    ghost var zeroes: seq<Limb> := seq(s_limbs, _ => 0 as Limb);
    assert num[..s_limbs] == zeroes;
    var len := CopyShifted(m, s_bits, num, s_limbs);
    p := Mpn(num, 0, s_limbs + len);
    ghost var high := num[s_limbs..s_limbs + len];
    assert p.Digits() == zeroes + high;
    ZeroesBelow(s_limbs, high);
    ShiftParts(m.Val(), abs_s);
  }

  method CopyShifted(m: Mpn, s_bits: nat, num: array<Limb>, pos: nat) returns (len: nat)
    requires m.InBounds() && num != m.limbs && s_bits < 32 && pos + m.nlimbs < num.Length
    modifies num
    ensures len <= m.nlimbs + 1
    ensures num[..pos] == old(num[..pos])
    ensures Value(num[pos..pos + len]) == m.Val() * Pow(2, s_bits)
  {
    len := m.nlimbs;
    if s_bits > 0 {
      var accu := ShiftLeft(m, s_bits, num, pos);
      PowMonotone(2, s_bits, 32);
      Pow2Of32();
      UpZero(len);
      ghost var low := num[pos..pos + len];
      ghost var below := num[..pos];
      if accu > 0 {
        num[pos + len] := accu;
        assert num[..pos] == below;
        assert num[pos..pos + len + 1] == low + [accu as Limb];
        ValueSnoc(low, accu as Limb);
        len := len + 1;
      }
    } else {
      D.CopyLimbs(m, num, pos);
    }
  }

  // ------------------------------------------------------------------------
  // The exact meaning of the four sign cases
  // ------------------------------------------------------------------------

  /** z is m * 2^s * 5^n rounded to the nearest integer, ties to even. */
  ghost predicate Rounds(z: nat, m: nat, s: int, n: int) {
    NearestEven(z, m * Pow(5, Plus(n)) * Pow(2, Plus(s)), Pow(5, Minus(n)) * Pow(2, Minus(s)))
  }

  /** y is m * 2^e * 10^n rounded to the nearest integer, ties to even. */
  ghost predicate RoundsScaled(y: nat, m: nat, e: int, n: int) {
    NearestEven(y, m * Pow(2, Plus(e)) * Pow(10, Plus(n)), Pow(2, Minus(e)) * Pow(10, Minus(n)))
  }

  lemma ExactIsNearest(z: nat, b: nat)
    requires b > 0
    ensures NearestEven(z, z * b, b)
  {
  }

  lemma Regroup(m: int, f: int, t: int, c: int, tc: int)
    requires tc == t * c
    ensures (m * f * t) * c == m * (f * tc)
  {
    MulAssoc(m * f, t, c);
    MulAssoc(m, f, tc);
  }

  lemma TenIsTwoTimesFive(k: nat, j: nat)
    ensures Pow(2, j) * Pow(10, k) == Pow(5, k) * Pow(2, j + k)
  {
    PowMul(2, 5, k);
    PowAdd(2, j, k);
    MulAssoc(Pow(2, j), Pow(2, k), Pow(5, k));
  }

  /** Splitting 10^n into 2^n * 5^n and cancelling powers of two preserves the rounding. */
  lemma CancelTwos(z: nat, m: nat, e: int, n: int)
    requires Rounds(z, m, e + n, n)
    ensures RoundsScaled(z, m, e, n)
  {
    var s := e + n;
    var t: nat := Plus(e) + Plus(n) - Plus(s);
    assert t == Minus(e) + Minus(n) - Minus(s);
    var a, b := m * Pow(5, Plus(n)) * Pow(2, Plus(s)), Pow(5, Minus(n)) * Pow(2, Minus(s));
    NearestEvenScale(z, a, b, Pow(2, t));
    PowAdd(2, Plus(s), t);
    PowAdd(2, Minus(s), t);
    TenIsTwoTimesFive(Plus(n), Plus(e));
    TenIsTwoTimesFive(Minus(n), Minus(e));
    Regroup(m, Pow(5, Plus(n)), Pow(2, Plus(s)), Pow(2, t), Pow(2, Plus(e) + Plus(n)));
    MulAssoc(m, Pow(2, Plus(e)), Pow(10, Plus(n)));
    MulAssoc(Pow(5, Minus(n)), Pow(2, Minus(s)), Pow(2, t));
  }

  /** Factoring out a common power of ten changes nothing when no division is involved. */
  lemma FactoredOut(z: nat, m: nat, s: int, n: int, k: nat)
    requires k <= s && k <= n
    requires z == m * Pow(5, n - k) * Pow(2, s - k)
    ensures Rounds(z * Pow(10, k), m, s, n)
  {
    PowAdd(5, n - k, k);
    PowAdd(2, s - k, k);
    PowMul(2, 5, k);
    RegroupTen(m, Pow(5, n - k), Pow(2, s - k), Pow(2, k), Pow(5, k));
    ExactIsNearest(z * Pow(10, k), 1);
    assert Pow(5, 0) * Pow(2, 0) == 1;
  }

  lemma RegroupTen(m: int, f: int, t: int, c: int, d: int)
    ensures (m * f * t) * (c * d) == m * (f * d) * (t * c)
  {
    MulAssoc(m, f, d);
    MulAssoc(m * f * t, c, d);
    MulAssoc(m * f, t, c);
    assert ((m * f) * (t * c)) * d == ((m * f) * d) * (t * c);
  }

  // ------------------------------------------------------------------------
  // scale10_round_decimal_decoded
  // ------------------------------------------------------------------------

  /** The four sign cases, each without its trivial factors. */
  lemma SignCases(z: nat, m: nat, s: int, n: int)
    requires n >= 0 && s >= 0 ==> z == m * Pow(5, n) * Pow(2, s)
    requires n < 0 && s <= 0 ==> NearestEven(z, m, Pow(5, -n) * Pow(2, -s))
    requires n >= 0 && s < 0 ==> NearestEven(z, m * Pow(5, n), Pow(2, -s))
    requires n < 0 && s > 0 ==> NearestEven(z, m * Pow(2, s), Pow(5, -n))
    ensures Rounds(z, m, s, n)
  {
    assert Pow(5, 0) == 1 && Pow(2, 0) == 1;
    if n >= 0 && s >= 0 {
      ExactIsNearest(z, 1);
    }
  }

  /** The places where the source allocates memory. */
  datatype Site = Mantissa | Pow5Buffer | ProductBuffer | NumeratorBuffer | DivisionRoom | DivisionTmp | DigitsBuffer

  datatype Rounded = NoMemory | Z(z: Mpn)

  /** m * 5^|n| * 2^|s| for n >= 0 and s >= 0: no division. */
  method ScaleUp(m: Mpn, n: nat, s: nat, pow5: array<Limb>, len: nat, malloc: Site -> bool) returns (r: Rounded)
    requires m.InBounds() && pow5 != m.limbs && len + s / 32 + 1 <= pow5.Length
    requires HoldsPow5(pow5[..len], n)
    modifies pow5
    ensures r.NoMemory? ==> !malloc(ProductBuffer)
    ensures r.Z? ==> fresh(r.z.limbs) && r.z.InBounds()
    ensures r.Z? ==> r.z.Val() == m.Val() * Pow(5, n) * Pow(2, s)
  {
    var len' := TimesPow2(pow5, len, s);
    var p := Mpn(pow5, 0, len');
    assert p.Digits() == pow5[..len'];
    var product := M.Multiply(m, p, malloc(ProductBuffer));
    if product.OutOfMemory? {
      return NoMemory;
    }
    MulAssoc(m.Val(), Pow(5, n), Pow(2, s));
    r := Z(product.dest);
  }

  /** A division whose divisor is known to be positive cannot reach abort(). */
  method DividePositive(a: Mpn, b: Mpn, malloc: Site -> bool) returns (r: Rounded)
    requires a.InBounds() && b.InBounds() && b.Val() > 0
    ensures r.NoMemory? ==> !malloc(DivisionRoom) || !malloc(DivisionTmp)
    ensures r.Z? ==> fresh(r.z.limbs) && r.z.InBounds()
    ensures r.Z? ==> NearestEven(r.z.Val(), a.Val(), b.Val())
  {
    var quotient := D.Divide(a, b, malloc(DivisionRoom), malloc(DivisionTmp));
    if quotient.OutOfMemory? {
      return NoMemory;
    }
    r := Z(quotient.q);
  }

  /** m / (5^|n| * 2^|s|) for n < 0 and s <= 0. */
  method ScaleDown(m: Mpn, n: nat, s: nat, pow5: array<Limb>, len: nat, malloc: Site -> bool) returns (r: Rounded)
    requires m.InBounds() && pow5 != m.limbs && len + s / 32 + 1 <= pow5.Length
    requires HoldsPow5(pow5[..len], n)
    modifies pow5
    ensures r.NoMemory? ==> !malloc(DivisionRoom) || !malloc(DivisionTmp)
    ensures r.Z? ==> fresh(r.z.limbs) && r.z.InBounds()
    ensures r.Z? ==> NearestEven(r.z.Val(), m.Val(), Pow(5, n) * Pow(2, s))
  {
    var len' := TimesPow2(pow5, len, s);
    var p := Mpn(pow5, 0, len');
    assert p.Digits() == pow5[..len'];
    MulMono(1, Pow(5, n), Pow(2, s));
    r := DividePositive(m, p, malloc);
  }

  /** m * 5^n / 2^|s| for n >= 0 and s < 0. */
  method MultiplyThenShift(m: Mpn, n: nat, s: nat, pow5: array<Limb>, len: nat, malloc: Site -> bool)
    returns (r: Rounded)
    requires m.InBounds() && pow5 != m.limbs && len + s / 32 + 1 <= pow5.Length
    requires HoldsPow5(pow5[..len], n)
    modifies pow5
    ensures r.NoMemory? ==> !malloc(ProductBuffer) || !malloc(DivisionRoom) || !malloc(DivisionTmp)
    ensures r.Z? ==> fresh(r.z.limbs) && r.z.InBounds()
    ensures r.Z? ==> NearestEven(r.z.Val(), m.Val() * Pow(5, n), Pow(2, s))
  {
    var p := Mpn(pow5, 0, len);
    assert p.Digits() == pow5[..len];
    var numerator := M.Multiply(m, p, malloc(ProductBuffer));
    if numerator.OutOfMemory? {
      return NoMemory;
    }
    var denominator := PowerOfTwo(pow5, len, s);
    r := DividePositive(numerator.dest, denominator, malloc);
  }

  /** m * 2^s / 5^|n| for n < 0 and s > 0. */
  method ShiftThenDivide(m: Mpn, n: nat, s: nat, pow5: array<Limb>, len: nat, malloc: Site -> bool) returns (r: Rounded)
    requires m.InBounds() && pow5 != m.limbs && len <= pow5.Length
    requires HoldsPow5(pow5[..len], n)
    ensures r.NoMemory? ==> !malloc(NumeratorBuffer) || !malloc(DivisionRoom) || !malloc(DivisionTmp)
    ensures r.Z? ==> fresh(r.z.limbs) && r.z.InBounds()
    ensures r.Z? ==> NearestEven(r.z.Val(), m.Val() * Pow(2, s), Pow(5, n))
  {
    var p := Mpn(pow5, 0, len);
    assert p.Digits() == pow5[..len];
    if !malloc(NumeratorBuffer) {
      return NoMemory;
    }
    var numerator := ShiftedCopy(m, s);
    r := DividePositive(numerator, p, malloc);
  }

  /** Computes z = round (2^s * 5^n * m), choosing among the four sign cases. */
  method ScaleDecoded(m: Mpn, s: int, n: int, malloc: Site -> bool) returns (r: Rounded)
    requires m.InBounds() && -0x8000_0000 < n < 0x8000_0000
    ensures r.NoMemory? ==> exists site :: !malloc(site)
    ensures !malloc(Pow5Buffer) ==> r.NoMemory?
    ensures r.Z? ==> fresh(r.z.limbs) && r.z.InBounds()
    ensures r.Z? ==> Rounds(r.z.Val(), m.Val(), s, n)
  {
    var abs_n := if n >= 0 then n else -n;
    var abs_s := if s >= 0 then s else -s;
    if !malloc(Pow5Buffer) {
      return NoMemory;
    }
    var pow5 := new Limb[Pow5Bound(abs_n) + abs_s / 32 + 1];
    var len := PowerOfFive(pow5, abs_n);
    if n >= 0 && s >= 0 {
      r := ScaleUp(m, abs_n, abs_s, pow5, len, malloc);
    } else if n < 0 && s <= 0 {
      r := ScaleDown(m, abs_n, abs_s, pow5, len, malloc);
    } else if n >= 0 {
      r := MultiplyThenShift(m, abs_n, abs_s, pow5, len, malloc);
    } else {
      r := ShiftThenDivide(m, abs_n, abs_s, pow5, len, malloc);
    }
    if r.Z? {
      SignCases(r.z.Val(), m.Val(), s, n);
    }
  }

  /** The decimal digits, in low-to-high order, of m * 2^e * 10^n rounded to an integer. */
  method Scale10RoundDecimalDecoded(e: int, m: Mpn, n0: int, malloc: Site -> bool) returns (r: Dec.Result)
    requires m.InBounds()
    requires -0x8000_0000 < n0 < 0x8000_0000 && -0x8000_0000 < e + n0 < 0x8000_0000
    ensures r.OutOfMemory? ==> exists site :: !malloc(site)
    ensures !malloc(Mantissa) || !malloc(Pow5Buffer) ==> r.OutOfMemory?
    ensures r.Text? ==> exists y: nat :: RoundsScaled(y, m.Val(), e, n0) && Dec.Represents(r.digits, y)
  {
    if !malloc(Mantissa) {
      return Dec.OutOfMemory;
    }
    var n, s := n0, e + n0;
    var extra_zeroes := 0;
    if s > 0 && n > 0 {
      extra_zeroes := if s < n then s else n;
      s := s - extra_zeroes;
      n := n - extra_zeroes;
    }
    var z := ScaleDecoded(m, s, n, malloc);
    if z.NoMemory? {
      return Dec.OutOfMemory;
    }
    ghost var y: nat := z.z.Val() * Pow(10, extra_zeroes);
    WithZeroes(z.z.Val(), m.Val(), e, n0, s, n, extra_zeroes);
    r := Dec.ConvertToDecimal(z.z, extra_zeroes, malloc(DigitsBuffer));
  }

  lemma WithZeroes(z: nat, m: nat, e: int, n0: int, s: int, n: int, k: nat)
    requires Rounds(z, m, s, n) && s == e + n0 - k && n == n0 - k
    requires k > 0 ==> s >= 0 && n >= 0
    ensures RoundsScaled(z * Pow(10, k), m, e, n0)
  {
    if k > 0 {
      assert Pow(5, 0) * Pow(2, 0) == 1;
      var x := m * Pow(5, n) * Pow(2, s);
      ExactIsNearest(x, 1);
      NearestEvenUnique(z, x, x, 1);
      FactoredOut(z, m, e + n0, n0, k);
    } else {
      assert Pow(10, 0) == 1;
    }
    CancelTwos(z * Pow(10, k), m, e, n0);
  }
}
