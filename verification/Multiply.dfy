/** Schoolbook multiplication of bignums. */
module Multiply {
  import opened Limbs

  /** The product of two bignums; OutOfMemory when the allocation fails. */
  datatype Result = OutOfMemory | Product(dest: Mpn)

  lemma ProductFits(carry: int, d: int, x: int, s: int)
    requires 0 <= carry < BASE && 0 <= d < BASE && 0 <= x < BASE && 0 <= s < BASE
    ensures 0 <= carry + d * x <= carry + d * x + s < BASE2
  {
    LimbProduct(d, x);
    assert (BASE - 1) + (BASE - 1) * (BASE - 1) + (BASE - 1) < BASE2;
  }

  /** One column of a row: carry + digit1 * digit2 + s never exceeds 64 bits. */
  method MultiplyLimb(carry: TwoLimb, digit1: Limb, digit2: Limb, s: Limb) returns (carry': TwoLimb, o: Limb)
    requires carry < BASE
    ensures carry' < BASE && o + BASE * carry' == carry + digit1 * digit2 + s
  {
    ProductFits(carry, digit1, digit2, s);
    carry' := carry + digit1 * digit2;
    carry' := carry' + s;
    o := carry' % BASE;
    carry' := carry' / BASE;
  }

  /** Row i after j columns: d0 has been written, carry is pending. */
  ghost predicate RowInvariant(d0: seq<Limb>, carry: int, row: seq<Limb>, digit1: int, src: seq<Limb>, i: nat, j: nat)
    requires i + j <= |row| && j <= |src|
  {
    && |d0| == i + j
    && Value(d0) + Up(carry, i + j) == Value(row[..i + j]) + Up(digit1 * Value(src[..j]), i)
  }

  lemma RowStep(d0: seq<Limb>, row: seq<Limb>, src: seq<Limb>, i: nat, j: nat, digit1: Limb, carry: int, o: Limb,
                carry': int)
    requires i + j < |row| && j < |src| && RowInvariant(d0, carry, row, digit1, src, i, j)
    requires o + BASE * carry' == carry + digit1 * src[j] + row[i + j]
    ensures RowInvariant(d0 + [o], carry', row, digit1, src, i, j + 1)
  {
    ValueSnoc(d0, o);
    ValueNext(row, i + j);
    RowProducts(digit1, src, i, j);
    RowColumn(Value(d0), carry, digit1 * src[j], row[i + j], o, carry', i + j);
  }

  lemma RowColumn(v: int, carry: int, product: int, s: int, o: int, carry': int, k: nat)
    requires o + BASE * carry' == carry + product + s
    ensures (v + Up(o, k)) + Up(carry', k + 1) == (v + Up(carry, k)) + Up(s, k) + Up(product, k)
  {
    UpCarry(o, carry', k);
    UpAdd(carry + product, s, k);
    UpAdd(carry, product, k);
  }

  lemma RowProducts(digit1: int, src: seq<Limb>, i: nat, j: nat)
    requires j < |src|
    ensures Up(digit1 * Value(src[..j + 1]), i) == Up(digit1 * Value(src[..j]), i) + Up(digit1 * src[j], i + j)
  {
    ValueNext(src, j);
    UpMul(digit1, src[j], j);
    Distribute(Value(src[..j]), Up(src[j], j), digit1);
    UpAdd(digit1 * Value(src[..j]), Up(digit1 * src[j], j), i);
    UpUp(digit1 * src[j], j, i);
  }

  /** The columns of row i; the final carry is left for the caller. */
  method RowLoop(digit1: Limb, p2: Mpn, dp: array<Limb>, i: nat) returns (carry: Limb, ghost out: seq<Limb>)
    requires p2.InBounds() && i + p2.nlimbs < dp.Length && dp != p2.limbs
    modifies dp
    ensures |out| == i + p2.nlimbs && dp[..] == Overwritten(old(dp[..]), 0, out)
    ensures RowInvariant(out, carry, old(dp[..]), digit1, p2.Digits(), i, p2.nlimbs)
  {
    ghost var src, row := p2.Digits(), dp[..];
    out := row[..i];
    var accu: TwoLimb := 0;
    RowStart(row, digit1, src, i);
    var j := 0;
    while j < p2.nlimbs
      invariant j <= p2.nlimbs && accu < BASE && |out| == i + j
      invariant dp[..] == Overwritten(row, 0, out)
      invariant RowInvariant(out, accu, row, digit1, src, i, j)
    {
      assert p2.limbs[p2.start + j] == src[j] && dp[..][i + j] == row[i + j];
      var next, o := MultiplyLimb(accu, digit1, p2.limbs[p2.start + j], dp[i + j]);
      dp[i + j] := o;
      WriteNext(row, 0, out, o);
      RowStep(out, row, src, i, j, digit1, accu, o, next);
      out := out + [o];
      accu := next;
      j := j + 1;
    }
    carry := accu;
  }

  lemma RowStart(row: seq<Limb>, digit1: int, src: seq<Limb>, i: nat)
    requires i <= |row|
    ensures RowInvariant(row[..i], 0, row, digit1, src, i, 0)
    ensures Overwritten(row, 0, row[..i]) == row
  {
    UpZero(i);
  }

  lemma RowEnd(out: seq<Limb>, carry: Limb, row: seq<Limb>, digit1: int, src: seq<Limb>, i: nat)
    requires i + |src| <= |row| && RowInvariant(out, carry, row, digit1, src, i, |src|)
    ensures Value(out + [carry]) == Value(row[..i + |src|]) + Up(digit1 * Value(src), i)
  {
    assert src[..|src|] == src;
    ValueSnoc(out, carry);
  }

  /** Adds digit1 * p2 to the limbs of dp from position i on and stores the final carry above them. */
  method AddRow(digit1: Limb, p2: Mpn, dp: array<Limb>, i: nat)
    requires p2.InBounds() && i + p2.nlimbs < dp.Length && dp != p2.limbs
    modifies dp
    ensures Value(dp[..i + p2.nlimbs + 1]) == old(Value(dp[..i + p2.nlimbs])) + Up(digit1 * p2.Val(), i)
  {
    ghost var row, k := dp[..], i + p2.nlimbs;
    assert row[..k] == dp[..k];
    var carry;
    ghost var out;
    carry, out := RowLoop(digit1, p2, dp, i);
    RowEnd(out, carry, row, digit1, p2.Digits(), i);
    WriteNext(row, 0, out, carry);
    dp[i + p2.nlimbs] := carry;
    assert dp[..k + 1] == dp[..][..k + 1] == out + [carry];
  }

  lemma NextRow(a: seq<Limb>, i: nat, b: int)
    requires i < |a|
    ensures Value(a[..i]) * b + Up(a[i] * b, i) == Value(a[..i + 1]) * b
  {
    ValueNext(a, i);
    UpMul(b, a[i], i);
    Distribute(Value(a[..i]), Up(a[i], i), b);
    assert a[i] * b == b * a[i];
  }

  /** The outer loop: one row for each limb of p1. */
  method AddRows(p1: Mpn, p2: Mpn, dp: array<Limb>)
    requires p1.InBounds() && p2.InBounds() && dp != p1.limbs && dp != p2.limbs
    requires p1.nlimbs > 0 && dp.Length == p1.nlimbs + p2.nlimbs
    requires forall x :: 0 <= x < p2.nlimbs ==> dp[x] == 0
    modifies dp
    ensures Value(dp[..]) == p1.Val() * p2.Val()
  {
    ghost var a, b := p1.Digits(), p2.Digits();
    var len2 := p2.nlimbs;
    ValueZero(dp[..len2]);
    var i := 0;
    while i < p1.nlimbs
      invariant i <= p1.nlimbs
      invariant a == p1.Digits() && b == p2.Digits()
      invariant Value(dp[..i + len2]) == Value(a[..i]) * Value(b)
    {
      var digit1 := p1.limbs[p1.start + i];
      assert digit1 == a[i];
      AddRow(digit1, p2, dp, i);
      NextRow(a, i, Value(b));
      i := i + 1;
    }
    assert a[..i] == a;
    assert dp[..i + len2] == dp[..];
  }

  method Multiply(src1: Mpn, src2: Mpn, granted: bool) returns (r: Result)
    requires src1.InBounds() && src2.InBounds()
    ensures r.OutOfMemory? <==> !granted
    ensures r.Product? ==> fresh(r.dest.limbs) && r.dest.InBounds() && r.dest.start == 0
    ensures r.Product? ==> r.dest.Val() == src1.Val() * src2.Val()
    ensures r.Product? ==> Normalised(r.dest.Digits())
  {
    var p1, p2 := src1, src2;
    if !(src1.nlimbs <= src2.nlimbs) {
      p1, p2 := src2, src1;
    }
    var len1, len2 := p1.nlimbs, p2.nlimbs;
    if !granted {
      return OutOfMemory;
    }
    if len1 == 0 {
      var dp := new Limb[1];
      assert p1.Digits() == [];
      return Product(Mpn(dp, 0, 0));
    }
    var dlen := len1 + len2;
    var dp := new Limb[dlen];
    var k := len2;
    while k > 0
      invariant 0 <= k <= len2 <= dp.Length
      invariant forall x :: k <= x < len2 ==> dp[x] == 0
    {
      k := k - 1;
      dp[k] := 0;
    }
    AddRows(p1, p2, dp);
    var product := Mpn(dp, 0, dlen);
    assert product.Digits() == dp[..];
    dlen := NormalisedLen(product);
    assert p2.Val() * p1.Val() == p1.Val() * p2.Val();
    r := Product(Mpn(dp, 0, dlen));
  }
}
