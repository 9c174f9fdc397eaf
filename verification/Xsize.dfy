/** Sizes of memory objects: arithmetic that saturates at SIZE_MAX. */
module Xsize {

  const SIZE_MAX: nat := 0xFFFF_FFFF_FFFF_FFFF

  type Size = x: int | 0 <= x <= 0xFFFF_FFFF_FFFF_FFFF

  /** The sum wraps around; a sum that is too small shows it. */
  function Xsum(size1: Size, size2: Size): Size {
    var sum := (size1 + size2) % (SIZE_MAX + 1);
    if sum >= size1 then sum else SIZE_MAX
  }

  function Xsum4(size1: Size, size2: Size, size3: Size, size4: Size): Size {
    Xsum(Xsum(Xsum(size1, size2), size3), size4)
  }

  function Xtimes(n: nat, elsize: Size): Size
    requires elsize > 0
  {
    if n <= SIZE_MAX / elsize then InBounds(n, elsize); n * elsize else SIZE_MAX
  }

  lemma InBounds(n: nat, elsize: Size)
    requires elsize > 0
    ensures n <= SIZE_MAX / elsize <==> n * elsize <= SIZE_MAX
  {
    var q := SIZE_MAX / elsize;
    if n <= q {
      assert n * elsize <= q * elsize;
    } else {
      assert (q + 1) * elsize <= n * elsize;
    }
  }

  function Saturated(n: nat): Size {
    if n <= SIZE_MAX then n else SIZE_MAX
  }

  lemma XsumSaturates(size1: Size, size2: Size)
    ensures Xsum(size1, size2) == Saturated(size1 + size2)
  {
    if size1 + size2 > SIZE_MAX {
      assert (size1 + size2) % (SIZE_MAX + 1) == size1 + size2 - (SIZE_MAX + 1);
    }
  }

  lemma XtimesSaturates(n: nat, elsize: Size)
    requires elsize > 0
    ensures 0 <= n * elsize && Xtimes(n, elsize) == Saturated(n * elsize)
  {
    InBounds(n, elsize);
  }

  lemma Xsum4Saturates(size1: Size, size2: Size, size3: Size, size4: Size)
    ensures Xsum4(size1, size2, size3, size4) == Saturated(size1 + size2 + size3 + size4)
  {
    XsumSaturates(size1, size2);
    XsumSaturates(Xsum(size1, size2), size3);
    XsumSaturates(Xsum(Xsum(size1, size2), size3), size4);
  }

  // ------------------------------------------------------------------------
  // Numbers read digit by digit
  // ------------------------------------------------------------------------

  function DigitValue(c: char): nat {
    if '0' <= c <= '9' then c as int - '0' as int else 0
  }

  function DecimalValue(digits: string): nat {
    if digits == "" then 0 else DecimalValue(digits[..|digits| - 1]) * 10 + DigitValue(digits[|digits| - 1])
  }

  lemma OneMoreDigit(digits: string, c: char)
    ensures DecimalValue(digits + [c]) == DecimalValue(digits) * 10 + DigitValue(c)
  {
    assert (digits + [c])[..|digits|] == digits;
  }

  /** A step of the accumulation keeps the saturated value exact. */
  lemma AccumulateSaturates(v: nat, d: Size)
    requires d < 10
    ensures Xsum(Xtimes(Saturated(v), 10), d) == Saturated(v * 10 + d)
  {
    XtimesSaturates(Saturated(v), 10);
    XsumSaturates(Xtimes(Saturated(v), 10), d);
  }
}
