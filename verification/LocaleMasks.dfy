/** Sets of locale name parts as bit masks: the masks dominated by a mask, and how many there are. */
module LocaleMasks {

  const XPG_NORM_CODESET := 1
  const XPG_CODESET := 2
  const XPG_TERRITORY := 4
  const XPG_MODIFIER := 8

  /** The bit of weight b is set in mask. */
  predicate Has(mask: nat, b: nat)
    requires b > 0
  {
    mask / b % 2 == 1
  }

  /** (c & ~mask) == 0 */
  predicate Dominated(c: nat, mask: nat) {
    c == 0 || (c % 2 <= mask % 2 && Dominated(c / 2, mask / 2))
  }

  /** The submasks that are considered: those without both forms of the codeset. */
  predicate Admissible(c: nat, mask: nat) {
    Dominated(c, mask) && !(Has(c, XPG_CODESET) && Has(c, XPG_NORM_CODESET))
  }

  /** The admissible submasks from hi down to 0. */
  function Submasks(hi: int, mask: nat): seq<nat>
    decreases hi + 1
  {
    if hi < 0 then [] else (if Admissible(hi, mask) then [hi] else []) + Submasks(hi - 1, mask)
  }

  // ------------------------------------------------------------------------
  // Counting
  // ------------------------------------------------------------------------

  function PopCount(mask: nat): nat {
    if mask == 0 then 0 else mask % 2 + PopCount(mask / 2)
  }

  function Pow2(n: nat): nat {
    if n == 0 then 1 else 2 * Pow2(n - 1)
  }

  /** The number of masks up to hi that are dominated by mask. */
  function Count(hi: int, mask: nat): nat
    decreases hi + 1
  {
    if hi < 0 then 0 else Count(hi - 1, mask) + if Dominated(hi, mask) then 1 else 0
  }

  lemma DominatedPair(h: nat, mask: nat)
    ensures Dominated(2 * h, mask) <==> Dominated(h, mask / 2)
    ensures Dominated(2 * h + 1, mask) <==> mask % 2 == 1 && Dominated(h, mask / 2)
  {
    assert 2 * h / 2 == h && (2 * h + 1) / 2 == h;
  }

  lemma {:induction false} CountPairs(h: int, mask: nat)
    requires h >= -1
    decreases h + 1
    ensures Count(2 * h + 1, mask) == (1 + mask % 2) * Count(h, mask / 2)
  {
    if h >= 0 {
      CountPairs(h - 1, mask);
      DominatedPair(h, mask);
      assert Count(2 * h + 1, mask) == Count(2 * h - 1, mask) + (if Dominated(2 * h, mask) then 1 else 0)
          + (if Dominated(2 * h + 1, mask) then 1 else 0);
    }
  }

  /** A mask dominates 2^pop masks. */
  lemma {:induction false} CountIsPower(mask: nat)
    ensures Count(mask, mask) == Pow2(PopCount(mask))
  {
    if mask == 0 {
      assert Count(0, 0) == Count(-1, 0) + 1;
    } else {
      var h := mask / 2;
      CountIsPower(h);
      CountPairs(h, mask);
      DominatedPair(h, mask);
      if mask % 2 == 0 {
        assert mask == 2 * h && Count(2 * h + 1, mask) == Count(2 * h, mask);
      } else {
        assert mask == 2 * h + 1;
      }
    }
  }

  lemma {:induction false} SubmasksCount(hi: int, mask: nat)
    requires hi >= -1
    decreases hi + 1
    ensures |Submasks(hi, mask)| <= Count(hi, mask)
  {
    if hi >= 0 {
      SubmasksCount(hi - 1, mask);
    }
  }

  lemma {:induction false} DominatesItself(mask: nat)
    ensures Dominated(mask, mask)
  {
    if mask > 0 {
      DominatesItself(mask / 2);
    }
  }

  lemma {:induction false} DominatedTransitive(a: nat, b: nat, c: nat)
    requires Dominated(a, b) && Dominated(b, c)
    ensures Dominated(a, c)
  {
    if a > 0 {
      if b > 0 {
        DominatedTransitive(a / 2, b / 2, c / 2);
      } else {
        NothingBelowZero(a);
      }
    }
  }

  lemma {:induction false} NothingBelowZero(a: nat)
    requires Dominated(a, 0)
    ensures a == 0
  {
    if a > 0 {
      NothingBelowZero(a / 2);
    }
  }

  /** At most 2^pop submasks are considered, and one less without the mask itself. */
  lemma SubmasksFit(mask: nat)
    ensures |Submasks(mask, mask)| <= Pow2(PopCount(mask))
    ensures |Submasks(mask - 1, mask)| < Pow2(PopCount(mask))
  {
    CountIsPower(mask);
    SubmasksCount(mask, mask);
    SubmasksCount(mask - 1, mask);
    DominatesItself(mask);
  }

  /** Exactly the admissible submasks are considered, in decreasing order. */
  lemma {:induction false} SubmasksAre(hi: int, mask: nat)
    requires hi >= -1
    decreases hi + 1
    ensures forall c: nat :: c in Submasks(hi, mask) <==> c <= hi && Admissible(c, mask)
    ensures forall i, j :: 0 <= i < j < |Submasks(hi, mask)| ==> Submasks(hi, mask)[i] > Submasks(hi, mask)[j]
  {
    if hi >= 0 {
      SubmasksAre(hi - 1, mask);
      var rest := Submasks(hi - 1, mask);
      forall j | 0 <= j < |rest| ensures rest[j] < hi {
        assert rest[j] in rest;
      }
    }
  }

  // ------------------------------------------------------------------------
  // The bits of a mask
  // ------------------------------------------------------------------------

  lemma HasLow(mask: nat)
    ensures Has(mask, 1) <==> mask % 2 == 1
    ensures Has(mask, 2) <==> Has(mask / 2, 1)
    ensures Has(mask, 4) <==> Has(mask / 2, 2)
    ensures Has(mask, 8) <==> Has(mask / 2, 4)
  {
    assert mask / 4 == mask / 2 / 2 && mask / 8 == mask / 2 / 4;
  }

  lemma DominatedBits(c: nat, mask: nat)
    requires Dominated(c, mask)
    ensures Has(c, 1) ==> Has(mask, 1)
    ensures Has(c, 2) ==> Has(mask, 2)
    ensures Has(c, 4) ==> Has(mask, 4)
    ensures Has(c, 8) ==> Has(mask, 8)
  {
    HasLow(c);
    HasLow(mask);
    HasLow(c / 2);
    HasLow(mask / 2);
    HasLow(c / 4);
    HasLow(mask / 4);
    assert c / 4 == c / 2 / 2 && mask / 4 == mask / 2 / 2 && c / 8 == c / 4 / 2 && mask / 8 == mask / 4 / 2;
  }

  function Weight(mask: nat, b: nat): nat
    requires b > 0
  {
    if Has(mask, b) then b else 0
  }

  lemma FourBits(mask: nat)
    requires mask < 16
    ensures mask == Weight(mask, 1) + Weight(mask, 2) + Weight(mask, 4) + Weight(mask, 8)
  {
  }

  // ------------------------------------------------------------------------
  // The order of the fallbacks
  // ------------------------------------------------------------------------

  /** c keeps the part of weight b and d drops it, and they agree on the heavier parts. */
  predicate KeepsLonger(c: nat, d: nat, b: nat)
    requires b > 0
  {
    && Has(c, b) && !Has(d, b)
    && forall h :: h in {1, 2, 4, 8} && h > b ==> (Has(c, h) <==> Has(d, h))
  }

  lemma LargerFirst(c: nat, d: nat, b: nat)
    requires c < 16 && d < 16 && b in {1, 2, 4, 8} && KeepsLonger(c, d, b)
    ensures d < c
  {
    FourBits(c);
    FourBits(d);
    assert forall h :: h in {1, 2, 4, 8} && h > b ==> Weight(c, h) == Weight(d, h);
  }

  /** The fallbacks drop the normalised codeset first, then the codeset, then the territory, and the modifier last: of
      two fallbacks that agree on the parts dropped later, the one that keeps a part comes before the one without it. */
  lemma LaterBitsOutlast(mask: nat, i: nat, j: nat, b: nat)
    requires mask < 16 && i < |Submasks(mask - 1, mask)| && j < |Submasks(mask - 1, mask)|
    requires b in {XPG_NORM_CODESET, XPG_CODESET, XPG_TERRITORY, XPG_MODIFIER}
    ensures KeepsLonger(Submasks(mask - 1, mask)[i], Submasks(mask - 1, mask)[j], b) ==> i < j
  {
    var s := Submasks(mask - 1, mask);
    SubmasksAre(mask - 1, mask);
    assert s[i] in s && s[j] in s;
    if KeepsLonger(s[i], s[j], b) {
      LargerFirst(s[i], s[j], b);
    }
  }

  lemma FirstIsLargest(mask: nat, c: nat)
    requires c < mask && Admissible(c, mask)
    ensures var s := Submasks(mask - 1, mask); s != [] && c <= s[0] < mask && Admissible(s[0], mask)
  {
    var s := Submasks(mask - 1, mask);
    SubmasksAre(mask - 1, mask);
    assert c in s;
    assert s[0] in s;
  }

  lemma UpperHalf(c: nat)
    requires c < 16
    ensures Has(c, XPG_MODIFIER) <==> c >= XPG_MODIFIER
  {
  }

  /** The first fallback of a name with a modifier drops the modifier if and only if there is nothing else to drop. */
  lemma ModifierFirstOnlyAlone(mask: nat)
    requires mask < 16 && Has(mask, XPG_MODIFIER)
    ensures var s := Submasks(mask - 1, mask); s != [] && (!Has(s[0], XPG_MODIFIER) <==> mask == XPG_MODIFIER)
  {
    UpperHalf(mask);
    if mask == XPG_MODIFIER {
      FirstIsLargest(mask, 0);
    } else {
      EightAdmissible(mask);
      FirstIsLargest(mask, 8);
    }
    UpperHalf(Submasks(mask - 1, mask)[0]);
  }

  /** That of de_AT@euro is de@euro, and not de_AT. */
  lemma TerritoryBeforeModifier()
    ensures var s := Submasks(XPG_TERRITORY + XPG_MODIFIER - 1, XPG_TERRITORY + XPG_MODIFIER);
            s != [] && s[0] == XPG_MODIFIER
  {
    EightAdmissible(12);
    FirstIsLargest(12, 8);
    var c := Submasks(11, 12)[0];
    DominatedBits(c, 12);
    FourBits(c);
  }

  lemma EightAdmissible(mask: nat)
    requires mask < 16 && Has(mask, 8)
    ensures Admissible(8, mask)
  {
    assert mask / 2 / 2 / 2 == mask / 8 == 1;
    assert Dominated(1, mask / 8) && Dominated(2, mask / 4) && Dominated(4, mask / 2);
  }

  // ------------------------------------------------------------------------
  // The function pop
  // ------------------------------------------------------------------------

  function Bit(x: bv32, k: bv5): bv32 {
    (x >> k) & 1
  }

  /** The number of bits in four bits of a word. */
  function Nibble(x: bv32): bv32 {
    Bit(x, 0) + Bit(x, 1) + Bit(x, 2) + Bit(x, 3)
  }

  /** Adds up the bits in pairs, then in groups of four, eight and sixteen. */
  method Pop(x0: bv32) returns (x: bv32)
    requires x0 <= 0xFFFF
    ensures x == Nibble(x0) + Nibble(x0 >> 4) + Nibble(x0 >> 8) + Nibble(x0 >> 12)
  {
    x := x0;
    x := ((x & 0xFFFF_AAAA) >> 1) + (x & 0x5555);
    x := ((x & 0xFFFF_CCCC) >> 2) + (x & 0x3333);
    x := ((x >> 4) + x) & 0x0f0f;
    x := ((x >> 8) + x) & 0xff;
  }

  /** A mask of locale name parts as a word. */
  function Word(mask: nat): bv32
    requires mask < 16
  {
    (if Has(mask, 8) then 8 else 0) | (if Has(mask, 4) then 4 else 0)
    | (if Has(mask, 2) then 2 else 0) | (if Has(mask, 1) then 1 else 0)
  }

  /** For the masks of locale names this is the number of parts. */
  lemma NibbleCounts(mask: nat)
    requires mask < 16
    ensures PopCount(mask) == (if Has(mask, 8) then 1 else 0) + (if Has(mask, 4) then 1 else 0)
              + (if Has(mask, 2) then 1 else 0) + (if Has(mask, 1) then 1 else 0)
    ensures Nibble(Word(mask)) == match PopCount(mask) case 0 => 0 case 1 => 1 case 2 => 2 case 3 => 3 case _ => 4
  {
    HasLow(mask);
    HasLow(mask / 2);
    HasLow(mask / 4);
    assert mask / 4 == mask / 2 / 2 && mask / 8 == mask / 4 / 2 && mask / 16 == mask / 8 / 2 == 0;
  }

  lemma UpperNibbles(mask: nat)
    requires mask < 16
    ensures var x := Word(mask); x <= 0xFFFF && Nibble(x >> 4) == Nibble(x >> 8) == Nibble(x >> 12) == 0
  {
    var x := Word(mask);
    assert x <= 15;
    assert x >> 4 == 0 && x >> 8 == 0 && x >> 12 == 0;
  }

  lemma SmallNumbers(x: bv32)
    ensures x == 0 ==> x as nat == 0
    ensures x == 1 ==> x as nat == 1
    ensures x == 2 ==> x as nat == 2
    ensures x == 3 ==> x as nat == 3
    ensures x == 4 ==> x as nat == 4
  {
  }

  lemma FourParts(mask: nat)
    requires mask < 16
    ensures PopCount(mask) <= 4
  {
    NibbleCounts(mask);
  }

  /** Counts the parts of a mask with pop. */
  method CountParts(mask: nat) returns (n: nat)
    requires mask < 16
    ensures n == PopCount(mask)
  {
    UpperNibbles(mask);
    NibbleCounts(mask);
    FourParts(mask);
    var x := Pop(Word(mask));
    SmallNumbers(x);
    n := x as nat;
  }
}
