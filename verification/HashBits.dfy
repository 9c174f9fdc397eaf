/** The two halves of a step of the hash function, with longs of 64 bits and with longs of 32 bits. A 32-bit word
    is kept in a bv64 whose upper half is zero. */
module HashBits {

  function Low(h: bv64): bv64 {
    h & 0xFFFF_FFFF
  }

  /** The first half of a step: shifts four bits up and adds a character. */
  function Sum64(h: bv64, c: bv8): bv64 {
    (h << 4) + (c as bv64)
  }

  function Sum32(h: bv64, c: bv8): bv64 {
    ((h << 4) + (c as bv64)) & 0xFFFF_FFFF
  }

  /** Moves the bits g from the top to the bottom. */
  function Mix(h: bv64, g: bv64): bv64 {
    if g != 0 then (h ^ (g >> 24)) ^ g else h
  }

  /** The second half of a step: the four top bits of 32 are folded back. */
  function Fold(h: bv64): bv64 {
    Mix(h, h & 0xF000_0000)
  }

  lemma SumLow(h: bv64, c: bv8)
    ensures Low(Sum64(h, c)) == Sum32(Low(h), c)
  {
  }

  lemma MaskLow(h: bv64)
    ensures Low(h) & 0xF000_0000 == h & 0xF000_0000
    ensures (h & 0xF000_0000) & 0xFFFF_FFFF == h & 0xF000_0000
  {
  }

  lemma MixLow(h: bv64, g: bv64)
    requires g & 0xFFFF_FFFF == g
    ensures Low(Mix(h, g)) == Mix(Low(h), g)
  {
  }

  lemma FoldLow(h: bv64)
    ensures Low(Fold(h)) == Fold(Low(h))
  {
    MaskLow(h);
    MixLow(h, h & 0xF000_0000);
  }

  predicate Small(h: bv64) {
    h < 0x1000_0000
  }

  lemma MixAlways(h: bv64, g: bv64)
    ensures Mix(h, g) == (h ^ (g >> 24)) ^ g
  {
  }

  lemma MixedNibbles(h: bv64, f: bv64)
    requires h <= 0xFFFF_FFFF && f == (h ^ ((h & 0xF000_0000) >> 24)) ^ (h & 0xF000_0000)
    ensures f >> 8 == (h >> 8) & 0x0F_FFFF && f & 0xF == h & 0xF && (f >> 4) & 0xF == ((h >> 4) & 0xF) ^ (h >> 28)
  {
  }

  /** Of 32 bits the four at the top are added, without carry, to bits 4 to 7, and cleared; the other ones stay. */
  lemma FoldNibbles(h: bv64)
    requires h <= 0xFFFF_FFFF
    ensures Fold(h) >> 8 == (h >> 8) & 0x0F_FFFF && Fold(h) & 0xF == h & 0xF
    ensures (Fold(h) >> 4) & 0xF == ((h >> 4) & 0xF) ^ (h >> 28)
  {
    MixAlways(h, h & 0xF000_0000);
    MixedNibbles(h, Fold(h));
  }

  lemma FoldSmall(h: bv64)
    ensures Small(Low(Fold(h)))
  {
  }

  lemma Zero()
    ensures Low(0) == 0 && Small(Low(0))
  {
  }
}
