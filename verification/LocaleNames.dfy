/** File names of localised files, and the names that a file inherits from. */
module LocaleNames {
  import opened LocaleMasks

  datatype Parts = Parts(language: string, territory: string, codeset: string, normalized: string, modifier: string,
                         filename: string)

  // ------------------------------------------------------------------------
  // strcmp
  // ------------------------------------------------------------------------

  function Compare(s: string, t: string): int
    decreases |s|
  {
    if s == "" && t == "" then 0
    else if s == "" then -1
    else if t == "" then 1
    else if s[0] < t[0] then -1
    else if s[0] > t[0] then 1
    else Compare(s[1..], t[1..])
  }

  lemma {:induction false} CompareEqual(s: string, t: string)
    decreases |s|
    ensures Compare(s, t) == 0 <==> s == t
  {
    if s != "" && t != "" && s[0] == t[0] {
      CompareEqual(s[1..], t[1..]);
      assert s == [s[0]] + s[1..] && t == [t[0]] + t[1..];
    }
  }

  lemma {:induction false} CompareFlip(s: string, t: string)
    decreases |s|
    ensures Compare(s, t) == -Compare(t, s)
  {
    if s != "" && t != "" && s[0] == t[0] {
      CompareFlip(s[1..], t[1..]);
    }
  }

  lemma {:induction false} CompareTransitive(s: string, t: string, u: string)
    requires Compare(s, t) > 0 && Compare(t, u) > 0
    decreases |s|
    ensures Compare(s, u) > 0
  {
    if u != "" && s[0] == t[0] == u[0] {
      CompareTransitive(s[1..], t[1..], u[1..]);
    }
  }

  // ------------------------------------------------------------------------
  // Names
  // ------------------------------------------------------------------------

  /** The directories separated by colons and closed by a slash. */
  function DirPart(dirs: seq<string>): string {
    if dirs == [] then ""
    else if |dirs| == 1 then dirs[0] + "/"
    else dirs[0] + ":" + DirPart(dirs[1..])
  }

  function Part(mask: nat, b: nat, lead: char, text: string): string
    requires b > 0
  {
    if Has(mask, b) then [lead] + text else ""
  }

  /** The parts of the locale behind the language. */
  function NameParts(mask: nat, p: Parts): string {
    Part(mask, XPG_TERRITORY, '_', p.territory)
    + Part(mask, XPG_CODESET, '.', p.codeset)
    + Part(mask, XPG_NORM_CODESET, '.', p.normalized)
    + Part(mask, XPG_MODIFIER, '@', p.modifier)
  }

  function FileName(dirs: seq<string>, mask: nat, p: Parts): string {
    DirPart(dirs) + p.language + NameParts(mask, p) + "/" + p.filename
  }

  /** Dropping parts makes a name shorter. */
  lemma FewerParts(dirs: seq<string>, c: nat, mask: nat, p: Parts)
    requires Dominated(c, mask) && c <= mask < 16
    ensures |FileName(dirs, c, p)| <= |FileName(dirs, mask, p)|
    ensures c < mask ==> |FileName(dirs, c, p)| < |FileName(dirs, mask, p)|
  {
    DominatedBits(c, mask);
    FourBits(c);
    FourBits(mask);
    assert |NameParts(c, p)| <= |NameParts(mask, p)| && (c < mask ==> |NameParts(c, p)| < |NameParts(mask, p)|);
  }

  lemma {:induction false} OneDirShorter(dirs: seq<string>, i: nat)
    requires |dirs| > 1 && i < |dirs|
    ensures |DirPart([dirs[i]])| < |DirPart(dirs)|
  {
    if i > 0 {
      if |dirs| > 2 {
        OneDirShorter(dirs[1..], i - 1);
      }
    } else {
      assert |DirPart(dirs[1..])| > 0;
    }
  }

  // ------------------------------------------------------------------------
  // The names to inherit from
  // ------------------------------------------------------------------------

  /** The directory lists that are looked up: the single directories of a real list, or else the list itself. */
  function Lookups(dirs: seq<string>): seq<seq<string>> {
    if |dirs| > 1 then Singles(dirs) else [dirs]
  }

  function Singles(dirs: seq<string>): (r: seq<seq<string>>)
    ensures |r| == |dirs| && forall i :: 0 <= i < |dirs| ==> r[i] == [dirs[i]]
  {
    if dirs == [] then [] else [[dirs[0]]] + Singles(dirs[1..])
  }

  function NamesFor(lookups: seq<seq<string>>, mask: nat, p: Parts): (r: seq<string>)
    ensures |r| == |lookups| && forall i :: 0 <= i < |r| ==> r[i] == FileName(lookups[i], mask, p)
  {
    if lookups == [] then [] else [FileName(lookups[0], mask, p)] + NamesFor(lookups[1..], mask, p)
  }

  function NamesForAll(lookups: seq<seq<string>>, masks: seq<nat>, p: Parts): seq<string> {
    if masks == [] then [] else NamesFor(lookups, masks[0], p) + NamesForAll(lookups, masks[1..], p)
  }

  /** The mask from which the submasks are taken downwards. */
  function Highest(dirs: seq<string>, mask: nat): int {
    if |dirs| > 1 then mask else mask - 1
  }

  /** The names that the file for dirs and mask inherits from: for every admissible submask, the mask itself only
      for a real list, and every directory. */
  function Wanted(dirs: seq<string>, mask: nat, p: Parts): seq<string> {
    NamesForAll(Lookups(dirs), Submasks(Highest(dirs, mask), mask), p)
  }

  lemma {:induction false} NamesCount(lookups: seq<seq<string>>, masks: seq<nat>, p: Parts)
    ensures |NamesForAll(lookups, masks, p)| == |masks| * |lookups|
  {
    if masks != [] {
      NamesCount(lookups, masks[1..], p);
      assert |masks| * |lookups| == |lookups| + (|masks| - 1) * |lookups|;
    }
  }

  /** The number of directories that are looked up, at least one. */
  function DirCount(dirs: seq<string>): nat {
    if dirs == [] then 1 else |dirs|
  }

  /** The number of elements of the successor array. */
  function Room(dirs: seq<string>, mask: nat): nat {
    1 + (DirCount(dirs) * Pow2(PopCount(mask)) + if DirCount(dirs) > 1 then 1 else 0)
  }

  lemma MulLess(a: nat, b: nat, c: nat)
    requires a <= b
    ensures a * c <= b * c
  {
  }

  /** All names and the terminating null pointer fit into the array. */
  lemma WantedFits(dirs: seq<string>, mask: nat, p: Parts)
    ensures |Wanted(dirs, mask, p)| < Room(dirs, mask)
  {
    SubmasksFit(mask);
    NamesCount(Lookups(dirs), Submasks(Highest(dirs, mask), mask), p);
    MulLess(|Submasks(Highest(dirs, mask), mask)|, Pow2(PopCount(mask)), |Lookups(dirs)|);
    assert |Lookups(dirs)| == DirCount(dirs);
  }

  lemma {:induction false} NamesIn(lookups: seq<seq<string>>, masks: seq<nat>, p: Parts, j: nat)
    requires j < |NamesForAll(lookups, masks, p)|
    ensures exists m, i :: m in masks && 0 <= i < |lookups|
              && NamesForAll(lookups, masks, p)[j] == FileName(lookups[i], m, p)
  {
    var first := NamesFor(lookups, masks[0], p);
    if j < |first| {
      assert masks[0] in masks && NamesForAll(lookups, masks, p)[j] == first[j] == FileName(lookups[j], masks[0], p);
    } else {
      NamesIn(lookups, masks[1..], p, j - |first|);
      var m, i :| m in masks[1..] && 0 <= i < |lookups|
          && NamesForAll(lookups, masks[1..], p)[j - |first|] == FileName(lookups[i], m, p);
      assert m in masks;
    }
  }

  /** Every name to inherit from is shorter, so that inheritance has no cycles. */
  lemma WantedShorter(dirs: seq<string>, mask: nat, p: Parts, j: nat)
    requires mask < 16 && j < |Wanted(dirs, mask, p)|
    ensures |Wanted(dirs, mask, p)[j]| < |FileName(dirs, mask, p)|
  {
    var hi := Highest(dirs, mask);
    NamesIn(Lookups(dirs), Submasks(hi, mask), p, j);
    var m, i :| m in Submasks(hi, mask) && 0 <= i < |Lookups(dirs)|
        && Wanted(dirs, mask, p)[j] == FileName(Lookups(dirs)[i], m, p);
    SubmasksAre(hi, mask);
    FewerParts(dirs, m, mask, p);
    if |dirs| > 1 {
      OneDirShorter(dirs, i);
      DirsShorter([dirs[i]], dirs, m, p);
    }
  }

  lemma DirsShorter(dirs: seq<string>, dirs': seq<string>, mask: nat, p: Parts)
    requires |DirPart(dirs)| < |DirPart(dirs')|
    ensures |FileName(dirs, mask, p)| < |FileName(dirs', mask, p)|
  {
  }
}
