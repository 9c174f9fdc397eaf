/** The hash function of message identifiers. */
module HashString {
  import opened HashBits

  /** The state after a string of characters, each of which is added and then folded in. */
  function Scan<S>(s: seq<bv8>, sum: (S, bv8) -> S, fold: S -> S, h: S): S {
    if s == [] then h else fold(sum(Scan(s[..|s| - 1], sum, fold, h), s[|s| - 1]))
  }

  /** Two scanners whose steps agree through low agree on every string. */
  lemma {:induction false} Simulates<S(!new)>(s: seq<bv8>, sum: (S, bv8) -> S, sum': (S, bv8) -> S, fold: S -> S,
                                       low: S -> S, h: S)
    requires forall x: S, c: bv8 :: low(sum(x, c)) == sum'(low(x), c)
    requires forall x: S :: low(fold(x)) == fold(low(x))
    ensures low(Scan(s, sum, fold, h)) == Scan(s, sum', fold, low(h))
  {
    if s != [] {
      var x, c := Scan(s[..|s| - 1], sum, fold, h), s[|s| - 1];
      Simulates(s[..|s| - 1], sum, sum', fold, low, h);
      assert low(fold(sum(x, c))) == fold(low(sum(x, c)));
      assert low(sum(x, c)) == sum'(low(x), c);
    }
  }

  lemma ScanSnoc<S>(s: seq<bv8>, i: nat, sum: (S, bv8) -> S, fold: S -> S, h: S)
    requires i < |s|
    ensures Scan(s[..i + 1], sum, fold, h) == fold(sum(Scan(s[..i], sum, fold, h), s[i]))
  {
    assert s[..i + 1][..i] == s[..i];
  }

  lemma Ends<S>(s: seq<bv8>, sum: (S, bv8) -> S, fold: S -> S, h: S) returns (x: S)
    ensures Scan(s, sum, fold, h) == if s == [] then h else fold(x)
  {
    x := if s == [] then h else sum(Scan(s[..|s| - 1], sum, fold, h), s[|s| - 1]);
  }

  /** The hash value where unsigned long has 64 bits. */
  function Hash64(s: seq<bv8>): bv64 {
    Scan(s, Sum64, Fold, 0)
  }

  /** The hash value where unsigned long has 32 bits. */
  function Hash32(s: seq<bv8>): bv64 {
    Scan(s, Sum32, Fold, 0)
  }

  lemma StepIs(s: seq<bv8>, c: bv8, h: bv64) returns (s': seq<bv8>)
    requires Hash32(s) == h
    ensures s' == s + [c] && Hash32(s') == Fold(Sum32(h, c))
  {
    s' := s + [c];
    assert s'[..|s|] == s;
  }

  /** "Welcome" has the hash value 0xdc2a665. */
  lemma HashOfWelcome()
    ensures Hash32([0x57, 0x65, 0x6C, 0x63, 0x6F, 0x6D, 0x65]) == 0xDC2_A665
  {
    var w := StepIs([], 0x57, 0);
    var we := StepIs(w, 0x65, 0x57);
    var wel := StepIs(we, 0x6C, 0x5D5);
    var welc := StepIs(wel, 0x63, 0x5DBC);
    var welco := StepIs(welc, 0x6F, 0x5_DC23);
    var welcom := StepIs(welco, 0x6D, 0x5D_C29F);
    var welcome := StepIs(welcom, 0x65, 0x5DC_2A5D);
    assert welcome == [0x57, 0x65, 0x6C, 0x63, 0x6F, 0x6D, 0x65];
  }

  /** The low 32 bits, which is all that the catalogues use, do not depend on the width of unsigned long. */
  lemma LowBits(s: seq<bv8>)
    ensures Low(Hash64(s)) == Hash32(s)
  {
    forall h: bv64, c: bv8
      ensures Low(Sum64(h, c)) == Sum32(Low(h), c)
    {
      SumLow(h, c);
    }
    forall h: bv64
      ensures Low(Fold(h)) == Fold(Low(h))
    {
      FoldLow(h);
    }
    Zero();
    Simulates(s, Sum64, Sum32, Fold, Low, 0);
  }

  /** They stay below 2^28. */
  lemma HashBound(s: seq<bv8>)
    ensures Small(Low(Hash64(s)))
  {
    var x := Ends(s, Sum64, Fold, 0);
    if s == [] {
      Zero();
    } else {
      FoldSmall(x);
    }
  }

  /** The function itself, on a string with its NUL. */
  method HashString(str: seq<bv8>) returns (hval: bv64)
    requires str != [] && str[|str| - 1] == 0 && forall i :: 0 <= i < |str| - 1 ==> str[i] != 0
    ensures hval == Hash64(str[..|str| - 1])
    ensures Low(hval) == Hash32(str[..|str| - 1]) && Small(Low(hval))
  {
    hval := 0;
    var i := 0;
    while str[i] != 0
      invariant 0 <= i < |str| && hval == Hash64(str[..i])
      decreases |str| - i
    {
      ScanSnoc(str, i, Sum64, Fold, 0);
      hval := Sum64(hval, str[i]);
      i := i + 1;
      hval := Fold(hval);
    }
    LowBits(str[..i]);
    HashBound(str[..i]);
  }
}
