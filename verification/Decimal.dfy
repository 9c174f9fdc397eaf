/** Conversion of a bignum to decimal digits, least significant digit first. */
module Decimal {
  import opened Limbs
  import opened Division
  import opened Logarithms
  import opened ShortDivision

  const BILLION: int := 1_000_000_000

  /** x * 10^k */
  function Up10(x: int, k: nat): int {
    if k == 0 then x else 10 * Up10(x, k - 1)
  }

  function Digit(c: char): int {
    c as int - '0' as int
  }

  predicate IsDigit(c: char) {
    '0' <= c <= '9'
  }

  ghost predicate AllDigits(s: seq<char>) {
    forall i :: 0 <= i < |s| ==> IsDigit(s[i])
  }

  /** The number written by decimal digits, least significant digit first. */
  ghost function DecValue(s: seq<char>): int {
    if s == [] then 0 else Digit(s[0]) + 10 * DecValue(s[1..])
  }

  /** text is the one and only decimal representation of v, in low-to-high order: no superfluous zero. */
  ghost predicate Represents(text: seq<char>, v: int) {
    && AllDigits(text) && DecValue(text) == v
    && text != []
    && (|text| > 1 ==> text[|text| - 1] != '0')
  }

  lemma {:induction false} Up10Add(x: int, y: int, k: nat)
    ensures Up10(x + y, k) == Up10(x, k) + Up10(y, k)
  {
    if k > 0 { Up10Add(x, y, k - 1); }
  }

  lemma {:induction false} Up10Up10(x: int, m: nat, n: nat)
    ensures Up10(Up10(x, m), n) == Up10(x, m + n)
  {
    if n > 0 { Up10Up10(x, m, n - 1); }
  }

  lemma {:induction false} Up10IsPow(x: int, k: nat)
    ensures Up10(x, k) == x * Pow(10, k)
  {
    if k > 0 {
      Up10IsPow(x, k - 1);
      var p := Pow(10, k - 1);
      assert x * (10 * p) == 10 * (x * p);
    }
  }

  lemma {:induction false} Up10Zero(k: nat)
    ensures Up10(0, k) == 0
  {
    if k > 0 { Up10Zero(k - 1); }
  }

  lemma {:induction false} DecSnoc(s: seq<char>, c: char)
    ensures DecValue(s + [c]) == DecValue(s) + Up10(Digit(c), |s|)
  {
    if s != [] {
      assert (s + [c])[1..] == s[1..] + [c];
      DecSnoc(s[1..], c);
    } else {
      assert (s + [c])[1..] == [];
    }
  }

  lemma {:induction false} DecNonNegative(s: seq<char>)
    requires AllDigits(s)
    ensures DecValue(s) >= 0
  {
    if s != [] { DecNonNegative(s[1..]); }
  }

  /** Equal values have equal representations. */
  lemma {:induction false} RepresentsUnique(s: seq<char>, t: seq<char>, v: int)
    requires Represents(s, v) && Represents(t, v)
    ensures s == t
  {
    DecNonNegative(s[1..]);
    DecNonNegative(t[1..]);
    assert s[0] == t[0];
    var w := DecValue(s[1..]);
    if w == 0 {
      ShortForZero(s[1..]);
      ShortForZero(t[1..]);
      assert s == [s[0]] && t == [t[0]];
    } else {
      assert |s| > 1 && |t| > 1;
      RepresentsUnique(s[1..], t[1..], w);
      assert s == [s[0]] + s[1..] && t == [t[0]] + t[1..];
    }
  }

  lemma {:induction false} ShortForZero(s: seq<char>)
    requires AllDigits(s) && DecValue(s) == 0
    requires s != [] ==> s[|s| - 1] != '0'
    ensures s == []
  {
    if s != [] {
      DecNonNegative(s[1..]);
      if |s| > 1 {
        ShortForZero(s[1..]);
      }
    }
  }

  // ------------------------------------------------------------------------
  // Room for the digits
  // ------------------------------------------------------------------------

  /** The number of nine-digit chunks of x. */
  ghost function Chunks(x: nat): nat {
    if x == 0 then 0 else 1 + Chunks(x / BILLION)
  }

  lemma {:induction false} ChunksAtMost(x: nat, k: nat)
    requires x < Up10(1, 9 * k)
    ensures Chunks(x) <= k
  {
    if x > 0 && k > 0 {
      Nine(k);
      ChunksAtMost(x / BILLION, k - 1);
    }
  }

  lemma Nine(k: nat)
    requires k > 0
    ensures Up10(1, 9 * k) == BILLION * Up10(1, 9 * (k - 1))
  {
    Up10Up10(1, 9 * (k - 1), 9);
    TenToTheNine(Up10(1, 9 * (k - 1)));
  }

  lemma TenToTheNine(x: int)
    ensures Up10(x, 9) == BILLION * x
  {
    Thousands(x);
    Up10Up10(x, 3, 3);
    Thousands(Up10(x, 3));
    Up10Up10(x, 6, 3);
    Thousands(Up10(x, 6));
  }

  lemma Thousands(x: int)
    ensures Up10(x, 3) == 1000 * x
  {
    assert Up10(x, 1) == 10 * x;
    assert Up10(x, 2) == 100 * x;
  }

  /** A number of l limbs has at least l chunks. */
  lemma {:induction false} ChunksAtLeast(x: nat, l: nat)
    requires l > 0 && x >= Up(1, l - 1)
    ensures Chunks(x) >= l
  {
    UpLonger(0, l - 1);
    if l > 1 {
      UpLonger(0, l - 2);
      ChunksAtLeast(x / BILLION, l - 1);
    }
  }

  ghost function Max(x: nat, y: nat): nat {
    if x < y then y else x
  }

  // ------------------------------------------------------------------------
  // The conversion
  // ------------------------------------------------------------------------

  datatype Result = OutOfMemory | Text(digits: seq<char>)

  /** The first used characters of c, together with rest still to be written, denote total. */
  ghost predicate Written(c: seq<char>, used: nat, rest: int, total: int) {
    && used <= |c|
    && AllDigits(c[..used])
    && DecValue(c[..used]) + Up10(rest, used) == total
  }

  lemma WriteDigit(c: seq<char>, used: nat, rest: int, total: int, ch: char, rest': int)
    requires Written(c, used, rest, total) && used < |c|
    requires IsDigit(ch) && rest == Digit(ch) + 10 * rest'
    ensures Written(c[used := ch], used + 1, rest', total)
  {
    var c' := c[used := ch];
    assert c'[..used + 1] == c[..used] + [ch];
    DecSnoc(c[..used], ch);
    Up10Add(Digit(ch), 10 * rest', used);
    Up10Up10(rest', 1, used);
    assert Up10(rest', 1) == 10 * rest';
  }

  lemma DropZero(c: seq<char>, used: nat, total: int)
    requires Written(c, used, 0, total) && used > 0 && c[used - 1] == '0'
    ensures Written(c, used - 1, 0, total)
  {
    assert c[..used] == c[..used - 1] + ['0'];
    DecSnoc(c[..used - 1], '0');
    Up10Zero(used - 1);
    Up10Zero(used);
  }

  /** The rounds still needed for a number of value v in a_len limbs. */
  ghost function Rounds(v: nat, a_len: nat): nat {
    Max(a_len, Chunks(v))
  }

  /** Each round uses up one chunk or one limb of the bound. */
  lemma RoundUsesChunk(v: nat, rest: nat, remainder: nat, a_len: nat, a_len': nat)
    requires a_len > 0 && v == rest * BILLION + remainder && remainder < BILLION
    requires a_len' == a_len - 1 || (a_len' == a_len && rest >= Up(1, a_len - 1))
    ensures 1 + Rounds(rest, a_len') <= Rounds(v, a_len)
  {
    assert v / BILLION == rest;
    if a_len' == a_len {
      ChunksAtLeast(rest, a_len);
    }
  }

  lemma InitialRoom(v: nat, a_len: nat)
    requires v < Up(1, a_len)
    ensures Rounds(v, a_len) <= ChunkBound(a_len)
  {
    LimbsFitChunks(a_len);
    UpIsPow(1, a_len);
    Up10IsPow(1, 9 * ChunkBound(a_len));
    ChunksAtMost(v, ChunkBound(a_len));
  }

  /** Writes the nine decimal digits of a remainder. */
  method StoreNine(c: array<char>, used: nat, remainder: Limb, ghost rest: nat, ghost total: int)
    requires used + 9 <= c.Length && remainder < BILLION
    requires Written(c[..], used, rest * BILLION + remainder, total)
    modifies c
    ensures Written(c[..], used + 9, rest, total)
  {
    var r, d, count := remainder, used, 9;
    TenToTheNine(rest);
    TenToTheNine(1);
    while count > 0
      invariant 0 <= count <= 9 && d == used + (9 - count)
      invariant 0 <= r < Up10(1, count)
      invariant Written(c[..], d, Up10(rest, count) + r, total)
    {
      ghost var text := c[..];
      var ch := ('0' as int + r % 10) as char;
      c[d] := ch;
      assert c[..] == text[d := ch];
      WriteDigit(text, d, Up10(rest, count) + r, total, ch, Up10(rest, count - 1) + r / 10);
      r := r / 10;
      d := d + 1;
      count := count - 1;
    }
  }

  /** Writes the zeroes of the factor 10^extra_zeroes. */
  method StoreZeroes(c: array<char>, extra_zeroes: nat, ghost v: nat)
    requires extra_zeroes <= c.Length
    modifies c
    ensures Written(c[..], extra_zeroes, v, v * Pow(10, extra_zeroes))
  {
    ghost var total := v * Pow(10, extra_zeroes);
    Up10IsPow(v, extra_zeroes);
    var d, left := 0, extra_zeroes;
    while left > 0
      invariant 0 <= left && d + left == extra_zeroes
      invariant Written(c[..], d, Up10(v, left), total)
    {
      ghost var text := c[..];
      c[d] := '0';
      assert c[..] == text[d := '0'];
      WriteDigit(text, d, Up10(v, left), total, '0', Up10(v, left - 1));
      d := d + 1;
      left := left - 1;
    }
  }

  /** One round: divides a by 10^9 in place and writes the remainder. */
  method StoreChunk(a: Mpn, c: array<char>, used: nat, ghost total: int) returns (a_len: nat)
    requires a.InBounds() && a.nlimbs > 0 && used + 9 <= c.Length
    requires Written(c[..], used, a.Val(), total)
    modifies a.limbs, c
    ensures a_len <= a.nlimbs
    ensures var v := Value(a.limbs[a.start..a.start + a_len]);
            && Written(c[..], used + 9, v, total)
            && 1 + Rounds(v, a_len) <= Rounds(old(a.Val()), a.nlimbs)
  {
    ghost var v := a.Val();
    var remainder := DivideByLimb(a, 1_000_000_000, a.limbs, a.start);
    ghost var rest := a.Val();
    StoreNine(c, used, remainder, rest, total);
    a_len := DropOneZero(a);
    RoundUsesChunk(v, rest, remainder, a.nlimbs, a_len);
  }

  method DropOneZero(a: Mpn) returns (a_len: nat)
    requires a.InBounds() && a.nlimbs > 0
    ensures a_len == a.nlimbs - 1 || (a_len == a.nlimbs && a.Val() >= Up(1, a_len - 1))
    ensures Value(a.limbs[a.start..a.start + a_len]) == a.Val()
  {
    a_len := a.nlimbs;
    if a.limbs[a.start + a_len - 1] == 0 {
      a_len := a_len - 1;
      DropTopZero(a.Digits());
      assert a.limbs[a.start..a.start + a_len] == a.Digits()[..a_len];
    } else {
      NormalisedLength(a.Digits());
    }
  }

  /** Writes all chunks of a. */
  method StoreChunks(a: Mpn, c: array<char>, used0: nat, ghost total: int) returns (used: nat)
    requires a.InBounds() && used0 + 9 * Rounds(a.Val(), a.nlimbs) <= c.Length
    requires Written(c[..], used0, a.Val(), total)
    modifies a.limbs, c
    ensures used <= c.Length && Written(c[..], used, 0, total)
  {
    used := used0;
    var m := a;
    while m.nlimbs > 0
      invariant m.InBounds() && m.limbs == a.limbs
      invariant used + 9 * Rounds(m.Val(), m.nlimbs) <= c.Length
      invariant Written(c[..], used, m.Val(), total)
      decreases c.Length - used
    {
      var a_len := StoreChunk(m, c, used, total);
      m := m.(nlimbs := a_len);
      used := used + 9;
    }
  }

  /** Removes the zeroes at the most significant end, but keeps at least one digit. */
  method TrimZeroes(c: array<char>, used: nat, ghost total: int) returns (d: nat)
    requires used <= c.Length && 0 < c.Length && Written(c[..], used, 0, total)
    modifies c
    ensures d <= c.Length && Represents(c[..d], total)
  {
    d := used;
    while d > 0 && c[d - 1] == '0'
      invariant Written(c[..], d, 0, total)
    {
      DropZero(c[..], d, total);
      d := d - 1;
    }
    Up10Zero(d);
    if d == 0 {
      c[d] := '0';
      d := d + 1;
      assert c[..d] == [] + ['0'];
      DecSnoc([], '0');
    } else {
      assert c[..][..d] == c[..d];
    }
  }

  /** The decimal digits of a * 10^extra_zeroes, in low-to-high order. The contents of a are destroyed.
      The buffer is as large as the source makes it, so every digit is written within its bounds. */
  method ConvertToDecimal(a: Mpn, extra_zeroes: nat, granted: bool) returns (r: Result)
    requires a.InBounds()
    modifies a.limbs
    ensures r.OutOfMemory? <==> !granted
    ensures r.Text? ==> Represents(r.digits, old(a.Val()) * Pow(10, extra_zeroes))
  {
    if !granted {
      return OutOfMemory;
    }
    ghost var v := a.Val();
    var a_len := a.nlimbs;
    var c_len := 9 * ChunkBound(a_len);
    var c := new char[c_len + extra_zeroes];
    StoreZeroes(c, extra_zeroes, v);
    ValueBound(a.Digits());
    InitialRoom(v, a_len);
    ghost var total := v * Pow(10, extra_zeroes);
    var used := StoreChunks(a, c, extra_zeroes, total);
    var d := TrimZeroes(c, used, total);
    r := Text(c[..d]);
  }
}
