/** The parser of format strings. */
module PrintfParser {
  import opened Wrappers
  import opened PrintfSyntax
  import opened PrintfArgs
  import opened PrintfMeaning
  import opened Xsize
  import opened Allocator

  const SIZEOF_ARGUMENT: Size := 32
  const SIZEOF_DIRECTIVE: Size := 88

  /** Success, the error EINVAL, or the error ENOMEM. */
  datatype Outcome = Fine | Invalid | NoMemory

  /** The argument list; its array grows. */
  class Arguments {
    var count: nat
    var arg: array<ArgType>

    constructor ()
      ensures Valid() && Types() == [] && fresh(arg)
    {
      count := 0;
      arg := new ArgType[0];
    }

    ghost predicate Valid()
      reads this
    {
      count <= arg.Length <= SIZE_MAX
    }

    ghost function Types(): seq<ArgType>
      requires Valid()
      reads this, arg
    {
      arg[..count]
    }
  }

  /** The array for argument n would be too large. */
  ghost predicate Huge(n: nat) {
    2 * (n + 1) * SIZEOF_ARGUMENT >= SIZE_MAX
  }

  // ------------------------------------------------------------------------
  // REGISTER_ARG
  // ------------------------------------------------------------------------

  lemma GrownSize(length: Size, n: Size)
    requires length <= n < SIZE_MAX
    ensures var doubled := Xtimes(length, 2);
            var alloc := if doubled <= n then Xsum(n, 1) else doubled;
            && n < alloc
            && (Xtimes(alloc, SIZEOF_ARGUMENT) == SIZE_MAX ==> Huge(n))
  {
    XtimesSaturates(length, 2);
    XsumSaturates(n, 1);
    var doubled := Xtimes(length, 2);
    XtimesSaturates(if doubled <= n then Xsum(n, 1) else doubled, SIZEOF_ARGUMENT);
  }

  /** Makes the array large enough for argument n. */
  method Grow(a: Arguments, mem: Memory, n: Size) returns (ok: bool)
    requires a.Valid() && n < SIZE_MAX
    modifies a`arg, mem
    ensures a.Valid() && a.Types() == old(a.Types())
    ensures a.arg == old(a.arg) || fresh(a.arg)
    ensures ok ==> n < a.arg.Length
    ensures !ok ==> mem.Refused(old(mem.calls)) || Huge(n)
    ensures old(mem.calls) <= mem.calls
  {
    if n < a.arg.Length {
      return true;
    }
    GrownSize(a.arg.Length, n);
    var room := Xtimes(a.arg.Length, 2);
    if room <= n {
      room := Xsum(n, 1);
    }
    if Xtimes(room, SIZEOF_ARGUMENT) == SIZE_MAX {
      return false;
    }
    ok := mem.Allocate(Xtimes(room, SIZEOF_ARGUMENT));
    if ok {
      var memory := new ArgType[room](i requires 0 <= i < room reads a, a.arg => if i < a.arg.Length then a.arg[i]
          else NoType);
      a.arg := memory;
    }
  }

  /** Marks the arguments up to n as unused so far. */
  method Extend(a: Arguments, n: nat)
    requires a.Valid() && n < a.arg.Length
    modifies a`count, a.arg
    ensures a.Valid() && a.Types() == Padded(old(a.Types()), n)
  {
    ghost var ts := a.Types();
    while a.count <= n
      invariant |ts| <= a.count <= Max(|ts|, n + 1) && a.Valid()
      invariant a.arg[..a.count] == ts + Unused(a.count - |ts|)
      decreases n + 1 - a.count
    {
      a.arg[a.count] := NoType;
      a.count := a.count + 1;
    }
  }

  method RegisterArg(a: Arguments, mem: Memory, n: Size, t: ArgType) returns (out: Outcome)
    requires a.Valid() && n < SIZE_MAX
    modifies a, a.arg, mem
    ensures a.Valid() && (a.arg == old(a.arg) || fresh(a.arg)) && old(mem.calls) <= mem.calls
    ensures out.Fine? ==> Register(old(a.Types()), n, t) == Some(a.Types())
    ensures out.Invalid? ==> Register(old(a.Types()), n, t).None?
    ensures out.NoMemory? ==> mem.Refused(old(mem.calls)) || Huge(n)
  {
    var ok := Grow(a, mem, n);
    if !ok {
      return NoMemory;
    }
    Extend(a, n);
    ghost var r := a.Types();
    if a.arg[n] == NoType {
      a.arg[n] := t;
      assert a.Types() == r[n := t];
    } else if a.arg[n] != t {
      return Invalid;
    }
    out := Fine;
  }

  // ------------------------------------------------------------------------
  // Reading pieces of a directive
  // ------------------------------------------------------------------------

  /** The character at a position; NUL at the end. */
  function CharAt(format: string, cp: nat): char {
    if cp < |format| then format[cp] else '\0'
  }

  lemma PrefixAt(cls: Class, format: string, cp: nat)
    requires cp <= |format|
    ensures CharAt(format, cp) == Next(format[cp..])
    ensures In(cls, CharAt(format, cp)) ==>
              cp < |format| && Prefix(cls, format[cp..]) == [format[cp]] + Prefix(cls, format[cp + 1..])
    ensures !In(cls, CharAt(format, cp)) ==> Prefix(cls, format[cp..]) == ""
  {
    if cp < |format| {
      assert format[cp..][1..] == format[cp + 1..];
    }
  }

  /** Between cp and np there are characters of a class that are scanned as a run, and perhaps more of them. */
  ghost predicate Running(cls: Class, format: string, cp: nat, np: nat) {
    && cp <= np <= |format|
    && Prefix(cls, format[cp..]) == format[cp..np] + Prefix(cls, format[np..])
  }

  lemma RunStarts(cls: Class, format: string, cp: nat)
    requires cp <= |format|
    ensures Running(cls, format, cp, cp)
  {
  }

  lemma RunContinues(cls: Class, format: string, cp: nat, np: nat)
    requires Running(cls, format, cp, np) && In(cls, CharAt(format, np))
    ensures Running(cls, format, cp, np + 1) && format[cp..np + 1] == format[cp..np] + [CharAt(format, np)]
  {
    PrefixAt(cls, format, np);
  }

  lemma RunEnds(cls: Class, format: string, cp: nat, np: nat)
    requires Running(cls, format, cp, np) && !In(cls, CharAt(format, np))
    ensures Prefix(cls, format[cp..]) == format[cp..np] && format[cp..][np - cp..] == format[np..]
  {
    PrefixAt(cls, format, np);
  }

  method SkipDigits(format: string, cp: nat) returns (np: nat)
    requires cp <= |format|
    ensures cp <= np <= |format| && Prefix(ADigit, format[cp..]) == format[cp..np]
  {
    np := cp;
    RunStarts(ADigit, format, cp);
    while IsDigit(CharAt(format, np))
      invariant Running(ADigit, format, cp, np)
      decreases |format| - np
    {
      RunContinues(ADigit, format, cp, np);
      np := np + 1;
    }
    RunEnds(ADigit, format, cp, np);
  }

  /** The value of the digits from cp to np. */
  method ReadNumber(format: string, cp: nat, np: nat) returns (n: Size)
    requires cp <= np <= |format| && All(ADigit, format[cp..np])
    ensures n == Saturated(DecimalValue(format[cp..np]))
  {
    n := 0;
    var p := cp;
    while p < np
      invariant cp <= p <= np && n == Saturated(DecimalValue(format[cp..p]))
    {
      assert format[cp..np][p - cp] == format[p];
      assert format[cp..p + 1] == format[cp..p] + [format[p]];
      OneMoreDigit(format[cp..p], format[p]);
      AccumulateSaturates(DecimalValue(format[cp..p]), DigitValue(format[p]));
      n := Xsum(Xtimes(n, 10), DigitValue(format[p]));
      p := p + 1;
    }
  }

  /** The index that is written, if any. */
  function WrittenIndex(p: Position): Size
    requires GoodNumber(p)
  {
    if p.Explicit? then DecimalValue(p.digits) - 1 else ARG_NONE
  }

  /** At cp the number of the argument with this index is written: digits and a '$'. */
  ghost predicate NumberedAt(format: string, cp: nat, index: nat) {
    exists np :: cp <= np < |format| && All(ADigit, format[cp..np]) && format[np] == '$'
        && DecimalValue(format[cp..np]) == index + 1
  }

  /** Reads the number of an argument, if one is written. */
  method ReadPosition(format: string, cp: nat) returns (ok: bool, index: Size, cp': nat)
    requires cp <= |format|
    ensures var r := ScanPosition(format[cp..]);
            && ok == GoodNumber(r.value)
            && (ok ==> cp <= cp' <= |format| && format[cp'..] == r.rest && index == WrittenIndex(r.value))
    ensures ok && index != ARG_NONE ==> NumberedAt(format, cp, index)
  {
    ok, index, cp' := true, ARG_NONE, cp;
    var np := SkipDigits(format, cp);
    PrefixAt(ADigit, format, np);
    assert format[cp..][np - cp..] == format[np..];
    if np > cp && CharAt(format, np) == '$' {
      var n := ReadNumber(format, cp, np);
      if n == 0 || n == SIZE_MAX {
        ok := false;
      } else {
        index := n - 1;
        cp' := np + 1;
        assert NumberedAt(format, cp, index);
        assert format[cp..][np - cp + 1..] == format[np + 1..];
      }
    }
  }

  /** The array for some argument of the format string, or for its directives, would be too large: the string is
      very long, or a very large argument number is written in it. */
  ghost predicate Oversized(format: string) {
    || Huge(|format|)
    || 2 * |format| * SIZEOF_DIRECTIVE >= SIZE_MAX
    || exists cp, index :: NumberedAt(format, cp, index) && Huge(index)
  }

  lemma HugeMore(n: nat, m: nat)
    requires Huge(n) && n <= m
    ensures Huge(m)
  {
  }

  /** Takes the argument with a written index, or the next one. */
  method TakeArgument(a: Arguments, mem: Memory, index: Size, posn: Size, t: ArgType, ghost p: Position)
    returns (out: Outcome, n: Size, posn': Size)
    requires a.Valid() && GoodNumber(p) && index == WrittenIndex(p)
    modifies a, a.arg, mem
    ensures a.Valid() && (a.arg == old(a.arg) || fresh(a.arg)) && old(mem.calls) <= mem.calls
    ensures out.Fine? ==> Take(Request(p, t), Slots(posn, old(a.Types()))) == Some(Taken(n, Slots(posn', a.Types())))
    ensures out.Invalid? ==> Take(Request(p, t), Slots(posn, old(a.Types()))).None?
    ensures out.NoMemory? ==> mem.Refused(old(mem.calls)) || Huge(if index == ARG_NONE then posn else index)
    ensures posn' <= posn + 1
  {
    n, posn' := index, posn;
    if n == ARG_NONE {
      n := posn;
      if n == ARG_NONE {
        return Invalid, n, posn';
      }
      posn' := posn + 1;
    }
    out := RegisterArg(a, mem, n, t);
  }

  /** An int argument, behind a '*'. */
  method ReadStar(format: string, cp: nat, a: Arguments, mem: Memory, posn: Size)
    returns (out: Outcome, n: Size, posn': Size, cp': nat)
    requires cp <= |format| && posn < cp && a.Valid()
    modifies a, a.arg, mem
    ensures a.Valid() && (a.arg == old(a.arg) || fresh(a.arg)) && old(mem.calls) <= mem.calls
    ensures var r := ScanStar(format[cp..]);
            && (out.Fine? ==> TakeStar(r.value, Slots(posn, old(a.Types()))) == Some(Taken(n, Slots(posn', a.Types()))))
            && (out.Fine? ==> cp' <= |format| && format[cp'..] == r.rest && posn' <= cp <= cp')
            && (out.Invalid? ==> TakeStar(r.value, Slots(posn, old(a.Types()))).None?)
    ensures out.NoMemory? ==> mem.Refused(old(mem.calls)) || Oversized(format)
  {
    ghost var p := ScanPosition(format[cp..]).value;
    var ok, index;
    ok, index, cp' := ReadPosition(format, cp);
    if !ok {
      return Invalid, 0, 0, cp;
    }
    out, n, posn' := TakeArgument(a, mem, index, posn, Int, p);
    if out.NoMemory? && !mem.Refused(old(mem.calls)) {
      TooLarge(format, cp, index, posn);
    }
  }

  lemma TooLarge(format: string, cp: nat, index: Size, posn: Size)
    requires cp <= |format| && posn <= |format|
    requires Huge(if index == ARG_NONE then posn else index)
    requires index != ARG_NONE ==> NumberedAt(format, cp, index)
    ensures Oversized(format)
  {
    if index == ARG_NONE {
      HugeMore(posn, |format|);
    }
  }

  lemma WidthCases(format: string, cp: nat)
    requires cp <= |format|
    ensures var r, ds := ScanWidth(format[cp..]), Prefix(ADigit, format[cp..]);
            && (CharAt(format, cp) == '*' ==> cp < |format| && r == ScanStar(format[cp + 1..]))
            && (CharAt(format, cp) != '*' ==> r == Scanned(if ds == "" then None else Some(Number(ds)),
               format[cp + |ds|..]))
            && (IsDigit(CharAt(format, cp)) <==> ds != "")
  {
    PrefixAt(ADigit, format, cp);
    if CharAt(format, cp) == '*' {
      assert format[cp..][1..] == format[cp + 1..];
    } else {
      var n := |Prefix(ADigit, format[cp..])|;
      assert format[cp..][n..] == format[cp + n..];
    }
  }

  method ReadWidth(format: string, cp: nat, a: Arguments, mem: Memory, posn: Size)
    returns (out: Outcome, width: Span, n: Size, posn': Size, cp': nat)
    requires cp <= |format| && posn <= cp && a.Valid()
    modifies a, a.arg, mem
    ensures a.Valid() && (a.arg == old(a.arg) || fresh(a.arg)) && old(mem.calls) <= mem.calls
    ensures var r := ScanWidth(format[cp..]);
            && (out.Fine? ==> TakeStar(r.value, Slots(posn, old(a.Types()))) == Some(Taken(n, Slots(posn', a.Types()))))
            && (out.Fine? ==> cp' <= |format| && format[cp'..] == r.rest && posn' <= cp' && cp <= cp')
            && (out.Fine? ==> width == SpanOf(r.value, cp, 0))
            && (out.Invalid? ==> TakeStar(r.value, Slots(posn, old(a.Types()))).None?)
    ensures out.NoMemory? ==> mem.Refused(old(mem.calls)) || Oversized(format)
  {
    WidthCases(format, cp);
    if CharAt(format, cp) == '*' {
      width := Span(cp, cp + 1);
      out, n, posn', cp' := ReadStar(format, cp + 1, a, mem, posn);
    } else {
      out, width, n, posn', cp' := Fine, NoSpan, ARG_NONE, posn, cp;
      if IsDigit(CharAt(format, cp)) {
        cp' := SkipDigits(format, cp);
        width := Span(cp, cp');
      }
    }
  }

  method ReadPrecision(format: string, cp: nat, a: Arguments, mem: Memory, posn: Size)
    returns (out: Outcome, precision: Span, n: Size, posn': Size, cp': nat)
    requires cp <= |format| && posn <= cp && a.Valid()
    modifies a, a.arg, mem
    ensures a.Valid() && (a.arg == old(a.arg) || fresh(a.arg)) && old(mem.calls) <= mem.calls
    ensures var r := ScanPrecision(format[cp..]);
            && (out.Fine? ==> TakeStar(r.value, Slots(posn, old(a.Types()))) == Some(Taken(n, Slots(posn', a.Types()))))
            && (out.Fine? ==> cp' <= |format| && format[cp'..] == r.rest && posn' <= cp' && cp <= cp')
            && (out.Fine? ==> precision == SpanOf(r.value, cp, 1))
            && (out.Invalid? ==> TakeStar(r.value, Slots(posn, old(a.Types()))).None?)
    ensures out.NoMemory? ==> mem.Refused(old(mem.calls)) || Oversized(format)
  {
    PrefixAt(ADigit, format, cp);
    out, precision, n, posn', cp' := Fine, NoSpan, ARG_NONE, posn, cp;
    if CharAt(format, cp) == '.' {
      assert format[cp..][1..] == format[cp + 1..];
      PrefixAt(ADigit, format, cp + 1);
      if CharAt(format, cp + 1) == '*' {
        precision := Span(cp, cp + 2);
        assert format[cp..][2..] == format[cp + 2..];
        out, n, posn', cp' := ReadStar(format, cp + 2, a, mem, posn);
      } else {
        cp' := SkipDigits(format, cp + 1);
        precision := Span(cp, cp');
        assert format[cp..][1 + (cp' - cp - 1)..] == format[cp'..];
      }
    }
  }

  lemma FlagStep(format: string, cp: nat, cp': nat)
    requires Running(AFlag, format, cp, cp') && IsFlag(CharAt(format, cp'))
    ensures cp' < |format| && Running(AFlag, format, cp, cp' + 1)
    ensures FlagsOf(format[cp..cp' + 1]) == AddFlag(FlagsOf(format[cp..cp']), CharAt(format, cp'))
  {
    RunContinues(AFlag, format, cp, cp');
    FlagsSnoc(format[cp..cp'], CharAt(format, cp'));
    assert format[cp..cp' + 1] == format[cp..cp'] + [format[cp']];
  }

  method ReadFlags(format: string, cp: nat) returns (flags: Flags, cp': nat)
    requires cp <= |format|
    ensures cp <= cp' <= |format|
    ensures var t := Prefix(AFlag, format[cp..]); flags == FlagsOf(t) && format[cp..] == t + format[cp'..]
  {
    flags, cp' := FlagsOf(""), cp;
    RunStarts(AFlag, format, cp);
    while IsFlag(CharAt(format, cp'))
      invariant Running(AFlag, format, cp, cp') && flags == FlagsOf(format[cp..cp'])
      decreases |format| - cp'
    {
      FlagStep(format, cp, cp');
      flags := AddFlag(flags, CharAt(format, cp'));
      cp' := cp' + 1;
    }
    RunEnds(AFlag, format, cp, cp');
  }

  lemma {:induction false} SizesSnoc(plat: Platform, f: SizeFlags, t: string, c: char)
    decreases |t|
    ensures SizesFrom(plat, f, t + [c]) == AddSize(plat, SizesFrom(plat, f, t), c)
  {
    if t == "" {
      assert [c][1..] == "" && t + [c] == [c];
    } else {
      assert (t + [c])[1..] == t[1..] + [c];
      SizesSnoc(plat, AddSize(plat, f, t[0]), t[1..], c);
    }
  }

  method ReadSizes(plat: Platform, format: string, cp: nat) returns (f: SizeFlags, cp': nat)
    requires cp <= |format|
    ensures cp <= cp' <= |format|
    ensures var t := Prefix(ASize, format[cp..]);
            f == SizesFrom(plat, NO_FLAGS, t) && format[cp'..] == format[cp..][|t|..]
  {
    f, cp' := NO_FLAGS, cp;
    RunStarts(ASize, format, cp);
    while IsSize(CharAt(format, cp'))
      invariant Running(ASize, format, cp, cp') && f == SizesFrom(plat, NO_FLAGS, format[cp..cp'])
      decreases |format| - cp'
    {
      RunContinues(ASize, format, cp, cp');
      SizesSnoc(plat, NO_FLAGS, format[cp..cp'], CharAt(format, cp'));
      f := AddSize(plat, f, CharAt(format, cp'));
      cp' := cp' + 1;
    }
    RunEnds(ASize, format, cp, cp');
  }

  // ------------------------------------------------------------------------
  // A directive
  // ------------------------------------------------------------------------

  lemma WrongNumber(plat: Platform, t: string, len: nat, s: Slots)
    requires !GoodNumber(ScanPosition(t).value)
    ensures First(plat, t, len, s).None?
  {
  }

  lemma StageTexts(t: string, p: Scanned<Position>, flags: string, u: string, w: Scanned<Option<Amount>>,
                   q: Scanned<Option<Amount>>, spec: Spec, rest: string)
    requires Stages(t, p, flags, u, w, q) && ScanSpec(t) == Some(Scanned(spec, rest))
    ensures t == RenderSpec(spec, rest) && u == FromWidth(spec, rest) && w.rest == FromPrecision(spec, rest)
  {
    ScanSound(t);
    ScanStages(t, p, flags, u, w, q);
    WidthSound(u);
    PrecisionSound(w.rest);
    ConversionSound(p.value, flags, w.value, q.value, q.rest);
  }

  /** The argument of a conversion; none for %%. */
  method ReadArgument(plat: Platform, format: string, cp: nat, a: Arguments, mem: Memory, index: Size, posn: Size,
                      t: ArgType, ghost spec: Spec)
    returns (out: Outcome, n: Size, posn': Size)
    requires cp <= |format| && posn <= |format| && a.Valid()
    requires IsConversion(spec.conv) && GoodNumber(spec.pos) && index == WrittenIndex(spec.pos)
               && t == TypeOf(plat, spec)
    requires index != ARG_NONE ==> NumberedAt(format, cp, index)
    modifies a, a.arg, mem
    ensures a.Valid() && (a.arg == old(a.arg) || fresh(a.arg)) && old(mem.calls) <= mem.calls
    ensures out.Fine? ==> TakeArg(plat, spec, Slots(posn, old(a.Types()))) == Some(Taken(n, Slots(posn', a.Types())))
    ensures out.Invalid? ==> TakeArg(plat, spec, Slots(posn, old(a.Types()))).None?
    ensures out.NoMemory? ==> mem.Refused(old(mem.calls)) || Oversized(format)
    ensures posn' <= posn + 1
  {
    TypeProcessed(plat, spec);
    out, n, posn' := Fine, ARG_NONE, posn;
    if t != NoType {
      out, n, posn' := TakeArgument(a, mem, index, posn, t, spec.pos);
      if out.NoMemory? && !mem.Refused(old(mem.calls)) {
        TooLarge(format, cp, index, posn);
      }
    }
  }

  lemma Placing(plat: Platform, spec: Spec, s: Slots, w: Taken, q: Taken)
    requires TakeStar(spec.width, s) == Some(w) && TakeStar(spec.precision, w.slots) == Some(q)
    ensures var t := TakeArg(plat, spec, q.slots);
            Place(plat, spec, s) == if t.None? then None
                else Some(Placed(w.index, q.index, t.value.index, t.value.slots))
  {
  }

  /** What comes behind the precision. */
  lemma Converting(format: string, cp: nat, p5: nat, p: Position, flags: string, w: Option<Amount>, q: Option<Amount>,
                   t: string)
    requires cp <= p5 <= |format| && t == format[cp..]
    requires format[p5..] == t[|Prefix(ASize, t)|..]
    ensures var c, r := CharAt(format, p5), ScanConversion(p, flags, w, q, t);
            && (!IsConversion(c) ==> r.None?)
            && (IsConversion(c) ==>
                   p5 < |format| && r == Some(Scanned(Spec(p, flags, w, q, Prefix(ASize, t), c), format[p5 + 1..])))
  {
    PrefixAt(ASize, format, p5);
    if p5 < |format| {
      assert format[p5..][1..] == format[p5 + 1..];
    }
  }

  lemma LayoutFields(format: string, spec: Spec, cp: nat, p2: nat, p3: nat, p6: nat, pl: Placed)
    requires 0 < cp <= |format| && p2 <= |format| && p3 <= |format| && p6 <= |format|
    requires RenderSpec(spec, format[p6..]) == format[cp..]
    requires FromWidth(spec, format[p6..]) == format[p2..] && FromPrecision(spec, format[p6..]) == format[p3..]
    ensures Layout(spec, format[p6..], |format|, pl)
         == Directive(cp - 1, p6, FlagsOf(spec.flags), SpanOf(spec.width, p2, 0), pl.width,
             SpanOf(spec.precision, p3, 1), pl.precision, Stored(spec.conv), pl.arg)
  {
  }

  const BLANK := Directive(0, 0, FlagsOf(""), NoSpan, ARG_NONE, NoSpan, ARG_NONE, '\0', ARG_NONE)

  /** The number and the flags. */
  method ReadHead(format: string, cp: nat) returns (ok: bool, index: Size, flags: Flags, p2: nat)
    requires cp <= |format|
    ensures var p := ScanPosition(format[cp..]); var fl := Prefix(AFlag, p.rest);
            && ok == GoodNumber(p.value)
            && (ok ==> index == WrittenIndex(p.value) && flags == FlagsOf(fl))
            && (ok ==> cp <= p2 <= |format| && p.rest == fl + format[p2..])
    ensures ok && index != ARG_NONE ==> NumberedAt(format, cp, index)
  {
    var p1;
    ok, index, p1 := ReadPosition(format, cp);
    flags, p2 := FlagsOf(""), cp;
    if ok {
      flags, p2 := ReadFlags(format, p1);
    }
  }

  /** The width and the precision. */
  method ReadAmounts(format: string, cp: nat, a: Arguments, mem: Memory, posn: Size)
    returns (out: Outcome, width: Span, precision: Span, wn: Size, pn: Size, posn': Size, p3: nat, p4: nat,
             ghost s1: Slots)
    requires cp <= |format| && posn <= cp && a.Valid()
    modifies a, a.arg, mem
    ensures a.Valid() && (a.arg == old(a.arg) || fresh(a.arg)) && old(mem.calls) <= mem.calls
    ensures var w := ScanWidth(format[cp..]); var q := ScanPrecision(w.rest);
            && (!out.NoMemory? ==> TakesWidth(w.value, Slots(posn, old(a.Types())), out, wn, s1))
            && (out.Fine? ==> TakeStar(q.value, s1) == Some(Taken(pn, Slots(posn', a.Types()))))
            && (out.Invalid? && TakeStar(w.value, Slots(posn, old(a.Types()))).Some? ==> TakeStar(q.value, s1).None?)
            && (out.Fine? ==>
                   cp <= p3 <= p4 <= |format| && posn' <= p4 && w.rest == format[p3..] && q.rest == format[p4..])
            && (out.Fine? ==> width == SpanOf(w.value, cp, 0) && precision == SpanOf(q.value, p3, 1))
    ensures out.NoMemory? ==> mem.Refused(old(mem.calls)) || Oversized(format)
  {
    precision, pn, posn', p4 := NoSpan, 0, 0, cp;
    var posn1;
    out, width, wn, posn1, p3 := ReadWidth(format, cp, a, mem, posn);
    s1 := Slots(posn1, a.Types());
    if out.Fine? {
      out, precision, pn, posn', p4 := ReadPrecision(format, p3, a, mem, posn1);
    }
  }

  /** s1 are the slots behind the width, if that can be taken; otherwise parsing has failed. */
  ghost predicate TakesWidth(w: Option<Amount>, s: Slots, out: Outcome, wn: nat, s1: Slots) {
    if TakeStar(w, s).Some? then TakeStar(w, s) == Some(Taken(wn, s1)) else out.Invalid?
  }

  /** The sizes, the conversion character and the argument. */
  method ReadConversion(plat: Platform, format: string, cp: nat, p4: nat, a: Arguments, mem: Memory, index: Size,
                        posn: Size, ghost p: Position, ghost flags: string, ghost w: Option<Amount>,
                        ghost q: Option<Amount>)
    returns (out: Outcome, conv: char, arg: Size, posn': Size, cp': nat, ghost spec: Spec)
    requires cp <= p4 <= |format| && posn <= p4 && a.Valid()
    requires GoodNumber(p) && index == WrittenIndex(p)
    requires index != ARG_NONE ==> NumberedAt(format, cp, index)
    modifies a, a.arg, mem
    ensures a.Valid() && (a.arg == old(a.arg) || fresh(a.arg)) && old(mem.calls) <= mem.calls
    ensures var r := ScanConversion(p, flags, w, q, format[p4..]);
            && (out.Fine? ==>
                   p4 < cp' <= |format| && posn' <= cp' && r == Some(Scanned(spec, format[cp'..]))
                   && conv == Stored(spec.conv))
            && (out.Fine? ==>
                   TakeArg(plat, spec, Slots(posn, old(a.Types()))) == Some(Taken(arg, Slots(posn', a.Types()))))
            && (out.Invalid? && r.Some? ==> TakeArg(plat, r.value.value, Slots(posn, old(a.Types()))).None?)
    ensures out.NoMemory? ==> mem.Refused(old(mem.calls)) || Oversized(format)
  {
    var f, p5 := ReadSizes(plat, format, p4);
    var c := CharAt(format, p5);
    spec := Spec(p, flags, w, q, Prefix(ASize, format[p4..]), c);
    arg, posn', cp', conv := ARG_NONE, posn, p5, Stored(c);
    Converting(format, p4, p5, p, flags, w, q, format[p4..]);
    if !IsConversion(c) {
      out := Invalid;
    } else {
      cp' := p5 + 1;
      out, arg, posn' := ReadArgument(plat, format, cp, a, mem, index, posn, TypeFor(f, c), spec);
    }
  }

  lemma WrongArgument(plat: Platform, t: string, len: nat, s: Slots, s1: Slots, s2: Slots, wn: nat, pn: nat,
                      p: Scanned<Position>, flags: string, u: string, w: Scanned<Option<Amount>>,
                      q: Scanned<Option<Amount>>)
    requires Stages(t, p, flags, u, w, q)
    requires TakeStar(w.value, s) == Some(Taken(wn, s1)) && TakeStar(q.value, s1) == Some(Taken(pn, s2))
    requires var r := ScanConversion(p.value, flags, w.value, q.value, q.rest);
             r.Some? ==> TakeArg(plat, r.value.value, s2).None?
    ensures First(plat, t, len, s).None?
  {
    ScanStages(t, p, flags, u, w, q);
    if ScanSpec(t).Some? {
      Placing(plat, ScanSpec(t).value.value, s, Taken(wn, s1), Taken(pn, s2));
    }
  }

  /** The stages put together. */
  lemma RightDirective(plat: Platform, format: string, cp: nat, p2: nat, p3: nat, cp': nat, s: Slots, s1: Slots,
                       s2: Slots, s3: Slots, wn: nat, pn: nat, arg: nat, p: Scanned<Position>, flags: string,
                       w: Scanned<Option<Amount>>, q: Scanned<Option<Amount>>, spec: Spec)
    requires 0 < cp <= |format| && p2 <= |format| && p3 <= |format| && cp' <= |format|
    requires Stages(format[cp..], p, flags, format[p2..], w, q) && w.rest == format[p3..]
    requires TakeStar(w.value, s) == Some(Taken(wn, s1)) && TakeStar(q.value, s1) == Some(Taken(pn, s2))
    requires ScanConversion(p.value, flags, w.value, q.value, q.rest) == Some(Scanned(spec, format[cp'..]))
    requires TakeArg(plat, spec, s2) == Some(Taken(arg, s3))
    ensures First(plat, format[cp..], |format|, s)
              == Some(Step(Directive(cp - 1, cp', FlagsOf(flags), SpanOf(w.value, p2, 0), wn, SpanOf(q.value, p3, 1),
                  pn, Stored(spec.conv), arg), format[cp'..], s3))
  {
    ScanStages(format[cp..], p, flags, format[p2..], w, q);
    StageTexts(format[cp..], p, flags, format[p2..], w, q, spec, format[cp'..]);
    Placing(plat, spec, s, Taken(wn, s1), Taken(pn, s2));
    LayoutFields(format, spec, cp, p2, p3, cp', Placed(wn, pn, arg, s3));
  }

  /** Reads a directive behind its '%'. */
  method ReadDirective(plat: Platform, format: string, cp: nat, a: Arguments, mem: Memory, posn: Size, ghost s: Slots)
    returns (out: Outcome, d: Directive, posn': Size, cp': nat, ghost s': Slots)
    requires 0 < cp <= |format| && posn < cp && a.Valid() && s == Slots(posn, a.Types())
    modifies a, a.arg, mem
    ensures a.Valid() && (a.arg == old(a.arg) || fresh(a.arg)) && old(mem.calls) <= mem.calls
    ensures out.Fine? ==> cp < cp' <= |format| && posn' <= cp' && s' == Slots(posn', a.Types())
    ensures out.Fine? ==> First(plat, format[cp..], |format|, s) == Some(Step(d, format[cp'..], s'))
    ensures out.Invalid? ==> First(plat, format[cp..], |format|, s).None?
    ensures out.NoMemory? ==> mem.Refused(old(mem.calls)) || Oversized(format)
  {
    ghost var t := format[cp..];
    s' := s;
    d, posn', cp' := BLANK, posn, cp;
    ghost var p := ScanPosition(t);
    ghost var fl := Prefix(AFlag, p.rest);
    var ok, index, flags, p2 := ReadHead(format, cp);
    if !ok {
      WrongNumber(plat, t, |format|, s);
      return Invalid, d, posn', cp', s';
    }
    ghost var u := format[p2..];
    ghost var w := ScanWidth(u);
    ghost var q := ScanPrecision(w.rest);
    var width, precision, wn, pn, posn2, p3, p4;
    ghost var s1;
    out, width, precision, wn, pn, posn2, p3, p4, s1 := ReadAmounts(format, p2, a, mem, posn);
    if !out.Fine? {
      if out.Invalid? {
        WrongAmount(plat, t, |format|, s, s1, wn, p, fl, u, w, q);
      }
      return;
    }
    ghost var s2 := Slots(posn2, a.Types());
    var conv, arg;
    ghost var spec;
    out, conv, arg, posn', cp', spec := ReadConversion(plat, format, cp, p4, a, mem, index, posn2, p.value, fl, w.value,
        q.value);
    if out.Invalid? {
      WrongArgument(plat, t, |format|, s, s1, s2, wn, pn, p, fl, u, w, q);
    }
    if out.Fine? {
      s' := Slots(posn', a.Types());
      d := Directive(cp - 1, cp', flags, width, wn, precision, pn, conv, arg);
      RightDirective(plat, format, cp, p2, p3, cp', s, s1, s2, s', wn, pn, arg, p, fl, w, q, spec);
    }
  }

  // ------------------------------------------------------------------------
  // The whole format string
  // ------------------------------------------------------------------------

  /** The parsed directives; their array grows. */
  class Directives {
    var count: nat
    var dir: array<Directive>
    var max_width_length: nat
    var max_precision_length: nat

    constructor ()
      ensures Valid() && Contents() == [] && dir.Length == 1 && fresh(dir)
      ensures max_width_length == 0 && max_precision_length == 0
    {
      count, max_width_length, max_precision_length := 0, 0, 0;
      dir := new Directive[1](_ => BLANK);
    }

    /** There is always room for one more directive. */
    ghost predicate Valid()
      reads this
    {
      count < dir.Length <= SIZE_MAX && (dir.Length == 1 || dir.Length <= 2 * count)
    }

    ghost function Contents(): seq<Directive>
      requires Valid()
      reads this, dir
    {
      dir[..count]
    }

    /** Doubles the array. */
    method Double(mem: Memory) returns (ok: bool)
      requires 0 < count <= dir.Length <= SIZE_MAX
      modifies this`dir, mem
      ensures ok ==> fresh(dir) && dir.Length == 2 * old(dir.Length) <= SIZE_MAX && dir[..count] == old(dir[..count])
      ensures !ok ==> dir == old(dir) && (mem.Refused(old(mem.calls)) || 2 * dir.Length * SIZEOF_DIRECTIVE >= SIZE_MAX)
      ensures old(mem.calls) <= mem.calls
    {
      XtimesSaturates(dir.Length, 2);
      var room := Xtimes(dir.Length, 2);
      XtimesSaturates(room, SIZEOF_DIRECTIVE);
      if Xtimes(room, SIZEOF_DIRECTIVE) == SIZE_MAX {
        return false;
      }
      ok := mem.Allocate(Xtimes(room, SIZEOF_DIRECTIVE));
      if ok {
        var memory := new Directive[room](i requires 0 <= i < room reads this, dir => if i < dir.Length then dir[i]
            else BLANK);
        dir := memory;
      }
    }

    /** Stores a directive and makes room for the next one. */
    method Append(mem: Memory, d: Directive) returns (ok: bool)
      requires Valid()
      modifies this`count, this`dir, dir, mem
      ensures dir == old(dir) || fresh(dir)
      ensures ok ==> Valid() && Contents() == old(Contents()) + [d] && count == old(count) + 1
      ensures !ok ==> mem.Refused(old(mem.calls)) || 2 * (old(count) + 1) * SIZEOF_DIRECTIVE >= SIZE_MAX
      ensures old(mem.calls) <= mem.calls
    {
      dir[count] := d;
      count := count + 1;
      assert dir[..count] == old(dir[..count]) + [d];
      ok := true;
      if count >= dir.Length {
        ok := Double(mem);
      }
    }
  }

  lemma WrongAmount(plat: Platform, t: string, len: nat, s: Slots, s1: Slots, n: nat, p: Scanned<Position>,
                    flags: string, u: string, w: Scanned<Option<Amount>>, q: Scanned<Option<Amount>>)
    requires Stages(t, p, flags, u, w, q) && TakesWidth(w.value, s, Invalid, n, s1)
    requires TakeStar(w.value, s).Some? ==> TakeStar(q.value, s1).None?
    ensures First(plat, t, len, s).None?
  {
    ScanStages(t, p, flags, u, w, q);
  }

  lemma TextStep(plat: Platform, format: string, cp: nat, s: Slots)
    requires cp < |format| && format[cp] != '%'
    ensures Parse(plat, format[cp..], |format|, s) == Parse(plat, format[cp + 1..], |format|, s)
  {
    assert format[cp..][1..] == format[cp + 1..];
  }

  lemma PercentStep(plat: Platform, format: string, cp: nat, s: Slots)
    requires cp < |format| && format[cp] == '%'
    ensures Parse(plat, format[cp..], |format|, s) == match First(plat, format[cp + 1..], |format|, s)
              case None => None
              case Some(f) => Prepend([f.d], Parse(plat, f.rest, |format|, f.slots))
  {
    assert format[cp..][1..] == format[cp + 1..];
  }

  lemma PrependTwice(ds: seq<Directive>, d: Directive, o: Option<Parsed>)
    ensures Prepend(ds, Prepend([d], o)) == Prepend(ds + [d], o)
  {
    if o.Some? {
      assert ds + ([d] + o.value.dirs) == (ds + [d]) + o.value.dirs;
    }
  }

  lemma FailStep(plat: Platform, format: string, cp: nat, s: Slots)
    requires cp < |format| && format[cp] == '%' && First(plat, format[cp + 1..], |format|, s).None?
    ensures Parse(plat, format[cp..], |format|, s).None?
  {
    PercentStep(plat, format, cp, s);
  }

  lemma DirectiveStep(plat: Platform, format: string, cp: nat, s: Slots, ds: seq<Directive>, d: Directive, cp': nat,
                      s': Slots)
    requires cp < |format| && format[cp] == '%' && cp' <= |format|
    requires First(plat, format[cp + 1..], |format|, s) == Some(Step(d, format[cp'..], s'))
    ensures Prepend(ds, Parse(plat, format[cp..], |format|, s))
              == Prepend(ds + [d], Parse(plat, format[cp'..], |format|, s'))
  {
    PercentStep(plat, format, cp, s);
    PrependTwice(ds, d, Parse(plat, format[cp'..], |format|, s'));
  }

  lemma ParseStart(plat: Platform, format: string)
    ensures Parse(plat, format, |format|, START) == Prepend([], Parse(plat, format[0..], |format|, START))
  {
    assert format[0..] == format;
    var o := Parse(plat, format, |format|, START);
    if o.Some? {
      assert [] + o.value.dirs == o.value.dirs;
    }
  }

  lemma ParseEnd(plat: Platform, format: string, ds: seq<Directive>, s: Slots)
    ensures Prepend(ds, Parse(plat, format[|format|..], |format|, s)) == Some(Parsed(ds, s))
  {
    assert ds + [] == ds;
  }

  lemma LongestSnoc(ds: seq<Directive>, d: Directive)
    ensures LongestWidth(ds + [d]) == Max(LongestWidth(ds), SpanLength(d.width))
    ensures LongestPrecision(ds + [d]) == Max(LongestPrecision(ds), SpanLength(d.precision))
  {
    assert (ds + [d])[..|ds|] == ds;
  }

  /** The result of a successful parse of format. */
  ghost predicate Complete(plat: Platform, format: string, d: Directives, a: Arguments)
    reads d, d.dir, a, a.arg
  {
    && d.Valid() && a.Valid()
    && Parse(plat, format, |format|, START).Some?
    && var r := Parse(plat, format, |format|, START).value;
       && d.Contents() == r.dirs && a.Types() == r.slots.types
       && d.dir[d.count].dir_start == |format|
       && d.max_width_length == LongestWidth(r.dirs) && d.max_precision_length == LongestPrecision(r.dirs)
  }

  /** Stores a directive, with what its amounts need. */
  method Store(d: Directives, mem: Memory, dp: Directive) returns (ok: bool)
    requires d.Valid() && d.max_width_length == LongestWidth(d.Contents())
               && d.max_precision_length == LongestPrecision(d.Contents())
    modifies d, d.dir, mem
    ensures d.dir == old(d.dir) || fresh(d.dir)
    ensures ok ==> d.Valid() && d.Contents() == old(d.Contents()) + [dp] && d.count == old(d.count) + 1
    ensures ok ==>
            d.max_width_length == LongestWidth(d.Contents())
            && d.max_precision_length == LongestPrecision(d.Contents())
    ensures !ok ==> mem.Refused(old(mem.calls)) || 2 * (old(d.count) + 1) * SIZEOF_DIRECTIVE >= SIZE_MAX
    ensures old(mem.calls) <= mem.calls
  {
    LongestSnoc(d.Contents(), dp);
    d.max_width_length := Max(d.max_width_length, SpanLength(dp.width));
    d.max_precision_length := Max(d.max_precision_length, SpanLength(dp.precision));
    ok := d.Append(mem, dp);
  }

  /** Reads the next directive, and relates it to what remains to be parsed. */
  method ReadNext(plat: Platform, format: string, cp: nat, a: Arguments, mem: Memory, posn: Size,
                  ghost ds: seq<Directive>, ghost s: Slots)
    returns (out: Outcome, dp: Directive, posn': Size, cp': nat, ghost s': Slots)
    requires cp < |format| && format[cp] == '%' && posn <= cp && a.Valid() && s == Slots(posn, a.Types())
    modifies a, a.arg, mem
    ensures a.Valid() && (a.arg == old(a.arg) || fresh(a.arg)) && old(mem.calls) <= mem.calls
    ensures out.Fine? ==> cp < cp' <= |format| && posn' <= cp' && s' == Slots(posn', a.Types())
    ensures out.Fine? ==>
              Prepend(ds, Parse(plat, format[cp..], |format|, s))
              == Prepend(ds + [dp], Parse(plat, format[cp'..], |format|, s'))
    ensures out.Invalid? ==> Parse(plat, format[cp..], |format|, s).None?
    ensures out.NoMemory? ==> mem.Refused(old(mem.calls)) || Oversized(format)
  {
    out, dp, posn', cp', s' := ReadDirective(plat, format, cp + 1, a, mem, posn, s);
    if out.Invalid? {
      FailStep(plat, format, cp, s);
    }
    if out.Fine? {
      DirectiveStep(plat, format, cp, s, ds, dp, cp', s');
    }
  }

  /** Reads the directive at cp and stores it. */
  method ParseNext(plat: Platform, format: string, cp: nat, d: Directives, a: Arguments, mem: Memory, posn: Size,
                   ghost ds: seq<Directive>, ghost s: Slots)
    returns (out: Outcome, posn': Size, cp': nat, ghost s': Slots)
    requires cp < |format| && format[cp] == '%' && posn <= cp && a.Valid() && d.count <= cp
    requires d.Valid() && ds == d.Contents() && s == Slots(posn, a.Types())
    requires d.max_width_length == LongestWidth(d.Contents())
               && d.max_precision_length == LongestPrecision(d.Contents())
    modifies a, a.arg, mem, d, d.dir
    ensures a.Valid() && (a.arg == old(a.arg) || fresh(a.arg)) && (d.dir == old(d.dir) || fresh(d.dir))
              && old(mem.calls) <= mem.calls
    ensures out.Fine? ==>
            d.Valid() && s' == Slots(posn', a.Types()) && cp < cp' <= |format| && posn' <= cp'
            && d.count <= cp'
            && d.max_width_length == LongestWidth(d.Contents())
            && d.max_precision_length == LongestPrecision(d.Contents())
    ensures var o := Parse(plat, format[cp..], |format|, s);
            && (out.Fine? ==> Prepend(ds, o) == Prepend(d.Contents(),
               Parse(plat, format[cp'..], |format|, Slots(posn', a.Types()))))
            && (out.Invalid? ==> o.None?)
    ensures out.NoMemory? ==> mem.Refused(old(mem.calls)) || Oversized(format)
  {
    var dp;
    out, dp, posn', cp', s' := ReadNext(plat, format, cp, a, mem, posn, ds, s);
    if out.Fine? {
      var ok := Store(d, mem, dp);
      if !ok {
        out := NoMemory;
      }
    }
  }

  /** Parses a format string: Fine with the directives and the argument types of the format; Invalid if it has no
      meaning; NoMemory only if a request for memory is refused or overflows. */
  method PrintfParse(plat: Platform, format: string, mem: Memory) returns (out: Outcome, d: Directives, a: Arguments)
    requires '\0' !in format && |format| < SIZE_MAX
    modifies mem
    ensures old(mem.calls) <= mem.calls
    ensures out.Fine? ==> Complete(plat, format, d, a)
    ensures out.Invalid? ==> Parse(plat, format, |format|, START).None?
    ensures out.NoMemory? ==> mem.Refused(old(mem.calls)) || Oversized(format)
  {
    d := new Directives();
    a := new Arguments();
    var ok := mem.Allocate(SIZEOF_DIRECTIVE);
    if !ok {
      return NoMemory, d, a;
    }
    var cp: nat, posn: Size := 0, 0;
    ParseStart(plat, format);
    ghost var whole := Parse(plat, format, |format|, START);
    while CharAt(format, cp) != '\0'
      invariant cp <= |format| && posn <= cp && d.Valid() && a.Valid() && d.count <= cp
      invariant fresh(d.dir) && fresh(a.arg) && old(mem.calls) <= mem.calls
      invariant whole == Prepend(d.Contents(), Parse(plat, format[cp..], |format|, Slots(posn, a.Types())))
      invariant d.max_width_length == LongestWidth(d.Contents())
                  && d.max_precision_length == LongestPrecision(d.Contents())
      decreases |format| - cp
    {
      if format[cp] == '%' {
        var posn', cp';
        ghost var s';
        out, posn', cp', s' := ParseNext(plat, format, cp, d, a, mem, posn, d.Contents(), Slots(posn, a.Types()));
        if !out.Fine? {
          return;
        }
        posn, cp := posn', cp';
      } else {
        TextStep(plat, format, cp, Slots(posn, a.Types()));
        cp := cp + 1;
      }
    }
    ParseEnd(plat, format, d.Contents(), Slots(posn, a.Types()));
    d.dir[d.count] := BLANK.(dir_start := cp);
    out := Fine;
  }
}
