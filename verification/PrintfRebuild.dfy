/** Rebuilding a directive for the system's own formatting function. */
module PrintfRebuild {
  import opened Wrappers
  import opened PrintfSyntax
  import opened PrintfArgs
  import opened PrintfMeaning
  import opened Xsize
  import opened TextBuffer

  /** How a directive is rebuilt: pad and prec say that padding and precision are dealt with elsewhere, negative
      that the width argument is negative, percent_n that %n is appended. */
  datatype Options = Options(pad: bool, prec: bool, negative: bool, percent_n: bool)

  // ------------------------------------------------------------------------
  // The rebuilt text
  // ------------------------------------------------------------------------

  function With(text: string, present: bool, c: char): string {
    if present then text + [c] else text
  }

  /** text followed by the flags. */
  function MarkFlags(text: string, f: Flags, pad: bool): string {
    With(With(With(With(With(With(text, f.group, '\''), f.left, '-'), f.showsign, '+'), f.space, ' '), f.alt, '#'), !pad
        && f.zero, '0')
  }

  /** The flags in force: a negative width is a '-' flag and a positive width. */
  function InForce(f: Flags, o: Options): Flags {
    if o.negative then f.(left := true) else f
  }

  function SpanText(format: string, s: Span): string {
    if s.Span? && s.start <= s.end <= |format| then format[s.start..s.end] else ""
  }

  /** The size specifiers for an argument type. */
  function SizesOf(t: ArgType): string {
    match t
    case LongLongInt | ULongLongInt => "ll"
    case LongInt | ULongInt | WideChar | WideString => "l"
    case LongDouble => "L"
    case _ => ""
  }

  /** The text up to the precision. */
  function Amounts(format: string, d: Directive, o: Options): string {
    MarkFlags("%", InForce(d.flags, o), o.pad)
    + (if o.pad then "" else SpanText(format, d.width))
    + (if o.prec then "" else SpanText(format, d.precision))
  }

  function Rebuilt(format: string, d: Directive, t: ArgType, o: Options): string {
    Amounts(format, d, o) + SizesOf(t) + [d.conversion] + (if o.percent_n then "%n" else "")
  }

  // ------------------------------------------------------------------------
  // Writing it into the buffer
  // ------------------------------------------------------------------------

  method PutMark(buf: array<char>, fbp: nat, present: bool, c: char, ghost text: string) returns (fbp': nat)
    requires Holds(buf, fbp, text) && fbp < buf.Length
    modifies buf
    ensures Holds(buf, fbp', With(text, present, c)) && fbp' <= fbp + 1
  {
    fbp' := fbp;
    if present {
      buf[fbp] := c;
      fbp' := fbp + 1;
    }
  }

  method PutFlags(buf: array<char>, fbp: nat, f: Flags, pad: bool, ghost text: string) returns (fbp': nat)
    requires Holds(buf, fbp, text) && fbp + 6 <= buf.Length
    modifies buf
    ensures Holds(buf, fbp', MarkFlags(text, f, pad)) && fbp' <= fbp + 6
  {
    ghost var t1 := With(text, f.group, '\'');
    ghost var t2 := With(t1, f.left, '-');
    ghost var t3 := With(t2, f.showsign, '+');
    ghost var t4 := With(t3, f.space, ' ');
    fbp' := PutMark(buf, fbp, f.group, '\'', text);
    fbp' := PutMark(buf, fbp', f.left, '-', t1);
    fbp' := PutMark(buf, fbp', f.showsign, '+', t2);
    fbp' := PutMark(buf, fbp', f.space, ' ', t3);
    fbp' := PutMark(buf, fbp', f.alt, '#', t4);
    fbp' := PutMark(buf, fbp', !pad && f.zero, '0', With(t4, f.alt, '#'));
  }

  /** Copies the text of a span, unless it is dealt with elsewhere. */
  method PutSpan(buf: array<char>, fbp: nat, format: string, s: Span, skip: bool, ghost text: string)
    returns (fbp': nat)
    requires Holds(buf, fbp, text) && fbp + SpanLength(s) <= buf.Length
    modifies buf
    ensures Holds(buf, fbp', text + if skip then "" else SpanText(format, s)) && fbp' <= fbp + SpanLength(s)
  {
    fbp' := fbp;
    SpanTextLength(format, s);
    assert text + "" == text;
    if !skip && SpanLength(s) != 0 {
      fbp' := PutText(buf, fbp, SpanText(format, s), text);
    }
  }

  /** The room that the buffer is given. */
  function Room(maxwidth: nat, maxprecision: nat): nat {
    7 + maxwidth + maxprecision + 6
  }

  lemma SpanTextLength(format: string, s: Span)
    ensures |SpanText(format, s)| <= SpanLength(s)
  {
  }

  /** Writes the rebuilt directive and a NUL. The room of seven characters for the '%' and the flags, the longest
      width and precision, and six characters for the rest is enough. */
  method Rebuild(format: string, d: Directive, t: ArgType, o: Options, buf: array<char>) returns (fbp: nat)
    requires buf.Length >= Room(SpanLength(d.width), SpanLength(d.precision))
    modifies buf
    ensures Holds(buf, fbp, Rebuilt(format, d, t, o)) && fbp < buf.Length && buf[fbp] == '\0'
  {
    fbp := PutText(buf, 0, "%", "");
    assert "" + "%" == "%";
    ghost var t1 := MarkFlags("%", InForce(d.flags, o), o.pad);
    fbp := PutFlags(buf, fbp, InForce(d.flags, o), o.pad, "%");
    fbp := PutSpan(buf, fbp, format, d.width, o.pad, t1);
    fbp := PutSpan(buf, fbp, format, d.precision, o.prec, t1 + if o.pad then "" else SpanText(format, d.width));
    fbp := PutEnd(buf, fbp, d.conversion, t, o.percent_n, Amounts(format, d, o));
  }

  /** Size specifiers, conversion character, perhaps %n, and NUL: at most six characters. */
  method PutEnd(buf: array<char>, fbp: nat, conversion: char, t: ArgType, percent_n: bool, ghost text: string)
    returns (fbp': nat)
    requires Holds(buf, fbp, text) && fbp + 6 <= buf.Length
    modifies buf
    ensures Holds(buf, fbp', text + SizesOf(t) + [conversion] + if percent_n then "%n" else "")
    ensures fbp' < fbp + 6 && buf[fbp'] == '\0'
  {
    fbp' := PutText(buf, fbp, SizesOf(t), text);
    ghost var t1 := text + SizesOf(t);
    fbp' := PutText(buf, fbp', [conversion], t1);
    if percent_n {
      fbp' := PutText(buf, fbp', "%n", t1 + [conversion]);
    } else {
      assert t1 + [conversion] + "" == t1 + [conversion];
    }
    buf[fbp'] := '\0';
  }

  /** The room is exact: a directive with all flags for a long long argument, with %n appended, fills it. */
  lemma RoomIsExact(format: string, d: Directive)
    requires d.flags == Flags(true, true, true, true, true, true)
    requires d.width.Span? ==> d.width.start <= d.width.end <= |format|
    requires d.precision.Span? ==> d.precision.start <= d.precision.end <= |format|
    ensures var o := Options(false, false, false, true);
            |Rebuilt(format, d, LongLongInt, o)| + 1 == Room(SpanLength(d.width), SpanLength(d.precision))
  {
    var o := Options(false, false, false, true);
    assert |MarkFlags("%", InForce(d.flags, o), false)| == 7;
    assert |Amounts(format, d, o)| == 7 + SpanLength(d.width) + SpanLength(d.precision);
  }

  lemma {:induction false} AtMostLongest(ds: seq<Directive>, i: nat)
    requires i < |ds|
    ensures SpanLength(ds[i].width) <= LongestWidth(ds) && SpanLength(ds[i].precision) <= LongestPrecision(ds)
  {
    if i < |ds| - 1 {
      AtMostLongest(ds[..|ds| - 1], i);
    }
  }

  /** The room for the longest amounts of all directives is enough for each, unless its size has overflowed. */
  lemma RoomForAll(ds: seq<Directive>, i: nat)
    requires i < |ds| && LongestWidth(ds) <= SIZE_MAX && LongestPrecision(ds) <= SIZE_MAX
    ensures var needed := Xsum4(7, LongestWidth(ds), LongestPrecision(ds), 6);
            needed == SIZE_MAX || needed >= Room(SpanLength(ds[i].width), SpanLength(ds[i].precision))
  {
    AtMostLongest(ds, i);
    Xsum4Saturates(7, LongestWidth(ds), LongestPrecision(ds), 6);
  }

  // ------------------------------------------------------------------------
  // The rebuilt directive means the same
  // ------------------------------------------------------------------------

  /** The default argument promotions of integer types. */
  function Promoted(t: ArgType): ArgType {
    match t
    case SChar | Short => Int
    case UChar | UShort => UInt
    case _ => t
  }

  function Unnumbered(a: Option<Amount>): Option<Amount> {
    match a
    case Some(Star(_)) => Some(Star(Implicit))
    case _ => a
  }

  /** The directive that is rebuilt. */
  function Simplified(spec: Spec, t: ArgType, o: Options): Spec {
    Spec(Implicit, MarkFlags("", InForce(FlagsOf(spec.flags), o), o.pad),
         if o.pad then None else Unnumbered(spec.width), if o.prec then None else Unnumbered(spec.precision),
         SizesOf(t), Stored(spec.conv))
  }

  lemma FlagWith(text: string, present: bool, c: char)
    requires IsFlag(c) && All(AFlag, text)
    ensures All(AFlag, With(text, present, c))
    ensures FlagsOf(With(text, present, c)) == if present then AddFlag(FlagsOf(text), c) else FlagsOf(text)
  {
    FlagsSnoc(text, c);
  }

  lemma MarkedFlags(f: Flags, pad: bool)
    ensures All(AFlag, MarkFlags("", f, pad))
    ensures FlagsOf(MarkFlags("", f, pad)) == if pad then f.(zero := false) else f
  {
    var t1 := With("", f.group, '\'');
    var t2 := With(t1, f.left, '-');
    var t3 := With(t2, f.showsign, '+');
    var t4 := With(t3, f.space, ' ');
    FlagWith("", f.group, '\'');
    FlagWith(t1, f.left, '-');
    FlagWith(t2, f.showsign, '+');
    FlagWith(t3, f.space, ' ');
    FlagWith(t4, f.alt, '#');
    FlagWith(With(t4, f.alt, '#'), !pad && f.zero, '0');
  }

  lemma WithPrefix(a: string, text: string, present: bool, c: char)
    ensures With(a + text, present, c) == a + With(text, present, c)
  {
  }

  lemma MarkPrefix(a: string, f: Flags, pad: bool)
    ensures MarkFlags(a, f, pad) == a + MarkFlags("", f, pad)
  {
    var t1 := With("", f.group, '\'');
    var t2 := With(t1, f.left, '-');
    var t3 := With(t2, f.showsign, '+');
    var t4 := With(t3, f.space, ' ');
    assert a + "" == a;
    WithPrefix(a, "", f.group, '\'');
    WithPrefix(a, t1, f.left, '-');
    WithPrefix(a, t2, f.showsign, '+');
    WithPrefix(a, t3, f.space, ' ');
    WithPrefix(a, t4, f.alt, '#');
    WithPrefix(a, With(t4, f.alt, '#'), !pad && f.zero, '0');
  }

  lemma SizesAreSizes(t: ArgType)
    ensures All(ASize, SizesOf(t))
  {
  }

  lemma SimplifiedGood(spec: Spec, t: ArgType, o: Options)
    requires GoodSpec(spec)
    ensures GoodSpec(Simplified(spec, t, o))
  {
    MarkedFlags(InForce(FlagsOf(spec.flags), o), o.pad);
    SizesAreSizes(t);
    AmountsGood(spec.width, spec.precision);
  }

  lemma AmountsGood(w: Option<Amount>, p: Option<Amount>)
    ensures GoodWidth(w) ==> GoodWidth(Unnumbered(w))
    ensures GoodPrecision(p) ==> GoodPrecision(Unnumbered(p))
  {
  }

  /** The text of an amount in front of rest. */
  lemma WidthRenders(format: string, s: Span, a: Option<Amount>, rest: string)
    requires TextAt(format, s) == AmountText(a, "")
    ensures RenderWidth(Unnumbered(a), rest) == SpanText(format, s) + rest
  {
    if a.Some? {
      assert "" + (if a.value.Star? then "*" else a.value.digits) == if a.value.Star? then "*" else a.value.digits;
    } else {
      assert "" + rest == rest;
    }
  }

  lemma PrecisionRenders(format: string, s: Span, a: Option<Amount>, rest: string)
    requires TextAt(format, s) == AmountText(a, ".")
    ensures RenderPrecision(Unnumbered(a), rest) == SpanText(format, s) + rest
  {
    if a.Some? {
      Associate(".", if a.value.Star? then "*" else a.value.digits, rest);
    } else {
      assert "" + rest == rest;
    }
  }

  lemma Chain(a: string, b: string, c: string, d: string, e: string, f: string, g: string)
    ensures (a + b) + c + d + e + f + g == a + (b + (c + (d + (e + (f + g)))))
  {
    Associate(e, f, g);
    Associate(d, e, f + g);
    Associate(c, d, e + (f + g));
    Associate(b, c, d + (e + (f + g)));
    Associate(a, b, c + (d + (e + (f + g))));
    Associate(a + b, c, d + (e + (f + g)));
    Associate((a + b) + c, d, e + (f + g));
    Associate((a + b) + c + d, e, f + g);
    Associate((a + b) + c + d + e, f, g);
  }

  /** The rebuilt text is the rendering of the simplified directive. */
  lemma RebuiltRenders(format: string, d: Directive, spec: Spec, t: ArgType, o: Options)
    requires Describes(format, d, spec)
    ensures Rebuilt(format, d, t, o) == "%" + RenderSpec(Simplified(spec, t, o), if o.percent_n then "%n" else "")
  {
    var flags, tail := InForce(d.flags, o), if o.percent_n then "%n" else "";
    var w, p := if o.pad then "" else SpanText(format, d.width), if o.prec then "" else SpanText(format, d.precision);
    var t4 := SizesOf(t) + ([d.conversion] + tail);
    MarkPrefix("%", flags, o.pad);
    Chain("%", MarkFlags("", flags, o.pad), w, p, SizesOf(t), [d.conversion], tail);
    PrecisionRenders(format, d.precision, spec.precision, t4);
    WidthRenders(format, d.width, spec.width, p + t4);
    assert "" + t4 == t4 && "" + (p + t4) == p + t4;
  }

  /** What the size specifiers of a rebuilt directive accumulate to. */
  function FlagsFor(t: ArgType): SizeFlags {
    match t
    case LongLongInt | ULongLongInt => NO_FLAGS.(eights := 2)
    case LongInt | ULongInt | WideChar | WideString => NO_FLAGS.(eights := 1)
    case LongDouble => NO_FLAGS.(bit2 := true)
    case _ => NO_FLAGS
  }

  lemma SizesAccumulate(plat: Platform, t: ArgType)
    ensures SizesFrom(plat, NO_FLAGS, SizesOf(t)) == FlagsFor(t)
  {
    assert "l"[1..] == "" && "L"[1..] == "" && "ll"[1..] == "l";
    assert SizesFrom(plat, NO_FLAGS.(eights := 1), "l") == SizesFrom(plat, NO_FLAGS.(eights := 2), "");
  }

  lemma SignedAgain(f: SizeFlags)
    ensures var t := BySize(f, LongLongInt, LongInt, Int, Short, SChar);
            BySize(FlagsFor(t), LongLongInt, LongInt, Int, Short, SChar) == Promoted(t)
  {
  }

  lemma UnsignedAgain(f: SizeFlags)
    ensures var t := BySize(f, ULongLongInt, ULongInt, UInt, UShort, UChar);
            BySize(FlagsFor(t), ULongLongInt, ULongInt, UInt, UShort, UChar) == Promoted(t)
  {
  }

  lemma TypeAgain(f: SizeFlags, conv: char)
    requires IsConversion(conv) && conv != '%' && conv != 'n'
    ensures TypeFor(FlagsFor(TypeFor(f, conv)), Stored(conv)) == Promoted(TypeFor(f, conv))
  {
    SignedAgain(f);
    UnsignedAgain(f);
    if conv in {'d', 'i'} {
      assert TypeFor(f, conv) == BySize(f, LongLongInt, LongInt, Int, Short, SChar);
    } else if conv in {'o', 'u', 'x', 'X'} {
      assert TypeFor(f, conv) == BySize(f, ULongLongInt, ULongInt, UInt, UShort, UChar);
    } else {
      OtherAgain(f, conv);
    }
  }

  lemma OtherAgain(f: SizeFlags, conv: char)
    requires IsConversion(conv) && conv !in {'d', 'i', 'o', 'u', 'x', 'X', 'n', '%'}
    ensures TypeFor(FlagsFor(TypeFor(f, conv)), Stored(conv)) == Promoted(TypeFor(f, conv))
  {
  }

  lemma SameType(plat: Platform, spec: Spec)
    requires IsConversion(spec.conv) && spec.conv != '%' && spec.conv != 'n'
    ensures var t := TypeOf(plat, spec);
            TypeFor(SizesFrom(plat, NO_FLAGS, SizesOf(t)), Stored(spec.conv)) == Promoted(t)
  {
    var f := SizesFrom(plat, NO_FLAGS, spec.sizes);
    TypeAgain(f, spec.conv);
    SizesAccumulate(plat, TypeFor(f, spec.conv));
  }

  /** Scanning the rebuilt directive again gives a directive with the same flags, the same amounts apart from the
      numbers of arguments, and an argument of the same type after promotion. */
  lemma RebuiltMeansTheSame(plat: Platform, format: string, d: Directive, spec: Spec, o: Options)
    requires GoodSpec(spec) && Describes(format, d, spec) && spec.conv != '%' && spec.conv != 'n'
    ensures var t, tail := TypeOf(plat, spec), if o.percent_n then "%n" else "";
            var text := Rebuilt(format, d, t, o);
            var again := Simplified(spec, t, o);
            && text != "" && text[0] == '%' && ScanSpec(text[1..]) == Some(Scanned(again, tail))
            && FlagsOf(again.flags) == (if o.pad then InForce(d.flags, o).(zero := false) else InForce(d.flags, o))
            && TypeOf(plat, again) == Promoted(t)
  {
    var t, tail := TypeOf(plat, spec), if o.percent_n then "%n" else "";
    var again := Simplified(spec, t, o);
    RebuiltRenders(format, d, spec, t, o);
    SimplifiedGood(spec, t, o);
    ScanComplete(again, tail);
    assert ("%" + RenderSpec(again, tail))[1..] == RenderSpec(again, tail);
    MarkedFlags(InForce(d.flags, o), o.pad);
    SameType(plat, spec);
  }
}
