/** What parsing a whole format string yields, and exactly which format strings can be parsed. */
module PrintfMeaning {
  import opened Wrappers
  import opened PrintfSyntax
  import opened PrintfArgs
  import opened Xsize

  // ------------------------------------------------------------------------
  // Parsed directives
  // ------------------------------------------------------------------------

  /** A piece of the format string; NoSpan stands for two null pointers. */
  datatype Span = NoSpan | Span(start: nat, end: nat)

  datatype Flags = Flags(group: bool, left: bool, showsign: bool, space: bool, alt: bool, zero: bool)

  datatype Directive = Directive(dir_start: nat, dir_end: nat, flags: Flags, width: Span, width_arg_index: nat,
                                 precision: Span, precision_arg_index: nat, conversion: char, arg_index: nat)

  function FlagsOf(t: string): Flags {
    Flags('\'' in t, '-' in t, '+' in t, ' ' in t, '#' in t, '0' in t)
  }

  function AddFlag(flags: Flags, c: char): Flags {
    match c
    case '\'' => flags.(group := true)
    case '-' => flags.(left := true)
    case '+' => flags.(showsign := true)
    case ' ' => flags.(space := true)
    case '#' => flags.(alt := true)
    case _ => flags.(zero := true)
  }

  lemma FlagsSnoc(t: string, c: char)
    requires IsFlag(c)
    ensures FlagsOf(t + [c]) == AddFlag(FlagsOf(t), c)
  {
  }

  /** The longest width text and the longest precision text of directives. */
  function LongestWidth(ds: seq<Directive>): nat {
    if ds == [] then 0 else Max(LongestWidth(ds[..|ds| - 1]), SpanLength(ds[|ds| - 1].width))
  }

  function LongestPrecision(ds: seq<Directive>): nat {
    if ds == [] then 0 else Max(LongestPrecision(ds[..|ds| - 1]), SpanLength(ds[|ds| - 1].precision))
  }

  /** Where an amount lies whose text starts at start, behind the given number of leading characters. */
  function SpanOf(a: Option<Amount>, start: nat, leading: nat): Span {
    match a
    case None => NoSpan
    case Some(Star(_)) => Span(start, start + leading + 1)
    case Some(Number(ds)) => Span(start, start + leading + |ds|)
  }

  function SpanLength(s: Span): nat {
    if s.NoSpan? || s.end < s.start then 0 else s.end - s.start
  }

  /** The position in a string of length len where n characters are left. */
  function Back(len: nat, n: nat): nat {
    if n <= len then len - n else 0
  }

  /** The text of spec from its width, and from its precision. */
  function FromWidth(spec: Spec, rest: string): string {
    RenderWidth(spec.width, FromPrecision(spec, rest))
  }

  function FromPrecision(spec: Spec, rest: string): string {
    RenderPrecision(spec.precision, RenderSizes(spec, rest))
  }

  /** The directive for spec, which is followed by rest, in a format string of length len. */
  function Layout(spec: Spec, rest: string, len: nat, pl: Placed): Directive {
    Directive(Back(len, |RenderSpec(spec, rest)| + 1), Back(len, |rest|), FlagsOf(spec.flags),
              SpanOf(spec.width, Back(len, |FromWidth(spec, rest)|), 0), pl.width,
              SpanOf(spec.precision, Back(len, |FromPrecision(spec, rest)|), 1), pl.precision, Stored(spec.conv),
                  pl.arg)
  }

  /** The directives in order, and the arguments. */
  datatype Parsed = Parsed(dirs: seq<Directive>, slots: Slots)

  function Prepend(ds: seq<Directive>, o: Option<Parsed>): Option<Parsed> {
    if o.None? then None else Some(Parsed(ds + o.value.dirs, o.value.slots))
  }

  /** A directive, the text behind it, and the slots after it. */
  datatype Step = Step(d: Directive, rest: string, slots: Slots)

  /** The directive whose '%' is followed by t, in a format string of length len. */
  function First(plat: Platform, t: string, len: nat, s: Slots): (r: Option<Step>)
    ensures r.Some? ==> |r.value.rest| < |t|
  {
    match ScanSpec(t)
    case None => None
    case Some(c) =>
      match Place(plat, c.value, s)
      case None => None
      case Some(pl) => Some(Step(Layout(c.value, c.rest, len, pl), c.rest, pl.slots))
  }

  /** Parses the rest t of a format string of length len. */
  function Parse(plat: Platform, t: string, len: nat, s: Slots): Option<Parsed>
    decreases |t|
  {
    if t == "" then Some(Parsed([], s))
    else if t[0] != '%' then Parse(plat, t[1..], len, s)
    else match First(plat, t[1..], len, s)
      case None => None
      case Some(f) => Prepend([f.d], Parse(plat, f.rest, len, f.slots))
  }

  /** The same for a format that has already been scanned. */
  function Laid(plat: Platform, f: Format, len: nat, s: Slots): Option<Parsed> {
    if f.End? then Some(Parsed([], s))
    else match Place(plat, f.spec, s)
      case None => None
      case Some(pl) => Prepend([Layout(f.spec, Render(f.more), len, pl)], Laid(plat, f.more, len, pl.slots))
  }

  const START := Slots(0, [])

  // ------------------------------------------------------------------------
  // Which format strings can be parsed
  // ------------------------------------------------------------------------

  ghost predicate GoodNumbers(f: Format) {
    f.Then? ==> GoodNumber(f.spec.pos) && GoodNumbers(f.more)
  }

  lemma {:induction false} ParseText(plat: Platform, text: string, t: string, len: nat, s: Slots)
    requires GoodText(text)
    ensures Parse(plat, text + t, len, s) == Parse(plat, t, len, s)
  {
    if text == "" {
      assert text + t == t;
    } else {
      assert (text + t)[1..] == text[1..] + t;
      ParseText(plat, text[1..], t, len, s);
    }
  }

  lemma ParseStep(plat: Platform, spec: Spec, rest: string, len: nat, s: Slots)
    requires GoodSpec(spec)
    ensures Parse(plat, "%" + RenderSpec(spec, rest), len, s) == match Place(plat, spec, s)
              case None => None
              case Some(pl) => Prepend([Layout(spec, rest, len, pl)], Parse(plat, rest, len, pl.slots))
  {
    ScanComplete(spec, rest);
    assert ("%" + RenderSpec(spec, rest))[1..] == RenderSpec(spec, rest);
  }

  /** Scanning and laying out as one: the rendering of a format is parsed as that format. */
  lemma {:induction false} ParseRendered(plat: Platform, f: Format, len: nat, s: Slots)
    requires GoodFormat(f)
    ensures Parse(plat, Render(f), len, s) == Laid(plat, f, len, s)
  {
    match f
    case End(text) =>
      ParseText(plat, text, "", len, s);
      assert text + "" == text;
    case Then(text, spec, more) =>
      ParseText(plat, text, "%" + RenderSpec(spec, Render(more)), len, s);
      ParseStep(plat, spec, Render(more), len, s);
      if Place(plat, spec, s).Some? {
        ParseRendered(plat, more, len, Place(plat, spec, s).value.slots);
      }
  }

  predicate IsStar(a: Option<Amount>) {
    a.Some? && a.value.Star?
  }

  /** d is the directive that spec describes. */
  ghost predicate Describes(format: string, d: Directive, spec: Spec) {
    && (d.width_arg_index != ARG_NONE <==> IsStar(spec.width))
       && (d.precision_arg_index != ARG_NONE <==> IsStar(spec.precision))
    && d.flags == FlagsOf(spec.flags) && d.conversion == Stored(spec.conv)
    && TextAt(format, d.width) == AmountText(spec.width, "")
       && TextAt(format, d.precision) == AmountText(spec.precision, ".")
  }

  datatype SpanText = Absent | Present(text: string) | Outside

  /** What a span holds. */
  function TextAt(format: string, span: Span): SpanText {
    if span.NoSpan? then Absent
    else if span.start <= span.end <= |format| then Present(format[span.start..span.end])
    else Outside
  }

  /** What the span of an amount has to hold, with the given lead. */
  function AmountText(a: Option<Amount>, lead: string): SpanText {
    match a
    case None => Absent
    case Some(Star(_)) => Present(lead + "*")
    case Some(Number(ds)) => Present(lead + ds)
  }

  ghost predicate AllDescribed(format: string, ds: seq<Directive>, f: Format) {
    if f.End? then ds == []
    else ds != [] && Describes(format, ds[0], f.spec) && AllDescribed(format, ds[1..], f.more)
  }

  /** t is what is left of format. */
  ghost predicate Suffix(t: string, format: string) {
    |t| <= |format| && t == format[|format| - |t|..]
  }

  lemma SuffixDrop(t: string, format: string, k: nat)
    requires Suffix(t, format) && k <= |t|
    ensures Suffix(t[k..], format)
  {
  }

  lemma SuffixSlice(t: string, format: string, k: nat)
    requires Suffix(t, format) && k <= |t|
    ensures format[|format| - |t|..|format| - |t| + k] == t[..k]
  {
  }

  lemma AmountAt(format: string, a: Option<Amount>, rest: string)
    requires Suffix(RenderWidth(a, rest), format)
    ensures TextAt(format, SpanOf(a, |format| - |RenderWidth(a, rest)|, 0)) == AmountText(a, "")
  {
    if a.Some? {
      var text := if a.value.Star? then "*" else a.value.digits;
      SuffixSlice(RenderWidth(a, rest), format, |text|);
      assert RenderWidth(a, rest)[..|text|] == text == "" + text;
    }
  }

  lemma PrecisionAt(format: string, a: Option<Amount>, rest: string)
    requires Suffix(RenderPrecision(a, rest), format)
    ensures TextAt(format, SpanOf(a, |format| - |RenderPrecision(a, rest)|, 1)) == AmountText(a, ".")
  {
    if a.Some? {
      var text := "." + if a.value.Star? then "*" else a.value.digits;
      SuffixSlice(RenderPrecision(a, rest), format, |text|);
      assert RenderPrecision(a, rest)[..|text|] == text;
    }
  }

  lemma SuffixAppended(pre: string, t: string, format: string)
    requires Suffix(pre + t, format)
    ensures Suffix(t, format)
  {
    assert (pre + t)[|pre|..] == t;
    SuffixDrop(pre + t, format, |pre|);
  }

  lemma SuffixPosition(p: Position, rest: string, format: string)
    requires Suffix(RenderPosition(p, rest), format)
    ensures Suffix(rest, format)
  {
    if p.Explicit? {
      SuffixAppended(p.digits, "$" + rest, format);
      SuffixAppended("$", rest, format);
    }
  }

  lemma SuffixAmount(a: Amount, rest: string, format: string)
    requires Suffix(RenderAmount(a, rest), format)
    ensures Suffix(rest, format)
  {
    match a
    case Star(p) =>
      SuffixAppended("*", RenderPosition(p, rest), format);
      SuffixPosition(p, rest, format);
    case Number(ds) => SuffixAppended(ds, rest, format);
  }

  lemma SuffixParts(spec: Spec, rest: string, format: string)
    requires Suffix(RenderSpec(spec, rest), format)
    ensures Suffix(FromWidth(spec, rest), format) && Suffix(FromPrecision(spec, rest), format) && Suffix(rest, format)
  {
    SuffixPosition(spec.pos, spec.flags + FromWidth(spec, rest), format);
    SuffixAppended(spec.flags, FromWidth(spec, rest), format);
    if spec.width.Some? {
      SuffixAmount(spec.width.value, FromPrecision(spec, rest), format);
    }
    if spec.precision.Some? {
      SuffixAppended(".", RenderAmount(spec.precision.value, RenderSizes(spec, rest)), format);
      SuffixAmount(spec.precision.value, RenderSizes(spec, rest), format);
    }
    SuffixAppended(spec.sizes, [spec.conv] + rest, format);
    SuffixAppended([spec.conv], rest, format);
  }

  lemma PlacedStars(plat: Platform, spec: Spec, s: Slots)
    requires Place(plat, spec, s).Some?
    ensures var pl := Place(plat, spec, s).value;
            (pl.width != ARG_NONE <==> IsStar(spec.width)) && (pl.precision != ARG_NONE <==> IsStar(spec.precision))
  {
  }

  lemma LayoutDescribes(format: string, spec: Spec, rest: string, pl: Placed)
    requires (pl.width != ARG_NONE <==> IsStar(spec.width)) && (pl.precision != ARG_NONE <==> IsStar(spec.precision))
    requires Suffix(RenderSpec(spec, rest), format)
    ensures Describes(format, Layout(spec, rest, |format|, pl), spec)
  {
    SuffixParts(spec, rest, format);
    RestShorter(spec, rest);
    AmountAt(format, spec.width, FromPrecision(spec, rest));
    PrecisionAt(format, spec.precision, RenderSizes(spec, rest));
  }

  lemma SuffixMore(f: Format, format: string)
    requires f.Then? && Suffix(Render(f), format)
    ensures Suffix(RenderSpec(f.spec, Render(f.more)), format) && Suffix(Render(f.more), format)
  {
    SuffixAppended(f.text, "%" + RenderSpec(f.spec, Render(f.more)), format);
    SuffixAppended("%", RenderSpec(f.spec, Render(f.more)), format);
    SuffixParts(f.spec, Render(f.more), format);
  }

  /** Laying out yields the directives of the format. */
  lemma {:induction false} LaidDescribed(plat: Platform, format: string, f: Format, s: Slots)
    requires Suffix(Render(f), format) && Laid(plat, f, |format|, s).Some?
    ensures AllDescribed(format, Laid(plat, f, |format|, s).value.dirs, f)
  {
    if f.Then? {
      SuffixMore(f, format);
      var pl := Place(plat, f.spec, s).value;
      var d := Layout(f.spec, Render(f.more), |format|, pl);
      PlacedStars(plat, f.spec, s);
      LayoutDescribes(format, f.spec, Render(f.more), pl);
      LaidDescribed(plat, format, f.more, pl.slots);
      assert ([d] + Laid(plat, f.more, |format|, pl.slots).value.dirs)[1..]
          == Laid(plat, f.more, |format|, pl.slots).value.dirs;
    }
  }

  /** It succeeds exactly if the numbers are good and the types agree. */
  lemma {:induction false} LaidIff(plat: Platform, f: Format, len: nat, s: Slots)
    ensures Laid(plat, f, len, s).Some? <==> GoodNumbers(f) && Fulfil(AllRequests(plat, f), s).Some?
    ensures Laid(plat, f, len, s).Some? ==> Laid(plat, f, len, s).value.slots == Fulfil(AllRequests(plat, f), s).value
  {
    if f.Then? {
      PlaceFulfils(plat, f.spec, s);
      FulfilAppend(Requests(plat, f.spec), AllRequests(plat, f.more), s);
      if Place(plat, f.spec, s).Some? {
        LaidIff(plat, f.more, len, Place(plat, f.spec, s).value.slots);
      }
    }
  }

  lemma RenderMoreText(c: char, g: Format)
    requires GoodFormat(g) && c != '%'
    ensures var f := g.(text := [c] + g.text); GoodFormat(f) && Render(f) == [c] + Render(g)
  {
    if g.Then? {
      Associate([c], g.text, "%" + RenderSpec(g.spec, Render(g.more)));
    }
  }

  lemma PercentFirst(t: string, spec: Spec, g: Format)
    requires t != "" && t[0] == '%' && t[1..] == RenderSpec(spec, Render(g))
    ensures Render(Then("", spec, g)) == t
  {
  }

  lemma Associate(a: string, b: string, c: string)
    ensures (a + b) + c == a + (b + c)
  {
  }

  /** Every string that can be parsed is the rendering of a format. */
  lemma {:induction false} ParsedFormat(plat: Platform, t: string, len: nat, s: Slots) returns (f: Format)
    requires Parse(plat, t, len, s).Some?
    decreases |t|
    ensures GoodFormat(f) && Render(f) == t
  {
    if t == "" {
      return End("");
    }
    if t[0] != '%' {
      var g := ParsedFormat(plat, t[1..], len, s);
      f := g.(text := [t[0]] + g.text);
      RenderMoreText(t[0], g);
      assert t == [t[0]] + t[1..];
    } else {
      var c := ScanSpec(t[1..]).value;
      ScanSound(t[1..]);
      var g := ParsedFormat(plat, c.rest, len, Place(plat, c.value, s).value.slots);
      f := Then("", c.value, g);
      PercentFirst(t, c.value, g);
    }
  }

  /** The uses of arguments in a format; None if a number is wrong. */
  ghost function Events(plat: Platform, f: Format): Option<seq<Event>> {
    var qs := AllRequests(plat, f);
    if GoodNumbers(f) && Numberable(qs) then Some(Indexed(qs)) else None
  }

  /** f can be parsed: no argument is number 0, and none is used with two types. */
  ghost predicate Acceptable(plat: Platform, f: Format) {
    && GoodFormat(f)
    && Events(plat, f).Some?
    && Consistent(Events(plat, f).value)
  }

  lemma SpecTyped(plat: Platform, spec: Spec)
    requires IsConversion(spec.conv)
    ensures forall i :: 0 <= i < |Requests(plat, spec)| ==> Requests(plat, spec)[i].type_ != NoType
  {
    TypeProcessed(plat, spec);
  }

  lemma {:induction false} RequestsTyped(plat: Platform, f: Format)
    requires GoodFormat(f)
    ensures forall i :: 0 <= i < |AllRequests(plat, f)| ==> AllRequests(plat, f)[i].type_ != NoType
  {
    if f.Then? {
      RequestsTyped(plat, f.more);
      SpecTyped(plat, f.spec);
    }
  }

  /** The format strings that can be parsed are the renderings of acceptable formats. */
  lemma ParsesIff(plat: Platform, format: string)
    ensures Parse(plat, format, |format|, START).Some?
       <==> exists f :: Acceptable(plat, f) && Render(f) == format
  {
    if Parse(plat, format, |format|, START).Some? {
      var f := ParsedFormat(plat, format, |format|, START);
      AcceptableIff(plat, format, f);
    }
    forall f | Acceptable(plat, f) && Render(f) == format ensures Parse(plat, format, |format|, START).Some? {
      AcceptableIff(plat, format, f);
    }
  }

  lemma AcceptableIff(plat: Platform, format: string, f: Format)
    requires GoodFormat(f) && Render(f) == format
    ensures Parse(plat, format, |format|, START).Some? <==> Acceptable(plat, f)
  {
    ParseRendered(plat, f, |format|, START);
    LaidIff(plat, f, |format|, START);
    FulfilIff(AllRequests(plat, f), START);
    NumberedIs(AllRequests(plat, f));
    if Events(plat, f).Some? {
      var es := Events(plat, f).value;
      RequestsTyped(plat, f);
      RegisterAllIff([], es);
    }
  }

  /** What is known of the arguments after parsing: each one used has its type, each unused one has none, and
      there are as many as the largest index demands. */
  ghost predicate Assigned(ts: seq<ArgType>, es: seq<Event>) {
    && (forall i :: 0 <= i < |es| ==> es[i].index < |ts| && ts[es[i].index] == es[i].type_)
    && (forall k :: 0 <= k < |ts| && !Uses(es, k) ==> ts[k] == NoType)
    && (ts != [] ==> Uses(es, |ts| - 1))
  }

  lemma RegisteredAssigned(es: seq<Event>)
    requires Typed(es) && RegisterAll([], es).Some?
    ensures Assigned(RegisterAll([], es).value, es)
  {
    RegisteredTypes([], es);
    RegisteredCount([], es);
    var ts := RegisterAll([], es).value;
    forall k | 0 <= k < |ts| && !Uses(es, k) ensures ts[k] == NoType {
      assert At(ts, k) == At([], k);
    }
    forall i | 0 <= i < |es| ensures es[i].index < |ts| && ts[es[i].index] == es[i].type_ {
      assert At(ts, es[i].index) == es[i].type_;
    }
  }

  /** The index of an argument whose position is given, if n regular arguments have been consumed before it. */
  function PositionIndex(p: Position, n: nat): int {
    if p.Explicit? then DecimalValue(p.digits) - 1 else n
  }

  function StarIndex(a: Option<Amount>, n: nat): int {
    if IsStar(a) then PositionIndex(a.value.pos, n) else ARG_NONE
  }

  function RegularStars(a: Option<Amount>): nat {
    if IsStar(a) && a.value.pos.Implicit? then 1 else 0
  }

  /** How many regular arguments a directive consumes. */
  function Regular(spec: Spec): nat {
    RegularStars(spec.width) + RegularStars(spec.precision) + if spec.conv != '%' && spec.pos.Implicit? then 1 else 0
  }

  /** A directive takes its width, then its precision, then its argument from the regular arguments, of which n have
      been consumed before it, except where a number is written. */
  ghost predicate IndexedFrom(d: Directive, spec: Spec, n: nat) {
    && d.width_arg_index == StarIndex(spec.width, n)
    && d.precision_arg_index == StarIndex(spec.precision, n + RegularStars(spec.width))
    && d.arg_index == if spec.conv == '%' then ARG_NONE
         else PositionIndex(spec.pos, n + RegularStars(spec.width) + RegularStars(spec.precision))
  }

  /** Every directive takes its arguments from those that the directives before it have left. */
  ghost predicate AllIndexed(ds: seq<Directive>, f: Format, n: nat) {
    if f.End? then ds == []
    else ds != [] && IndexedFrom(ds[0], f.spec, n) && AllIndexed(ds[1..], f.more, n + Regular(f.spec))
  }

  lemma IndexedMore(d: Directive, ds: seq<Directive>, f: Format, n: nat)
    requires f.Then? && IndexedFrom(d, f.spec, n) && AllIndexed(ds, f.more, n + Regular(f.spec))
    ensures AllIndexed([d] + ds, f, n)
  {
    assert ([d] + ds)[0] == d && ([d] + ds)[1..] == ds;
  }

  lemma PlacedIndices(plat: Platform, spec: Spec, s: Slots)
    requires Place(plat, spec, s).Some?
    ensures var pl, n := Place(plat, spec, s).value, s.posn + RegularStars(spec.width);
            && pl.width == StarIndex(spec.width, s.posn) && pl.precision == StarIndex(spec.precision, n)
            && pl.arg == (if spec.conv == '%' then ARG_NONE
                 else PositionIndex(spec.pos, n + RegularStars(spec.precision)))
            && pl.slots.posn == s.posn + Regular(spec)
  {
  }

  lemma {:induction false} LaidIndexed(plat: Platform, f: Format, len: nat, s: Slots)
    requires Laid(plat, f, len, s).Some?
    ensures AllIndexed(Laid(plat, f, len, s).value.dirs, f, s.posn)
  {
    if f.Then? {
      var pl := Place(plat, f.spec, s).value;
      var d, ds := Layout(f.spec, Render(f.more), len, pl), Laid(plat, f.more, len, pl.slots).value.dirs;
      PlacedIndices(plat, f.spec, s);
      LaidIndexed(plat, f.more, len, pl.slots);
      IndexedMore(d, ds, f, s.posn);
    }
  }

  lemma ParsedArguments(plat: Platform, f: Format)
    requires Acceptable(plat, f)
    ensures var r := Parse(plat, Render(f), |Render(f)|, START);
            && r.Some? && AllDescribed(Render(f), r.value.dirs, f)
            && AllIndexed(r.value.dirs, f, 0)
            && Assigned(r.value.slots.types, Events(plat, f).value)
  {
    var format, qs := Render(f), AllRequests(plat, f);
    AcceptableIff(plat, format, f);
    ParseRendered(plat, f, |format|, START);
    LaidIff(plat, f, |format|, START);
    LaidDescribed(plat, format, f, START);
    LaidIndexed(plat, f, |format|, START);
    FulfilIff(qs, START);
    NumberedIs(qs);
    RequestsTyped(plat, f);
    RegisteredAssigned(Events(plat, f).value);
  }

  // ------------------------------------------------------------------------
  // What the processing of the directives relies on
  // ------------------------------------------------------------------------

  /** The directives follow one another from position from on, with text without '%' before, between and
      behind them. */
  ghost predicate Tiles(format: string, ds: seq<Directive>, from: nat) {
    from <= |format| &&
    if ds == [] then GoodText(format[from..])
    else
      && from <= ds[0].dir_start < ds[0].dir_end <= |format|
      && GoodText(format[from..ds[0].dir_start]) && format[ds[0].dir_start] == '%'
      && Tiles(format, ds[1..], ds[0].dir_end)
  }

  /** The indices of the width and precision of a directive are those of an int argument, and its conversion can
      process its argument. */
  predicate Sound(d: Directive, ts: seq<ArgType>) {
    && (d.width_arg_index != ARG_NONE ==> At(ts, d.width_arg_index) == Int)
    && (d.precision_arg_index != ARG_NONE ==> At(ts, d.precision_arg_index) == Int)
    && (d.arg_index == ARG_NONE <==> d.conversion == '%')
    && (d.conversion != '%' ==> Processed(At(ts, d.arg_index), d.conversion))
  }

  /** Known types stay. */
  ghost predicate Extends(ts: seq<ArgType>, us: seq<ArgType>) {
    forall k: nat :: At(ts, k) != NoType ==> At(us, k) == At(ts, k)
  }

  lemma TakeExtends(q: Request, s: Slots)
    requires Take(q, s).Some? && q.type_ != NoType
    ensures var t := Take(q, s).value;
            Extends(s.types, t.slots.types) && At(t.slots.types, t.index) == q.type_ && t.index != ARG_NONE
  {
    RegisterAt(s.types, Index(q.pos, s.posn).value, q.type_);
  }

  lemma StarExtends(a: Option<Amount>, s: Slots)
    requires TakeStar(a, s).Some?
    ensures var t := TakeStar(a, s).value;
            Extends(s.types, t.slots.types) && (t.index != ARG_NONE ==> At(t.slots.types, t.index) == Int)
  {
    if a.Some? && a.value.Star? {
      TakeExtends(Request(a.value.pos, Int), s);
    }
  }

  lemma PlaceSound(plat: Platform, spec: Spec, rest: string, len: nat, s: Slots)
    requires IsConversion(spec.conv) && Place(plat, spec, s).Some?
    ensures var pl := Place(plat, spec, s).value;
            Sound(Layout(spec, rest, len, pl), pl.slots.types) && Extends(s.types, pl.slots.types)
  {
    TypeProcessed(plat, spec);
    StarExtends(spec.width, s);
    var w := TakeStar(spec.width, s).value.slots;
    StarExtends(spec.precision, w);
    var p := TakeStar(spec.precision, w).value.slots;
    if spec.conv != '%' {
      TakeExtends(Request(spec.pos, TypeOf(plat, spec)), p);
    }
  }

  ghost predicate AllSound(r: Parsed) {
    forall i :: 0 <= i < |r.dirs| ==> Sound(r.dirs[i], r.slots.types)
  }

  lemma SoundExtends(d: Directive, r: Parsed, ts: seq<ArgType>)
    requires Sound(d, ts) && Extends(ts, r.slots.types) && AllSound(r)
    ensures AllSound(Parsed([d] + r.dirs, r.slots))
  {
  }

  lemma {:induction false} LaidSound(plat: Platform, f: Format, len: nat, s: Slots)
    requires GoodFormat(f) && Laid(plat, f, len, s).Some?
    ensures Extends(s.types, Laid(plat, f, len, s).value.slots.types) && AllSound(Laid(plat, f, len, s).value)
  {
    if f.Then? {
      var pl := Place(plat, f.spec, s).value;
      PlaceSound(plat, f.spec, Render(f.more), len, s);
      LaidSound(plat, f.more, len, pl.slots);
      SoundExtends(Layout(f.spec, Render(f.more), len, pl), Laid(plat, f.more, len, pl.slots).value, pl.slots.types);
    }
  }

  /** The arguments of the directives have the types that f asks for. */
  ghost predicate AllTyped(plat: Platform, ds: seq<Directive>, f: Format, ts: seq<ArgType>) {
    if f.End? then ds == []
    else
      && ds != []
      && (f.spec.conv != '%' ==> At(ts, ds[0].arg_index) == TypeOf(plat, f.spec))
      && AllTyped(plat, ds[1..], f.more, ts)
  }

  lemma PlaceTyped(plat: Platform, spec: Spec, s: Slots)
    requires IsConversion(spec.conv) && spec.conv != '%' && Place(plat, spec, s).Some?
    ensures var pl := Place(plat, spec, s).value;
            At(pl.slots.types, pl.arg) == TypeOf(plat, spec) && TypeOf(plat, spec) != NoType
  {
    TypeProcessed(plat, spec);
    var w := TakeStar(spec.width, s).value.slots;
    var p := TakeStar(spec.precision, w).value.slots;
    TakeExtends(Request(spec.pos, TypeOf(plat, spec)), p);
  }

  lemma {:induction false} LaidTyped(plat: Platform, f: Format, len: nat, s: Slots)
    requires GoodFormat(f) && Laid(plat, f, len, s).Some?
    ensures var r := Laid(plat, f, len, s).value; AllTyped(plat, r.dirs, f, r.slots.types)
  {
    if f.Then? {
      var pl := Place(plat, f.spec, s).value;
      var d, r := Layout(f.spec, Render(f.more), len, pl), Laid(plat, f.more, len, pl.slots).value;
      if f.spec.conv != '%' {
        PlaceTyped(plat, f.spec, s);
      }
      LaidSound(plat, f.more, len, pl.slots);
      LaidTyped(plat, f.more, len, pl.slots);
      TypedMore(plat, d, r, f, pl.slots.types);
    }
  }

  lemma TypedMore(plat: Platform, d: Directive, r: Parsed, f: Format, ts: seq<ArgType>)
    requires f.Then? && AllTyped(plat, r.dirs, f.more, r.slots.types) && Extends(ts, r.slots.types)
    requires f.spec.conv != '%' ==> At(ts, d.arg_index) == TypeOf(plat, f.spec) != NoType
    ensures AllTyped(plat, [d] + r.dirs, f, r.slots.types)
  {
    assert ([d] + r.dirs)[1..] == r.dirs;
  }

  /** No width and no precision is longer than the format string. */
  lemma {:induction false} DescribedFit(format: string, ds: seq<Directive>, f: Format, i: nat)
    requires AllDescribed(format, ds, f) && i < |ds|
    ensures SpanLength(ds[i].width) <= |format| && SpanLength(ds[i].precision) <= |format|
  {
    if i > 0 {
      DescribedFit(format, ds[1..], f.more, i - 1);
    }
  }

  lemma {:induction false} LongestFit(ds: seq<Directive>, n: nat)
    requires forall i :: 0 <= i < |ds| ==> SpanLength(ds[i].width) <= n && SpanLength(ds[i].precision) <= n
    ensures LongestWidth(ds) <= n && LongestPrecision(ds) <= n
  {
    if ds != [] {
      LongestFit(ds[..|ds| - 1], n);
    }
  }

  /** The directives lie where those of f do, in a format string of length len that ends with f. */
  ghost predicate AllLocated(len: nat, ds: seq<Directive>, f: Format) {
    if f.End? then ds == []
    else
      && ds != []
      && ds[0].dir_start == Back(len, |RenderSpec(f.spec, Render(f.more))| + 1)
      && ds[0].dir_end == Back(len, |Render(f.more)|)
      && AllLocated(len, ds[1..], f.more)
  }

  lemma {:induction false} LaidLocated(plat: Platform, f: Format, len: nat, s: Slots)
    requires Laid(plat, f, len, s).Some?
    ensures AllLocated(len, Laid(plat, f, len, s).value.dirs, f)
  {
    if f.Then? {
      var pl := Place(plat, f.spec, s).value;
      var ds := Laid(plat, f.more, len, pl.slots).value.dirs;
      LaidLocated(plat, f.more, len, pl.slots);
      assert ([Layout(f.spec, Render(f.more), len, pl)] + ds)[1..] == ds;
    }
  }

  lemma {:induction false} LocatedTiles(format: string, ds: seq<Directive>, f: Format)
    requires GoodFormat(f) && Suffix(Render(f), format) && AllLocated(|format|, ds, f)
    ensures Tiles(format, ds, |format| - |Render(f)|)
  {
    if f.Then? {
      SuffixMore(f, format);
      LocatedTiles(format, ds[1..], f.more);
      RestShorter(f.spec, Render(f.more));
      TileHere(format, f.text, RenderSpec(f.spec, Render(f.more)), |Render(f.more)|, ds[0]);
    }
  }

  lemma TileHere(format: string, text: string, u: string, n: nat, d: Directive)
    requires Suffix(text + ("%" + u), format) && GoodText(text) && n < |u|
    requires d.dir_start == Back(|format|, |u| + 1) && d.dir_end == Back(|format|, n)
    ensures var from := |format| - |text + ("%" + u)|;
            && from <= d.dir_start < d.dir_end <= |format|
            && format[from..d.dir_start] == text && format[d.dir_start] == '%'
  {
    var t := text + ("%" + u);
    SuffixSlice(t, format, |text|);
    assert t[..|text|] == text && t[|text|] == '%';
  }

  lemma RestShorter(spec: Spec, rest: string)
    ensures |rest| < |RenderSpec(spec, rest)|
  {
  }

  /** After a successful parse the directives tile the format string and no later check of them fails. */
  lemma ParsedWell(plat: Platform, format: string)
    requires Parse(plat, format, |format|, START).Some?
    ensures var r := Parse(plat, format, |format|, START).value; AllSound(r) && Tiles(format, r.dirs, 0)
  {
    var f := ParsedFormat(plat, format, |format|, START);
    ParseRendered(plat, f, |format|, START);
    LaidSound(plat, f, |format|, START);
    assert format[0..] == format;
    LaidLocated(plat, f, |format|, START);
    LocatedTiles(format, Laid(plat, f, |format|, START).value.dirs, f);
  }
}
