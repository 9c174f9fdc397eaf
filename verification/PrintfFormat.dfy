/** Formatting: the pieces of text and the converted arguments, put together in a growing buffer. */
module PrintfFormat {
  import opened Wrappers
  import opened PrintfSyntax
  import opened PrintfArgs
  import opened PrintfMeaning
  import opened PrintfParser
  import opened PrintfRebuild
  import opened PrintfBuffer
  import opened TextBuffer
  import opened Xsize
  import opened Allocator

  /** The surroundings: how directive i has to be rebuilt, and what the system's own formatting function makes of
      the rebuilt directive with the arguments of directive i. */
  datatype System = System(opts: nat -> Options, conv: (nat, string) -> string)

  /** No converted argument is as long as the largest size. */
  ghost predicate Sized(sys: System) {
    forall i, text :: |sys.conv(i, text)| < SIZE_MAX
  }

  // ------------------------------------------------------------------------
  // What is to be written
  // ------------------------------------------------------------------------

  /** What directive i contributes. */
  function Piece(conversion: char, rebuilt: string, i: nat, sys: System): string {
    if conversion == '%' then "%" else if conversion == 'n' then "" else sys.conv(i, rebuilt)
  }

  /** ... as seen from the parsed directive, ... */
  function DirectivePiece(format: string, d: Directive, ts: seq<ArgType>, i: nat, sys: System): string {
    Piece(d.conversion, Rebuilt(format, d, At(ts, d.arg_index), sys.opts(i)), i, sys)
  }

  /** ... and from the format: the system gets the simplified directive. */
  function SpecPiece(plat: Platform, spec: Spec, i: nat, sys: System): string {
    var o := sys.opts(i);
    var again := Simplified(spec, TypeOf(plat, spec), o);
    Piece(Stored(spec.conv), "%" + RenderSpec(again, if o.percent_n then "%n" else ""), i, sys)
  }

  /** The output so far, and what the %n directives have stored. */
  datatype Written = Written(text: string, counts: seq<nat>)

  const NOTHING := Written("", [])

  /** A piece of text and the contribution of a directive are processed. */
  function Process(w: Written, text: string, conversion: char, piece: string): Written {
    Written(w.text + text + piece, if conversion == 'n' then w.counts + [|w.text + text|] else w.counts)
  }

  /** What is written for the string from position from onwards, with the directives ds, the first of which is
      directive i. */
  ghost function Run(format: string, ds: seq<Directive>, ts: seq<ArgType>, from: nat, i: nat, sys: System, w: Written)
    : Written
    requires Tiles(format, ds, from)
    decreases |ds|
  {
    if ds == [] then w.(text := w.text + format[from..])
    else
      var next := Process(w, format[from..ds[0].dir_start], ds[0].conversion,
          DirectivePiece(format, ds[0], ts, i, sys));
      Run(format, ds[1..], ts, ds[0].dir_end, i + 1, sys, next)
  }

  /** The same, if the directives tile the string. */
  ghost function TryRun(format: string, ds: seq<Directive>, ts: seq<ArgType>, from: nat, i: nat, sys: System,
                        w: Written)
    : Option<Written>
  {
    if Tiles(format, ds, from) then Some(Run(format, ds, ts, from, i, sys, w)) else None
  }

  function RunFormat(plat: Platform, f: Format, i: nat, sys: System, w: Written): Written {
    match f
    case End(text) => w.(text := w.text + text)
    case Then(text, spec, more) =>
      RunFormat(plat, more, i + 1, sys, Process(w, text, Stored(spec.conv), SpecPiece(plat, spec, i, sys)))
  }

  /** The text of a format with every directive replaced by what it contributes. */
  function Formatted(plat: Platform, f: Format, i: nat, sys: System): string {
    match f
    case End(text) => text
    case Then(text, spec, more) => text + (SpecPiece(plat, spec, i, sys) + Formatted(plat, more, i + 1, sys))
  }

  lemma {:induction false} RunFormatText(plat: Platform, f: Format, i: nat, sys: System, w: Written)
    ensures RunFormat(plat, f, i, sys, w).text == w.text + Formatted(plat, f, i, sys)
  {
    if f.Then? {
      var p, q := SpecPiece(plat, f.spec, i, sys), Formatted(plat, f.more, i + 1, sys);
      RunFormatText(plat, f.more, i + 1, sys, Process(w, f.text, Stored(f.spec.conv), p));
      Associate(w.text + f.text, p, q);
      Associate(w.text, f.text, p + q);
    }
  }

  /** f up to the text in front of directive k. */
  function Cut(f: Format, k: nat): Format {
    if f.End? || k == 0 then End(f.text) else Then(f.text, f.spec, Cut(f.more, k - 1))
  }

  /** The numbers of the %n directives, counted from k. */
  function CountingFrom(f: Format, k: nat): seq<nat> {
    if f.End? then []
    else (if f.spec.conv == 'n' then [k] else []) + CountingFrom(f.more, k + 1)
  }

  lemma {:induction false} CountingLater(f: Format, k: nat)
    ensures |CountingFrom(f, k)| == |CountingFrom(f, 0)|
    ensures forall j :: 0 <= j < |CountingFrom(f, k)| ==> CountingFrom(f, k)[j] == CountingFrom(f, 0)[j] + k
  {
    if f.Then? {
      CountingLater(f.more, k + 1);
      CountingLater(f.more, 1);
    }
  }

  /** The length of what is written for f, if len gives that of every piece. */
  function Length(f: Format, i: nat, len: (Spec, nat) -> nat): nat {
    match f
    case End(text) => |text|
    case Then(text, spec, more) => |text| + len(spec, i) + Length(more, i + 1, len)
  }

  /** The counts are n and the lengths of what is written for the format in front of its %n directives. */
  ghost predicate Counted(counts: seq<nat>, n: nat, f: Format, i: nat, len: (Spec, nat) -> nat) {
    && |counts| == |CountingFrom(f, 0)|
    && forall j :: 0 <= j < |counts| ==> counts[j] == n + Length(Cut(f, CountingFrom(f, 0)[j]), i, len)
  }

  function FirstCount(f: Format, n: nat): seq<nat> {
    if f.Then? && f.spec.conv == 'n' then [n + |f.text|] else []
  }

  lemma CountedMore(counts: seq<nat>, n: nat, f: Format, i: nat, len: (Spec, nat) -> nat)
    requires f.Then? && Counted(counts, n + |f.text| + len(f.spec, i), f.more, i + 1, len)
    ensures Counted(FirstCount(f, n) + counts, n, f, i, len)
  {
    var first := FirstCount(f, n);
    CountingLater(f.more, 1);
    forall j | 0 <= j < |first + counts|
      ensures (first + counts)[j] == n + Length(Cut(f, CountingFrom(f, 0)[j]), i, len)
    {
      if j >= |first| {
        var k := CountingFrom(f.more, 0)[j - |first|];
        assert CountingFrom(f, 0)[j] == k + 1;
        assert Cut(f, k + 1) == Then(f.text, f.spec, Cut(f.more, k));
      }
    }
  }

  /** len gives the lengths of the pieces. */
  ghost predicate Measures(plat: Platform, sys: System, len: (Spec, nat) -> nat) {
    forall spec, i :: len(spec, i) == |SpecPiece(plat, spec, i, sys)|
  }

  lemma {:induction false} FormattedLength(plat: Platform, f: Format, i: nat, sys: System, len: (Spec, nat) -> nat)
    requires Measures(plat, sys, len)
    ensures |Formatted(plat, f, i, sys)| == Length(f, i, len)
  {
    if f.Then? {
      FormattedLength(plat, f.more, i + 1, sys, len);
    }
  }

  lemma ProcessCounts(w: Written, f: Format, piece: string)
    requires f.Then?
    ensures var next := Process(w, f.text, Stored(f.spec.conv), piece);
            next.counts == w.counts + FirstCount(f, |w.text|) && |next.text| == |w.text| + |f.text| + |piece|
  {
  }

  /** RunFormat for any pieces. */
  function RunPieces(f: Format, i: nat, piece: (Spec, nat) -> string, w: Written): Written {
    match f
    case End(text) => w.(text := w.text + text)
    case Then(text, spec, more) => RunPieces(more, i + 1, piece, Process(w, text, Stored(spec.conv), piece(spec, i)))
  }

  lemma {:induction false} RunIsRunPieces(
    plat: Platform, f: Format, i: nat, sys: System, w: Written, piece: (Spec, nat) -> string)
    requires forall spec, k :: piece(spec, k) == SpecPiece(plat, spec, k, sys)
    ensures RunFormat(plat, f, i, sys, w) == RunPieces(f, i, piece, w)
  {
    if f.Then? {
      var next := Process(w, f.text, Stored(f.spec.conv), piece(f.spec, i));
      RunIsRunPieces(plat, f.more, i + 1, sys, next, piece);
    }
  }

  lemma {:induction false} PiecesCounted(
    f: Format, i: nat, piece: (Spec, nat) -> string, len: (Spec, nat) -> nat, w: Written)
    returns (counts: seq<nat>)
    requires forall spec, k :: len(spec, k) == |piece(spec, k)|
    ensures RunPieces(f, i, piece, w).counts == w.counts + counts && Counted(counts, |w.text|, f, i, len)
  {
    counts := [];
    if f.Then? {
      var next := Process(w, f.text, Stored(f.spec.conv), piece(f.spec, i));
      ProcessCounts(w, f, piece(f.spec, i));
      var more := PiecesCounted(f.more, i + 1, piece, len, next);
      CountedMore(more, |w.text|, f, i, len);
      counts := FirstCount(f, |w.text|) + more;
    }
  }

  /** Every %n directive stores the length of what is written for the format in front of it. */
  lemma StoredCounts(plat: Platform, f: Format, sys: System)
    ensures var counts, ks := RunFormat(plat, f, 0, sys, NOTHING).counts, CountingFrom(f, 0);
            && |counts| == |ks|
            && forall j :: 0 <= j < |ks| ==> counts[j] == |Formatted(plat, Cut(f, ks[j]), 0, sys)|
  {
    var len := (spec: Spec, i: nat) => |SpecPiece(plat, spec, i, sys)|;
    var piece := (spec: Spec, i: nat) => SpecPiece(plat, spec, i, sys);
    RunIsRunPieces(plat, f, 0, sys, NOTHING, piece);
    var counts := PiecesCounted(f, 0, piece, len, NOTHING);
    var ks := CountingFrom(f, 0);
    assert RunFormat(plat, f, 0, sys, NOTHING).counts == counts;
    forall j | 0 <= j < |ks| ensures counts[j] == |Formatted(plat, Cut(f, ks[j]), 0, sys)| {
      FormattedLength(plat, Cut(f, ks[j]), 0, sys, len);
    }
  }

  /** The output only grows. */
  lemma {:induction false} RunGrows(
    format: string, ds: seq<Directive>, ts: seq<ArgType>, from: nat, i: nat, sys: System, w: Written)
    requires Tiles(format, ds, from)
    decreases |ds|
    ensures |w.text| <= |Run(format, ds, ts, from, i, sys, w).text|
  {
    if ds != [] {
      var next := Process(w, format[from..ds[0].dir_start], ds[0].conversion,
          DirectivePiece(format, ds[0], ts, i, sys));
      RunGrows(format, ds[1..], ts, ds[0].dir_end, i + 1, sys, next);
    }
  }

  // ------------------------------------------------------------------------
  // Processing the parsed directives is processing the format
  // ------------------------------------------------------------------------

  /** The texts and contributions of the directives ds from position from are those of f. */
  ghost predicate Follows(
    plat: Platform, format: string, ds: seq<Directive>, ts: seq<ArgType>, from: nat, f: Format, i: nat, sys: System)
  {
    if f.End? then ds == [] && from <= |format| && format[from..] == f.text
    else
      && ds != [] && from <= ds[0].dir_start <= |format|
      && format[from..ds[0].dir_start] == f.text && ds[0].conversion == Stored(f.spec.conv)
      && DirectivePiece(format, ds[0], ts, i, sys) == SpecPiece(plat, f.spec, i, sys)
      && Follows(plat, format, ds[1..], ts, ds[0].dir_end, f.more, i + 1, sys)
  }

  lemma SamePiece(plat: Platform, format: string, d: Directive, ts: seq<ArgType>, spec: Spec, i: nat, sys: System)
    requires Describes(format, d, spec) && (spec.conv != '%' ==> At(ts, d.arg_index) == TypeOf(plat, spec))
    ensures DirectivePiece(format, d, ts, i, sys) == SpecPiece(plat, spec, i, sys)
  {
    RebuiltRenders(format, d, spec, TypeOf(plat, spec), sys.opts(i));
  }

  lemma {:induction false} DirectivesFollow(
    plat: Platform, format: string, ds: seq<Directive>, ts: seq<ArgType>, f: Format, i: nat, sys: System)
    requires GoodFormat(f) && Suffix(Render(f), format) && AllLocated(|format|, ds, f)
    requires AllDescribed(format, ds, f) && AllTyped(plat, ds, f, ts)
    ensures Follows(plat, format, ds, ts, |format| - |Render(f)|, f, i, sys)
  {
    if f.Then? {
      HeadOf(format, ds, f);
      DescribedHead(format, ds, f);
      SamePiece(plat, format, ds[0], ts, f.spec, i, sys);
      DirectivesFollow(plat, format, ds[1..], ts, f.more, i + 1, sys);
    }
  }

  lemma DescribedHead(format: string, ds: seq<Directive>, f: Format)
    requires f.Then? && AllDescribed(format, ds, f)
    ensures ds != [] && Describes(format, ds[0], f.spec) && AllDescribed(format, ds[1..], f.more)
    ensures ds[0].conversion == Stored(f.spec.conv)
  {
  }

  lemma HeadOf(format: string, ds: seq<Directive>, f: Format)
    requires f.Then? && GoodFormat(f) && Suffix(Render(f), format) && AllLocated(|format|, ds, f)
    ensures Suffix(Render(f.more), format) && ds[0].dir_end == |format| - |Render(f.more)|
    ensures |format| - |Render(f)| <= ds[0].dir_start <= |format|
    ensures format[|format| - |Render(f)|..ds[0].dir_start] == f.text
  {
    SuffixMore(f, format);
    RestShorter(f.spec, Render(f.more));
    TileHere(format, f.text, RenderSpec(f.spec, Render(f.more)), |Render(f.more)|, ds[0]);
  }

  lemma {:induction false} RunIsRunFormat(
    plat: Platform, format: string, ds: seq<Directive>, ts: seq<ArgType>, from: nat, f: Format, i: nat, sys: System,
    w: Written)
    requires Follows(plat, format, ds, ts, from, f, i, sys) && Tiles(format, ds, from)
    ensures Run(format, ds, ts, from, i, sys, w) == RunFormat(plat, f, i, sys, w)
  {
    if f.Then? {
      var p := SpecPiece(plat, f.spec, i, sys);
      RunHead(format, ds, ts, from, f.text, Stored(f.spec.conv), p, i, sys, w);
      var next := Process(w, f.text, Stored(f.spec.conv), p);
      RunIsRunFormat(plat, format, ds[1..], ts, ds[0].dir_end, f.more, i + 1, sys, next);
    }
  }

  lemma RunHead(
    format: string, ds: seq<Directive>, ts: seq<ArgType>, from: nat, text: string, c: char, p: string, i: nat,
    sys: System, w: Written)
    requires ds != [] && Tiles(format, ds, from) && format[from..ds[0].dir_start] == text && ds[0].conversion == c
    requires DirectivePiece(format, ds[0], ts, i, sys) == p
    ensures Run(format, ds, ts, from, i, sys, w)
         == Run(format, ds[1..], ts, ds[0].dir_end, i + 1, sys, Process(w, text, c, p))
  {
  }

  lemma RunStep(
    format: string, ds: seq<Directive>, ts: seq<ArgType>, from: nat, i: nat, sys: System, w: Written, all: Written)
    requires i < |ds| && TryRun(format, ds[i..], ts, from, i, sys, w) == Some(all)
    ensures from <= ds[i].dir_start <= |format|
    ensures var next := Process(w, format[from..ds[i].dir_start], ds[i].conversion,
              DirectivePiece(format, ds[i], ts, i, sys));
            && TryRun(format, ds[i + 1..], ts, ds[i].dir_end, i + 1, sys, next) == Some(all)
            && |next.text| <= |all.text|
  {
    assert ds[i..][1..] == ds[i + 1..];
    var next := Process(w, format[from..ds[i].dir_start], ds[i].conversion, DirectivePiece(format, ds[i], ts, i, sys));
    RunGrows(format, ds[i + 1..], ts, ds[i].dir_end, i + 1, sys, next);
  }

  lemma RunEnd(format: string, ds: seq<Directive>, ts: seq<ArgType>, from: nat, i: nat, sys: System, w: Written,
               all: Written)
    requires i == |ds| && TryRun(format, ds[i..], ts, from, i, sys, w) == Some(all)
    ensures from <= |format| && all == Written(w.text + format[from..|format|], w.counts)
  {
    assert ds[i..] == [];
    assert format[from..|format|] == format[from..];
  }

  // ------------------------------------------------------------------------
  // Formatting
  // ------------------------------------------------------------------------

  /** Fails if an argument has no type, that is, if an index is skipped. */
  method FetchArgs(a: Arguments) returns (ok: bool)
    requires a.Valid()
    ensures ok <==> NoType !in a.Types()
  {
    var i := 0;
    while i < a.count
      invariant 0 <= i <= a.count && NoType !in a.arg[..i]
    {
      if a.arg[i] == NoType {
        return false;
      }
      i := i + 1;
    }
    ok := true;
  }

  /** buf has room for every rebuilt directive, and is not the output. */
  ghost predicate HasRoom(buf: array<char>, r: Accumulator, d: Directive)
    reads r
  {
    buf != r.result && buf.Length >= Room(SpanLength(d.width), SpanLength(d.precision))
  }

  /** Rebuilds the directive in the buffer and has the system convert the argument. */
  method Convert(format: string, d: Directive, t: ArgType, i: nat, sys: System, buf: array<char>)
    returns (piece: string)
    requires buf.Length >= Room(SpanLength(d.width), SpanLength(d.precision))
    modifies buf
    ensures piece == sys.conv(i, Rebuilt(format, d, t, sys.opts(i)))
  {
    var fbp := Rebuild(format, d, t, sys.opts(i), buf);
    piece := sys.conv(i, buf[..fbp]);
  }

  /** One directive. No check that would abort can fail. */
  method FormatDirective(
    format: string, d: Directive, i: nat, a: Arguments, sys: System, r: Accumulator, mem: Memory, buf: array<char>,
    counts: seq<nat>, ghost ts: seq<ArgType>, ghost w: Written)
    returns (ok: bool, counts': seq<nat>)
    requires a.Valid() && ts == a.Types() && r.Valid() && Sound(d, ts) && Sized(sys) && HasRoom(buf, r, d)
    requires Written(r.Text(), counts) == w
    modifies r, r.result, mem, buf
    ensures r.Valid() && (r.result == old(r.result) || fresh(r.result)) && old(mem.calls) <= mem.calls
    ensures var w' := Process(w, "", d.conversion, DirectivePiece(format, d, ts, i, sys));
            && (ok ==> Written(r.Text(), counts') == w')
            && (!ok ==> mem.Refused(old(mem.calls)) || TooLong(|w'.text|))
  {
    ok, counts' := true, counts;
    assert w.text + "" == w.text && w.text + "" + "" == w.text;
    if d.conversion == '%' {
      assert d.arg_index == ARG_NONE;
      ok := r.Append(mem, "%");
    } else {
      assert d.arg_index != ARG_NONE && d.arg_index < a.count;
      var t := a.arg[d.arg_index];
      assert Processed(t, d.conversion);
      if d.conversion == 'n' {
        assert t in {CountSChar, CountShort, CountInt, CountLongInt, CountLongLongInt};
        counts' := counts + [r.length];
      } else {
        assert d.width_arg_index != ARG_NONE ==> d.width_arg_index < a.count && a.arg[d.width_arg_index] == Int;
        assert d.precision_arg_index != ARG_NONE ==>
            d.precision_arg_index < a.count && a.arg[d.precision_arg_index] == Int;
        var piece := Convert(format, d, t, i, sys, buf);
        assert t == At(ts, d.arg_index) && r.Text() == w.text;
        ok := r.Append(mem, piece);
      }
    }
  }

  method CopyText(text: string, r: Accumulator, mem: Memory) returns (ok: bool)
    requires r.Valid() && |text| < SIZE_MAX
    modifies r, r.result, mem
    ensures r.Valid() && (r.result == old(r.result) || fresh(r.result)) && old(mem.calls) <= mem.calls
    ensures ok ==> r.Text() == old(r.Text()) + text
    ensures !ok ==> mem.Refused(old(mem.calls)) || TooLong(|old(r.Text())| + |text|)
  {
    ok := true;
    if text != "" {
      ok := r.Append(mem, text);
    } else {
      assert r.Text() + "" == r.Text();
    }
  }

  /** A piece of text and the directive behind it. */
  method FormatNext(
    format: string, text: string, d: Directive, i: nat, a: Arguments, sys: System, r: Accumulator, mem: Memory,
    buf: array<char>, counts: seq<nat>, ghost ts: seq<ArgType>, ghost w: Written)
    returns (ok: bool, counts': seq<nat>)
    requires a.Valid() && ts == a.Types() && r.Valid() && Sound(d, ts) && Sized(sys) && HasRoom(buf, r, d)
    requires |text| < SIZE_MAX && Written(r.Text(), counts) == w
    modifies r, r.result, mem, buf
    ensures r.Valid() && (r.result == old(r.result) || fresh(r.result)) && old(mem.calls) <= mem.calls
    ensures var w' := Process(w, text, d.conversion, DirectivePiece(format, d, ts, i, sys));
            && (ok ==> Written(r.Text(), counts') == w')
            && (!ok ==> mem.Refused(old(mem.calls)) || TooLong(|w'.text|))
  {
    counts' := counts;
    ok := CopyText(text, r, mem);
    if ok {
      assert w.text + text + "" == w.text + text;
      ok, counts' := FormatDirective(format, d, i, a, sys, r, mem, buf, counts, ts, Written(r.Text(), counts));
    }
  }

  /** What formatting relies on. */
  ghost predicate Ready(format: string, d: Directives, a: Arguments)
    reads d, d.dir, a, a.arg
  {
    && d.Valid() && a.Valid() && Tiles(format, d.Contents(), 0) && d.dir[d.count].dir_start == |format|
    && AllSound(Parsed(d.Contents(), Slots(0, a.Types())))
  }

  /** The buffer for rebuilt directives, of the length that the driver computes, serves them all. */
  ghost predicate Serves(buf: array<char>, ds: seq<Directive>) {
    forall i :: 0 <= i < |ds| ==> buf.Length >= Room(SpanLength(ds[i].width), SpanLength(ds[i].precision))
  }

  /** all is what formatting writes. */
  ghost predicate Writes(format: string, d: Directives, a: Arguments, sys: System, all: Written)
    reads d, d.dir, a, a.arg
  {
    Ready(format, d, a) && all == Run(format, d.Contents(), a.Types(), 0, 0, sys, NOTHING)
  }

  /** The text in front of directive i, and the directive. */
  method FormatStep(
    format: string, d: Directives, a: Arguments, sys: System, r: Accumulator, mem: Memory, buf: array<char>, cp: nat,
    i: nat, counts: seq<nat>, ghost all: Written, ghost w: Written)
    returns (ok: bool, counts': seq<nat>, ghost w': Written)
    requires Ready(format, d, a) && r.Valid() && |format| < SIZE_MAX && Sized(sys) && i < d.count
    requires buf != r.result && Serves(buf, d.Contents())
    requires TryRun(format, d.Contents()[i..], a.Types(), cp, i, sys, w) == Some(all)
    requires w == Written(r.Text(), counts)
    modifies r, r.result, mem, buf
    ensures r.Valid() && (r.result == old(r.result) || fresh(r.result)) && old(mem.calls) <= mem.calls
    ensures var ds := old(d.Contents());
            TryRun(format, ds[i + 1..], old(a.Types()), ds[i].dir_end, i + 1, sys, w') == Some(all)
    ensures ok ==> w' == Written(r.Text(), counts')
    ensures !ok ==> mem.Refused(old(mem.calls)) || TooLong(|all.text|)
  {
    ghost var ds, ts := d.Contents(), a.Types();
    RunStep(format, ds, ts, cp, i, sys, w, all);
    var next := d.dir[i];
    assert next == ds[i];
    w' := Process(w, format[cp..next.dir_start], next.conversion, DirectivePiece(format, next, ts, i, sys));
    ok, counts' := FormatNext(format, format[cp..next.dir_start], next, i, a, sys, r, mem, buf, counts, ts, w);
  }

  /** All directives in order, with the text between them. */
  method FormatAll(
    format: string, d: Directives, a: Arguments, sys: System, r: Accumulator, mem: Memory, buf: array<char>,
    ghost all: Written)
    returns (ok: bool, counts: seq<nat>)
    requires Writes(format, d, a, sys, all) && r.Valid() && r.Text() == "" && |format| < SIZE_MAX && Sized(sys)
    requires buf != r.result && Serves(buf, d.Contents())
    modifies r, r.result, mem, buf
    ensures r.Valid() && (r.result == old(r.result) || fresh(r.result)) && old(mem.calls) <= mem.calls
    ensures ok ==> Written(r.Text(), counts) == all
    ensures !ok ==> mem.Refused(old(mem.calls)) || TooLong(|all.text|)
  {
    ghost var ds, ts := d.Contents(), a.Types();
    var cp: nat, i := 0, 0;
    counts := [];
    ghost var w := NOTHING;
    assert ds[0..] == ds;
    while i < d.count
      invariant 0 <= i <= d.count && r.Valid() && (r.result == old(r.result) || fresh(r.result))
      invariant old(mem.calls) <= mem.calls && buf != r.result
      invariant TryRun(format, ds[i..], ts, cp, i, sys, w) == Some(all)
      invariant w == Written(r.Text(), counts)
      decreases d.count - i
    {
      ok, counts, w := FormatStep(format, d, a, sys, r, mem, buf, cp, i, counts, all, w);
      if !ok {
        return;
      }
      cp, i := d.dir[i].dir_end, i + 1;
    }
    RunEnd(format, ds, ts, cp, i, sys, w, all);
    ok := CopyText(format[cp..d.dir[i].dir_start], r, mem);
  }

  method FormatTerminated(
    format: string, d: Directives, a: Arguments, sys: System, r: Accumulator, mem: Memory, buf: array<char>,
    ghost all: Written)
    returns (ok: bool, counts: seq<nat>)
    requires Writes(format, d, a, sys, all) && r.Valid() && r.Text() == "" && |format| < SIZE_MAX && Sized(sys)
    requires buf != r.result && Serves(buf, d.Contents())
    modifies r, r.result, mem, buf
    ensures r.Valid() && old(mem.calls) <= mem.calls
    ensures ok ==> Written(r.Text(), counts) == all && r.length < r.result.Length && r.result[r.length] == '\0'
    ensures !ok ==> mem.Refused(old(mem.calls)) || TooLong(|all.text| + 1)
  {
    ok, counts := FormatAll(format, d, a, sys, r, mem, buf, all);
    if ok {
      ok := r.Terminate(mem);
    }
  }

  // ------------------------------------------------------------------------
  // What a successful parse provides
  // ------------------------------------------------------------------------

  lemma CompleteReady(plat: Platform, format: string, d: Directives, a: Arguments)
    requires Complete(plat, format, d, a)
    ensures Ready(format, d, a)
  {
    ParsedWell(plat, format);
  }

  /** Some argument below the largest index is not used. */
  ghost predicate Skips(es: seq<Event>) {
    exists k: nat, i :: 0 <= i < |es| && k < es[i].index && !Uses(es, k)
  }

  /** The string denotes the format f, which can be parsed. */
  ghost predicate Denotes(plat: Platform, format: string, f: Format) {
    Acceptable(plat, f) && Render(f) == format
  }

  /** f skips an argument. */
  ghost predicate Skipping(plat: Platform, f: Format) {
    Events(plat, f).Some? && Skips(Events(plat, f).value)
  }

  lemma SkippedIff(ts: seq<ArgType>, es: seq<Event>)
    requires Typed(es) && Assigned(ts, es)
    ensures Skips(es) <==> NoType in ts
  {
    if NoType in ts {
      var k :| 0 <= k < |ts| && ts[k] == NoType;
      var i :| 0 <= i < |es| && es[i].index == |ts| - 1;
      assert ts[es[i].index] == es[i].type_;
      assert !Uses(es, k);
    }
    if Skips(es) {
      var k: nat, i :| 0 <= i < |es| && k < es[i].index && !Uses(es, k);
      assert ts[k] == NoType;
    }
  }

  lemma EventsTyped(plat: Platform, f: Format)
    requires Acceptable(plat, f)
    ensures Typed(Events(plat, f).value)
  {
    RequestsTyped(plat, f);
  }

  lemma CompleteSkips(plat: Platform, format: string, f: Format, d: Directives, a: Arguments)
    requires Acceptable(plat, f) && Render(f) == format && Complete(plat, format, d, a)
    ensures Skips(Events(plat, f).value) <==> NoType in a.Types()
  {
    ParsedArguments(plat, f);
    EventsTyped(plat, f);
    SkippedIff(a.Types(), Events(plat, f).value);
  }

  lemma ParsedLaid(plat: Platform, format: string, f: Format)
    requires Acceptable(plat, f) && Render(f) == format && Parse(plat, format, |format|, START).Some?
    ensures var r := Parse(plat, format, |format|, START).value;
            AllLocated(|format|, r.dirs, f) && AllTyped(plat, r.dirs, f, r.slots.types)
  {
    ParseRendered(plat, f, |format|, START);
    LaidLocated(plat, f, |format|, START);
    LaidTyped(plat, f, |format|, START);
  }

  lemma RunRendered(plat: Platform, format: string, ds: seq<Directive>, ts: seq<ArgType>, f: Format, sys: System)
    requires GoodFormat(f) && Render(f) == format && AllLocated(|format|, ds, f) && AllDescribed(format, ds, f)
    requires AllTyped(plat, ds, f, ts) && Tiles(format, ds, 0)
    ensures Run(format, ds, ts, 0, 0, sys, NOTHING) == RunFormat(plat, f, 0, sys, NOTHING)
    ensures RunFormat(plat, f, 0, sys, NOTHING).text == Formatted(plat, f, 0, sys)
  {
    assert format[0..] == format;
    DirectivesFollow(plat, format, ds, ts, f, 0, sys);
    RunIsRunFormat(plat, format, ds, ts, 0, f, 0, sys, NOTHING);
    RunFormatText(plat, f, 0, sys, NOTHING);
    assert "" + Formatted(plat, f, 0, sys) == Formatted(plat, f, 0, sys);
  }

  lemma CompleteWrites(plat: Platform, format: string, f: Format, d: Directives, a: Arguments, sys: System)
    requires Acceptable(plat, f) && Render(f) == format && Complete(plat, format, d, a)
               && Tiles(format, d.Contents(), 0)
    ensures Run(format, d.Contents(), a.Types(), 0, 0, sys, NOTHING) == RunFormat(plat, f, 0, sys, NOTHING)
    ensures RunFormat(plat, f, 0, sys, NOTHING).text == Formatted(plat, f, 0, sys)
  {
    ParsedArguments(plat, f);
    ParsedLaid(plat, format, f);
    RunRendered(plat, format, d.Contents(), a.Types(), f, sys);
  }

  /** The length of the buffer that the driver computes is enough, or has overflowed. */
  ghost predicate Enough(format: string, d: Directives)
    reads d, d.dir
  {
    && d.Valid() && d.max_width_length <= |format| < SIZE_MAX && d.max_precision_length <= |format|
    && var needed := Xsum4(7, d.max_width_length, d.max_precision_length, 6);
       if needed == SIZE_MAX then Oversized(format)
       else forall i :: 0 <= i < |d.Contents()| ==>
              needed >= Room(SpanLength(d.Contents()[i].width), SpanLength(d.Contents()[i].precision))
  }

  /** The length of the buffer that the driver computes is enough for all directives, and does not overflow unless
      the format string is oversized. */
  lemma CompleteServes(plat: Platform, format: string, f: Format, d: Directives, a: Arguments)
    requires Acceptable(plat, f) && Render(f) == format && Complete(plat, format, d, a) && |format| < SIZE_MAX
    ensures Enough(format, d)
  {
    ParsedArguments(plat, f);
    var ds := d.Contents();
    forall i | 0 <= i < |ds|
      ensures SpanLength(ds[i].width) <= |format| && SpanLength(ds[i].precision) <= |format|
    {
      DescribedFit(format, ds, f, i);
    }
    LongestFit(ds, |format|);
    Xsum4Saturates(7, LongestWidth(ds), LongestPrecision(ds), 6);
    forall i | 0 <= i < |ds|
      ensures Room(SpanLength(ds[i].width), SpanLength(ds[i].precision)) <= 7 + LongestWidth(ds) + LongestPrecision(ds)
                + 6
    {
      AtMostLongest(ds, i);
    }
  }

  // ------------------------------------------------------------------------
  // The whole function
  // ------------------------------------------------------------------------

  /** The buffer for rebuilt directives: on the stack if it is small. */
  method AllocateBuffer(needed: Size, mem: Memory) returns (ok: bool, buf: array<char>)
    modifies mem
    ensures fresh(buf) && old(mem.calls) <= mem.calls && (ok ==> buf.Length == needed < SIZE_MAX)
    ensures !ok ==> mem.Refused(old(mem.calls)) || needed == SIZE_MAX
  {
    ok := true;
    if needed >= 4000 {
      ok := needed != SIZE_MAX;
      if ok {
        ok := mem.Allocate(needed);
      }
    }
    buf := new char[if ok then needed else 0](_ => '\0');
  }

  /** Formats with parsed directives and arguments. */
  method FormatWithBuffer(
    format: string, d: Directives, a: Arguments, r: Accumulator, sys: System, mem: Memory, ghost all: Written)
    returns (ok: bool, counts: seq<nat>)
    requires Writes(format, d, a, sys, all) && Enough(format, d) && r.Valid() && r.Text() == "" && Sized(sys)
    modifies r, r.result, mem
    ensures r.Valid() && old(mem.calls) <= mem.calls
    ensures ok ==> Written(r.Text(), counts) == all && r.length < r.result.Length && r.result[r.length] == '\0'
    ensures !ok ==> mem.Refused(old(mem.calls)) || Oversized(format) || TooLong(|all.text| + 1)
  {
    counts := [];
    var buf;
    ok, buf := AllocateBuffer(Xsum4(7, d.max_width_length, d.max_precision_length, 6), mem);
    if ok {
      ok, counts := FormatTerminated(format, d, a, sys, r, mem, buf, all);
    }
  }

  /** The same, unless the arguments cannot be fetched. */
  method FetchAndFormat(
    format: string, d: Directives, a: Arguments, r: Accumulator, sys: System, mem: Memory, ghost all: Written)
    returns (out: Outcome, counts: seq<nat>)
    requires Writes(format, d, a, sys, all) && Enough(format, d) && r.Valid() && r.Text() == "" && Sized(sys)
    modifies r, r.result, mem
    ensures r.Valid() && old(mem.calls) <= mem.calls
    ensures out.Invalid? <==> NoType in old(a.Types())
    ensures out.Fine? ==> Written(r.Text(), counts) == all && r.length < r.result.Length && r.result[r.length] == '\0'
    ensures out.NoMemory? ==> mem.Refused(old(mem.calls)) || Oversized(format) || TooLong(|all.text| + 1)
  {
    counts := [];
    var ok := FetchArgs(a);
    if !ok {
      return Invalid, counts;
    }
    ok, counts := FormatWithBuffer(format, d, a, r, sys, mem, all);
    out := if ok then Fine else NoMemory;
  }

  /** What a successful parse means for formatting: the format f, whether it skips an argument, and what is to be
      written. */
  lemma Prepare(plat: Platform, format: string, d: Directives, a: Arguments, sys: System)
    returns (f: Format, all: Written)
    requires Complete(plat, format, d, a) && |format| < SIZE_MAX
    ensures Denotes(plat, format, f) && (Skipping(plat, f) <==> NoType in a.Types())
    ensures Writes(format, d, a, sys, all) && Enough(format, d)
    ensures all == RunFormat(plat, f, 0, sys, NOTHING) && all.text == Formatted(plat, f, 0, sys)
  {
    f := ParsedFormat(plat, format, |format|, START);
    AcceptableIff(plat, format, f);
    CompleteReady(plat, format, d, a);
    CompleteSkips(plat, format, f, d, a);
    CompleteServes(plat, format, f, d, a);
    CompleteWrites(plat, format, f, d, a, sys);
    all := RunFormat(plat, f, 0, sys, NOTHING);
  }

  /** Every format that renders to the string satisfies what one of them does. */
  lemma OnlyFormat(plat: Platform, format: string, f: Format)
    requires Denotes(plat, format, f) && Skipping(plat, f)
    ensures NoneUsable(plat, format)
  {
    forall g | Denotes(plat, format, g) ensures g == f {
      RenderInjective(g, f);
    }
  }

  lemma NoFormat(plat: Platform, format: string)
    requires Parse(plat, format, |format|, START).None?
    ensures NoneUsable(plat, format)
  {
    ParsesIff(plat, format);
  }

  /** No format that the string denotes uses all its arguments. */
  ghost predicate NoneUsable(plat: Platform, format: string) {
    forall g :: Denotes(plat, format, g) ==> Skipping(plat, g)
  }

  /** The parser, and what its success means for formatting. */
  method ParseAndPrepare(plat: Platform, format: string, sys: System, mem: Memory)
    returns (out: Outcome, d: Directives, a: Arguments, ghost f: Format, ghost all: Written)
    requires '\0' !in format && |format| < SIZE_MAX
    modifies mem
    ensures old(mem.calls) <= mem.calls
    ensures out.Fine? ==> Denotes(plat, format, f) && a.Valid() && (Skipping(plat, f) <==> NoType in a.Types())
    ensures out.Fine? ==> Writes(format, d, a, sys, all) && Enough(format, d)
    ensures out.Fine? ==> all == RunFormat(plat, f, 0, sys, NOTHING) && all.text == Formatted(plat, f, 0, sys)
    ensures out.Invalid? ==> NoneUsable(plat, format)
    ensures out.NoMemory? ==> mem.Refused(old(mem.calls)) || Oversized(format)
  {
    f, all := End(""), NOTHING;
    out, d, a := PrintfParse(plat, format, mem);
    if out.Invalid? {
      NoFormat(plat, format);
    }
    if out.Fine? {
      f, all := Prepare(plat, format, d, a, sys);
    }
  }

  /** Why there is not enough memory: a request was refused, or the size of the format string or of the output is
      too large. */
  datatype Reason = Refusal | FormatSize | OutputSize

  /** Formats by a format string: success, EINVAL or ENOMEM. */
  method Vasnprintf(plat: Platform, format: string, resultbuf: array<char>, sys: System, mem: Memory)
    returns (out: Outcome, r: Accumulator, counts: seq<nat>, ghost f: Format, ghost why: Reason)
    requires '\0' !in format && |format| < SIZE_MAX && resultbuf.Length < SIZE_MAX && Sized(sys)
    modifies mem, resultbuf
    ensures out.Fine? ==> Denotes(plat, format, f) && !Skipping(plat, f) && r.Valid()
    ensures out.Fine? ==> Written(r.Text(), counts) == RunFormat(plat, f, 0, sys, NOTHING)
    ensures out.Fine? ==> r.Text() == Formatted(plat, f, 0, sys)
    ensures out.Fine? ==> r.length < r.result.Length && r.result[r.length] == '\0'
    ensures out.Invalid? ==> NoneUsable(plat, format)
    ensures out.NoMemory? && why.Refusal? ==> mem.Refused(old(mem.calls))
    ensures out.NoMemory? && why.FormatSize? ==> Oversized(format)
    ensures out.NoMemory? && why.OutputSize? ==> Denotes(plat, format, f) && TooLong(|Formatted(plat, f, 0, sys)| + 1)
  {
    counts := [];
    var d, a;
    ghost var all;
    r := new Accumulator(resultbuf);
    out, d, a, f, all := ParseAndPrepare(plat, format, sys, mem);
    why := if mem.Refused(old(mem.calls)) then Refusal else FormatSize;
    if out.Fine? {
      ghost var since := mem.calls;
      out, counts := FetchAndFormat(format, d, a, r, sys, mem, all);
      if out.Invalid? {
        OnlyFormat(plat, format, f);
      }
      why := if mem.Refused(since) then Refusal else if Oversized(format) then FormatSize else OutputSize;
    }
  }
}
