/** The language of format strings, and a scanner for it: scanning undoes rendering. */
module PrintfSyntax {
  import opened Wrappers

  // ------------------------------------------------------------------------
  // Directives as syntax
  // ------------------------------------------------------------------------

  /** Which argument is meant: the next one, or the one numbered by the digits in front of a '$'. */
  datatype Position = Implicit | Explicit(digits: string)

  /** A field width or a precision. */
  datatype Amount = Star(pos: Position) | Number(digits: string)

  datatype Spec = Spec(pos: Position, flags: string, width: Option<Amount>, precision: Option<Amount>, sizes: string,
                       conv: char)

  /** Plain text and directives in turn. */
  datatype Format = End(text: string) | Then(text: string, spec: Spec, more: Format)

  predicate IsDigit(c: char) {
    '0' <= c <= '9'
  }

  predicate IsFlag(c: char) {
    c in {'\'', '-', '+', ' ', '#', '0'}
  }

  predicate IsSize(c: char) {
    c in {'h', 'L', 'l', 'j', 'z', 'Z', 't'}
  }

  predicate IsConversion(c: char) {
    c in {'d', 'i', 'o', 'u', 'x', 'X', 'f', 'F', 'e', 'E', 'g', 'G', 'a', 'A', 'c', 'C', 's', 'S', 'p', 'n', '%'}
  }

  /** The classes of characters that are scanned in runs. */
  datatype Class = ADigit | AFlag | ASize

  predicate In(cls: Class, c: char) {
    match cls
    case ADigit => IsDigit(c)
    case AFlag => IsFlag(c)
    case ASize => IsSize(c)
  }

  /** The characters of the grammar. */
  lemma Alphabet(c: char)
    ensures In(ADigit, c) <==> c in "0123456789"
    ensures In(AFlag, c) <==> c in "'-+ #0"
    ensures In(ASize, c) <==> c in "hlLjztZ"
    ensures IsConversion(c) <==> c in "diouxXfFeEgGaAcCsSpn%"
  {
    if In(ADigit, c) {
      assert c == "0123456789"[c as int - '0' as int];
    }
  }

  predicate All(cls: Class, t: string) {
    forall i :: 0 <= i < |t| ==> In(cls, t[i])
  }

  predicate GoodPosition(p: Position) {
    p.Explicit? ==> p.digits != "" && All(ADigit, p.digits)
  }

  predicate GoodWidth(w: Option<Amount>) {
    match w
    case None => true
    case Some(Star(p)) => GoodPosition(p)
    case Some(Number(ds)) => ds != "" && ds[0] != '0' && All(ADigit, ds)
  }

  predicate GoodPrecision(p: Option<Amount>) {
    match p
    case None => true
    case Some(Star(q)) => GoodPosition(q)
    case Some(Number(ds)) => All(ADigit, ds)
  }

  predicate GoodSpec(s: Spec) {
    && GoodPosition(s.pos) && All(AFlag, s.flags) && GoodWidth(s.width) && GoodPrecision(s.precision)
    && All(ASize, s.sizes) && IsConversion(s.conv)
  }

  predicate GoodText(t: string) {
    '%' !in t
  }

  predicate GoodFormat(f: Format) {
    GoodText(f.text) && (f.Then? ==> GoodSpec(f.spec) && GoodFormat(f.more))
  }

  // ------------------------------------------------------------------------
  // Rendering
  // ------------------------------------------------------------------------

  function RenderPosition(p: Position, rest: string): string {
    match p
    case Implicit => rest
    case Explicit(ds) => ds + ("$" + rest)
  }

  function RenderAmount(a: Amount, rest: string): string {
    match a
    case Star(p) => "*" + RenderPosition(p, rest)
    case Number(ds) => ds + rest
  }

  function RenderWidth(w: Option<Amount>, rest: string): string {
    if w.None? then rest else RenderAmount(w.value, rest)
  }

  function RenderPrecision(p: Option<Amount>, rest: string): string {
    if p.None? then rest else "." + RenderAmount(p.value, rest)
  }

  function RenderSizes(s: Spec, rest: string): string {
    s.sizes + ([s.conv] + rest)
  }

  /** A directive without its '%', followed by rest. */
  function RenderSpec(s: Spec, rest: string): string {
    RenderPosition(s.pos, s.flags + RenderWidth(s.width, RenderPrecision(s.precision, RenderSizes(s, rest))))
  }

  function Render(f: Format): string {
    match f
    case End(text) => text
    case Then(text, spec, more) => text + ("%" + RenderSpec(spec, Render(more)))
  }

  // ------------------------------------------------------------------------
  // Scanning
  // ------------------------------------------------------------------------

  /** The longest prefix of characters of a class. */
  function Prefix(cls: Class, t: string): (p: string)
    ensures |p| <= |t| && p == t[..|p|] && All(cls, p)
    ensures |p| < |t| ==> !In(cls, t[|p|])
  {
    if t == "" || !In(cls, t[0]) then "" else [t[0]] + Prefix(cls, t[1..])
  }

  /** What was scanned, and the rest of the text. */
  datatype Scanned<T> = Scanned(value: T, rest: string)

  /** The next character; NUL at the end of the text. */
  function Next(t: string): char {
    if t == "" then '\0' else t[0]
  }

  function ScanPosition(t: string): (r: Scanned<Position>)
    ensures |r.rest| <= |t|
  {
    var ds := Prefix(ADigit, t);
    if ds != "" && Next(t[|ds|..]) == '$' then Scanned(Explicit(ds), t[|ds| + 1..]) else Scanned(Implicit, t)
  }

  function ScanStar(t: string): (r: Scanned<Option<Amount>>)
    ensures |r.rest| <= |t|
  {
    var p := ScanPosition(t);
    Scanned(Some(Star(p.value)), p.rest)
  }

  function ScanWidth(t: string): (r: Scanned<Option<Amount>>)
    ensures |r.rest| <= |t|
  {
    if Next(t) == '*' then ScanStar(t[1..])
    else
      var ds := Prefix(ADigit, t);
      Scanned(if ds == "" then None else Some(Number(ds)), t[|ds|..])
  }

  function ScanPrecision(t: string): (r: Scanned<Option<Amount>>)
    ensures |r.rest| <= |t|
  {
    if Next(t) != '.' then Scanned(None, t)
    else if Next(t[1..]) == '*' then ScanStar(t[2..])
    else
      var ds := Prefix(ADigit, t[1..]);
      Scanned(Some(Number(ds)), t[1 + |ds|..])
  }

  /** The size specifiers and the conversion character. */
  function ScanConversion(pos: Position, flags: string, width: Option<Amount>, precision: Option<Amount>,
                          t: string): (r: Option<Scanned<Spec>>)
    ensures r.Some? ==> |r.value.rest| < |t|
  {
    var sizes := Prefix(ASize, t);
    var u := t[|sizes|..];
    if u == "" || !IsConversion(u[0]) then None
    else Some(Scanned(Spec(pos, flags, width, precision, sizes, u[0]), u[1..]))
  }

  /** Scans a directive behind its '%'. */
  function ScanSpec(t: string): (r: Option<Scanned<Spec>>)
    ensures r.Some? ==> |r.value.rest| < |t|
  {
    var p := ScanPosition(t);
    var flags := Prefix(AFlag, p.rest);
    var w := ScanWidth(p.rest[|flags|..]);
    var q := ScanPrecision(w.rest);
    ScanConversion(p.value, flags, w.value, q.value, q.rest)
  }

  /** What the stages of scanning a directive yield. */
  predicate Stages(t: string, p: Scanned<Position>, flags: string, u: string, w: Scanned<Option<Amount>>,
                   q: Scanned<Option<Amount>>) {
    && p == ScanPosition(t) && flags == Prefix(AFlag, p.rest) && p.rest == flags + u
    && w == ScanWidth(u) && q == ScanPrecision(w.rest)
  }

  lemma ScanStages(t: string, p: Scanned<Position>, flags: string, u: string, w: Scanned<Option<Amount>>,
                   q: Scanned<Option<Amount>>)
    requires Stages(t, p, flags, u, w, q)
    ensures ScanSpec(t) == ScanConversion(p.value, flags, w.value, q.value, q.rest)
  {
    assert p.rest[|flags|..] == u;
  }

  // ------------------------------------------------------------------------
  // Every scanned directive renders to what was scanned
  // ------------------------------------------------------------------------

  lemma PositionSound(t: string)
    ensures var r := ScanPosition(t); GoodPosition(r.value) && t == RenderPosition(r.value, r.rest)
  {
    var n := |Prefix(ADigit, t)|;
    if ScanPosition(t).value.Explicit? {
      assert t == t[..n] + ([t[n]] + t[n + 1..]);
    }
  }

  lemma WidthSound(t: string)
    requires t != "" ==> !IsFlag(t[0])
    ensures var r := ScanWidth(t); GoodWidth(r.value) && t == RenderWidth(r.value, r.rest)
  {
    if Next(t) == '*' {
      PositionSound(t[1..]);
      assert t == "*" + t[1..];
    } else {
      var ds := Prefix(ADigit, t);
      assert t == ds + t[|ds|..];
    }
  }

  lemma PrecisionSound(t: string)
    ensures var r := ScanPrecision(t); GoodPrecision(r.value) && t == RenderPrecision(r.value, r.rest)
  {
    if Next(t) == '.' {
      var u := t[1..];
      assert t == "." + u;
      if Next(u) == '*' {
        PositionSound(u[1..]);
        assert u == "*" + u[1..] && u[1..] == t[2..];
      } else {
        var ds := Prefix(ADigit, u);
        assert u == ds + u[|ds|..] && u[|ds|..] == t[1 + |ds|..];
      }
    }
  }

  lemma ConversionSound(pos: Position, flags: string, width: Option<Amount>, precision: Option<Amount>, t: string)
    requires ScanConversion(pos, flags, width, precision, t).Some?
    ensures var r := ScanConversion(pos, flags, width, precision, t).value;
            t == RenderSizes(r.value, r.rest) && All(ASize, r.value.sizes) && IsConversion(r.value.conv)
  {
    var n := |Prefix(ASize, t)|;
    assert t == t[..n] + ([t[n]] + t[n + 1..]);
  }

  lemma ScanSound(t: string)
    requires ScanSpec(t).Some?
    ensures var r := ScanSpec(t).value; GoodSpec(r.value) && t == RenderSpec(r.value, r.rest)
  {
    var p := ScanPosition(t);
    var flags := Prefix(AFlag, p.rest);
    var u := p.rest[|flags|..];
    var w := ScanWidth(u);
    var q := ScanPrecision(w.rest);
    PositionSound(t);
    assert p.rest == flags + u;
    WidthSound(u);
    PrecisionSound(w.rest);
    ConversionSound(p.value, flags, w.value, q.value, q.rest);
  }

  // ------------------------------------------------------------------------
  // Every good directive is scanned as itself
  // ------------------------------------------------------------------------

  lemma {:induction false} PrefixOf(cls: Class, a: string, b: string)
    requires All(cls, a) && (b != "" ==> !In(cls, b[0]))
    ensures Prefix(cls, a + b) == a && (a + b)[|a|..] == b
  {
    if a == "" {
      assert a + b == b;
    } else {
      assert (a + b)[1..] == a[1..] + b;
      PrefixOf(cls, a[1..], b);
    }
  }

  /** The first character that is no digit. */
  function PastDigits(t: string): char {
    Next(t[|Prefix(ADigit, t)|..])
  }

  lemma {:induction false} SkipOne(c: char, t: string)
    ensures PastDigits([c] + t) == if IsDigit(c) then PastDigits(t) else c
  {
    assert ([c] + t)[1..] == t;
    if IsDigit(c) {
      var ds := Prefix(ADigit, t);
      assert ([c] + t)[|[c] + ds|..] == t[|ds|..];
    }
  }

  lemma {:induction false} SkipAll(a: string, t: string)
    requires (forall i :: 0 <= i < |a| ==> a[i] != '$') && PastDigits(t) != '$'
    ensures PastDigits(a + t) != '$'
  {
    if a == "" {
      assert a + t == t;
    } else {
      SkipAll(a[1..], t);
      SkipOne(a[0], a[1..] + t);
      assert a + t == [a[0]] + (a[1..] + t);
    }
  }

  lemma PositionComplete(p: Position, rest: string)
    requires GoodPosition(p) && (p.Implicit? ==> PastDigits(rest) != '$')
    ensures ScanPosition(RenderPosition(p, rest)) == Scanned(p, rest)
  {
    if p.Explicit? {
      var ds, t := p.digits, p.digits + ("$" + rest);
      PrefixOf(ADigit, ds, "$" + rest);
      assert t[|ds| + 1..] == t[|ds|..][1..] == rest;
    }
  }

  /** What comes after a width or a precision starts with no digit. */
  predicate Closed(t: string) {
    t != "" && !IsDigit(t[0]) && t[0] != '$'
  }

  lemma ClosedSkips(t: string)
    requires Closed(t)
    ensures PastDigits(t) != '$' && Prefix(ADigit, t) == ""
  {
  }

  lemma SizesClosed(s: Spec, rest: string)
    requires GoodSpec(s)
    ensures var t := RenderSizes(s, rest); Closed(t) && t[0] != '.' && t[0] != '*' && !IsFlag(t[0])
  {
    if s.sizes != "" {
      assert RenderSizes(s, rest)[0] == s.sizes[0];
    }
  }

  lemma AmountComplete(p: Position, rest: string)
    requires GoodPosition(p) && Closed(rest)
    ensures ScanStar(RenderPosition(p, rest)) == Scanned(Some(Star(p)), rest)
  {
    ClosedSkips(rest);
    PositionComplete(p, rest);
  }

  lemma PrecisionComplete(p: Option<Amount>, rest: string)
    requires GoodPrecision(p) && Closed(rest) && rest[0] != '.' && rest[0] != '*'
    ensures ScanPrecision(RenderPrecision(p, rest)) == Scanned(p, rest)
  {
    if p.Some? {
      var t := RenderPrecision(p, rest);
      var u := RenderAmount(p.value, rest);
      assert t == "." + u && t[1..] == u;
      if p.value.Star? {
        AmountComplete(p.value.pos, rest);
        assert t[2..] == u[1..] == RenderPosition(p.value.pos, rest);
      } else {
        var ds := p.value.digits;
        PrefixOf(ADigit, ds, rest);
        assert Next(u) != '*' by { if ds != "" { assert u[0] == ds[0] && IsDigit(ds[0]); } else { assert u == rest; } }
        assert t[1 + |ds|..] == u[|ds|..];
      }
    }
  }

  lemma PrecisionClosed(p: Option<Amount>, rest: string)
    requires Closed(rest) && rest[0] != '*' && !IsFlag(rest[0])
    ensures var t := RenderPrecision(p, rest); Closed(t) && t[0] != '*' && !IsFlag(t[0])
  {
  }

  lemma WidthComplete(w: Option<Amount>, rest: string)
    requires GoodWidth(w) && Closed(rest) && rest[0] != '*'
    ensures ScanWidth(RenderWidth(w, rest)) == Scanned(w, rest)
  {
    if w.Some? {
      var t := RenderWidth(w, rest);
      if w.value.Star? {
        AmountComplete(w.value.pos, rest);
        assert t[1..] == RenderPosition(w.value.pos, rest);
      } else {
        assert t[0] == w.value.digits[0] && IsDigit(w.value.digits[0]);
        PrefixOf(ADigit, w.value.digits, rest);
      }
    }
  }

  /** A width does not look like a flag, nor like the number of an argument. */
  lemma WidthOpens(w: Option<Amount>, rest: string)
    requires GoodWidth(w) && Closed(rest) && !IsFlag(rest[0])
    ensures var t := RenderWidth(w, rest); t != "" && !IsFlag(t[0]) && PastDigits(t) != '$'
  {
    ClosedSkips(rest);
    if w.Some? {
      var t := RenderWidth(w, rest);
      if w.value.Star? {
        assert t[0] == '*';
      } else {
        var ds := w.value.digits;
        assert t[0] == ds[0] && IsDigit(ds[0]);
        SkipAll(ds, rest);
      }
    }
  }

  lemma ScanComplete(s: Spec, rest: string)
    requires GoodSpec(s)
    ensures ScanSpec(RenderSpec(s, rest)) == Some(Scanned(s, rest))
  {
    var t4 := RenderSizes(s, rest);
    var t3 := RenderPrecision(s.precision, t4);
    var t2 := RenderWidth(s.width, t3);
    SizesClosed(s, rest);
    PrecisionClosed(s.precision, t4);
    WidthOpens(s.width, t3);
    SkipAll(s.flags, t2);
    PositionComplete(s.pos, s.flags + t2);
    PrefixOf(AFlag, s.flags, t2);
    WidthComplete(s.width, t3);
    PrecisionComplete(s.precision, t4);
    ConversionComplete(s, rest);
  }

  lemma ConversionComplete(s: Spec, rest: string)
    requires GoodSpec(s)
    ensures ScanConversion(s.pos, s.flags, s.width, s.precision, RenderSizes(s, rest)) == Some(Scanned(s, rest))
  {
    PrefixOf(ASize, s.sizes, [s.conv] + rest);
  }

  /** A directive and what follows it can be read in one way only. */
  lemma UniquelyReadable(s: Spec, rest: string, s': Spec, rest': string)
    requires GoodSpec(s) && GoodSpec(s') && RenderSpec(s, rest) == RenderSpec(s', rest')
    ensures s == s' && rest == rest'
  {
    ScanComplete(s, rest);
    ScanComplete(s', rest');
  }

  lemma SameText(a: string, x: string, b: string, y: string)
    requires GoodText(a) && GoodText(b) && a + x == b + y
    requires (x != "" ==> x[0] == '%') && (y != "" ==> y[0] == '%')
    ensures a == b && x == y
  {
    NotShorter(a, x, b, y);
    NotShorter(b, y, a, x);
    assert a == (a + x)[..|a|] == b;
    assert x == (a + x)[|a|..] == y;
  }

  lemma NotShorter(a: string, x: string, b: string, y: string)
    requires GoodText(b) && a + x == b + y && (x != "" ==> x[0] == '%')
    ensures |a| >= |b|
  {
    Onset(a, x);
    Within(b, y, |a|);
  }

  lemma Onset(a: string, x: string)
    ensures x != "" ==> (a + x)[|a|] == x[0]
  {
  }

  lemma Within(a: string, x: string, k: nat)
    ensures k < |a| ==> (a + x)[k] == a[k]
  {
  }

  /** A format string can be read in one way only. */
  lemma {:induction false} RenderInjective(f: Format, g: Format)
    requires GoodFormat(f) && GoodFormat(g) && Render(f) == Render(g)
    ensures f == g
  {
    var x := if f.End? then "" else "%" + RenderSpec(f.spec, Render(f.more));
    var y := if g.End? then "" else "%" + RenderSpec(g.spec, Render(g.more));
    assert f.text + "" == f.text && g.text + "" == g.text;
    SameText(f.text, x, g.text, y);
    if f.Then? && g.Then? {
      assert x[1..] == RenderSpec(f.spec, Render(f.more)) && y[1..] == RenderSpec(g.spec, Render(g.more));
      UniquelyReadable(f.spec, Render(f.more), g.spec, Render(g.more));
      RenderInjective(f.more, g.more);
    }
  }
}
