/** What the directives of a format string ask for: which arguments, of which types. */
module PrintfArgs {
  import opened Wrappers
  import opened PrintfSyntax
  import opened Xsize

  /** No argument is consumed. */
  const ARG_NONE: nat := SIZE_MAX

  datatype ArgType =
    | NoType | SChar | UChar | Short | UShort | Int | UInt | LongInt | ULongInt | LongLongInt | ULongLongInt
    | Double | LongDouble | Char | WideChar | String | WideString | Pointer
    | CountSChar | CountShort | CountInt | CountLongInt | CountLongLongInt

  /** Sizes of int, long, intmax_t, size_t and ptrdiff_t. */
  datatype Platform = Platform(int_: nat, long_: nat, intmax: nat, size: nat, ptrdiff: nat)

  // ------------------------------------------------------------------------
  // The type of an argument
  // ------------------------------------------------------------------------

  /** The accumulated size specifiers: the three lowest bits of `flags`, and how often 8 has been added. */
  datatype SizeFlags = SizeFlags(bit0: bool, bit1: bool, bit2: bool, eights: nat)

  /** How often 8 is added for an integer type of the given size. */
  function Eights(plat: Platform, size: nat): nat {
    if size > plat.long_ then 2 else if size > plat.int_ then 1 else 0
  }

  function AddSize(plat: Platform, f: SizeFlags, c: char): SizeFlags {
    match c
    case 'h' => if f.bit0 then f.(bit1 := true) else f.(bit0 := true)
    case 'L' => f.(bit2 := true)
    case 'l' => f.(eights := f.eights + 1)
    case 'j' => f.(eights := f.eights + Eights(plat, plat.intmax))
    case 't' => f.(eights := f.eights + Eights(plat, plat.ptrdiff))
    case _ => f.(eights := f.eights + Eights(plat, plat.size))
  }

  const NO_FLAGS := SizeFlags(false, false, false, 0)

  function SizesFrom(plat: Platform, f: SizeFlags, sizes: string): SizeFlags
    decreases |sizes|
  {
    if sizes == "" then f else SizesFrom(plat, AddSize(plat, f, sizes[0]), sizes[1..])
  }

  /** One of five types, by size. */
  function BySize(f: SizeFlags, longlong: ArgType, long: ArgType, plain: ArgType, short: ArgType,
                  char_: ArgType): ArgType {
    if f.eights >= 2 || f.bit2 then longlong
    else if f.eights >= 1 then long
    else if f.bit1 then char_
    else if f.bit0 then short
    else plain
  }

  function TypeFor(f: SizeFlags, conv: char): ArgType {
    match conv
    case 'd' | 'i' => BySize(f, LongLongInt, LongInt, Int, Short, SChar)
    case 'o' | 'u' | 'x' | 'X' => BySize(f, ULongLongInt, ULongInt, UInt, UShort, UChar)
    case 'c' => if f.eights >= 1 then WideChar else Char
    case 'C' => WideChar
    case 's' => if f.eights >= 1 then WideString else String
    case 'S' => WideString
    case 'p' => Pointer
    case 'n' => BySize(f, CountLongLongInt, CountLongInt, CountInt, CountShort, CountSChar)
    case '%' => NoType
    case _ => if f.eights >= 2 || f.bit2 then LongDouble else Double
  }

  function TypeOf(plat: Platform, s: Spec): ArgType {
    TypeFor(SizesFrom(plat, NO_FLAGS, s.sizes), s.conv)
  }

  /** Kinds of integer types; a count is what "%n" stores. */
  datatype Kind = Signed | Unsigned | Count

  function IntegerKind(conv: char): Kind {
    if conv in {'d', 'i'} then Signed else if conv == 'n' then Count else Unsigned
  }

  /** The integer types by kind and size; short has two bytes. */
  function IntegerType(t: ArgType, plat: Platform, longlong: nat): Option<(Kind, nat)> {
    match t
    case SChar => Some((Signed, 1))
    case Short => Some((Signed, 2))
    case Int => Some((Signed, plat.int_))
    case LongInt => Some((Signed, plat.long_))
    case LongLongInt => Some((Signed, longlong))
    case UChar => Some((Unsigned, 1))
    case UShort => Some((Unsigned, 2))
    case UInt => Some((Unsigned, plat.int_))
    case ULongInt => Some((Unsigned, plat.long_))
    case ULongLongInt => Some((Unsigned, longlong))
    case CountSChar => Some((Count, 1))
    case CountShort => Some((Count, 2))
    case CountInt => Some((Count, plat.int_))
    case CountLongInt => Some((Count, plat.long_))
    case CountLongLongInt => Some((Count, longlong))
    case _ => None
  }

  /** The standard integer types, one of which every other one has the size of. */
  predicate SaneSizes(plat: Platform, longlong: nat) {
    plat.int_ <= plat.long_ <= longlong && {plat.intmax, plat.size, plat.ptrdiff} <= {plat.int_, plat.long_, longlong}
  }

  /** The type of an integer conversion with these size specifiers. */
  function SizedType(plat: Platform, longlong: nat, sizes: string, conv: char): Option<(Kind, nat)> {
    IntegerType(TypeFor(SizesFrom(plat, NO_FLAGS, sizes), conv), plat, longlong)
  }

  lemma OneSize(plat: Platform, c: char)
    ensures SizesFrom(plat, NO_FLAGS, [c]) == AddSize(plat, NO_FLAGS, c)
  {
    assert [c][1..] == [];
  }

  lemma TwoSizes(plat: Platform, c: char)
    ensures SizesFrom(plat, NO_FLAGS, [c, c]) == AddSize(plat, AddSize(plat, NO_FLAGS, c), c)
  {
    var f := AddSize(plat, NO_FLAGS, c);
    assert [c, c][1..] == [c] && [c][1..] == [];
    assert SizesFrom(plat, f, [c]) == AddSize(plat, f, c);
  }

  /** "hh" is for a char, "h" for a short, "l" and "ll" are for longer integers. */
  lemma FixedSizes(plat: Platform, longlong: nat, conv: char)
    requires conv in {'d', 'i', 'o', 'u', 'x', 'X', 'n'}
    ensures SizedType(plat, longlong, "", conv) == Some((IntegerKind(conv), plat.int_))
    ensures SizedType(plat, longlong, "h", conv) == Some((IntegerKind(conv), 2))
    ensures SizedType(plat, longlong, "hh", conv) == Some((IntegerKind(conv), 1))
    ensures SizedType(plat, longlong, "l", conv) == Some((IntegerKind(conv), plat.long_))
    ensures SizedType(plat, longlong, "ll", conv) == Some((IntegerKind(conv), longlong))
    ensures SizedType(plat, longlong, "L", conv) == Some((IntegerKind(conv), longlong))
  {
    OneSize(plat, 'h');
    TwoSizes(plat, 'h');
    OneSize(plat, 'l');
    TwoSizes(plat, 'l');
    OneSize(plat, 'L');
  }

  /** The other conversions: 'l' makes characters wide, 'L' makes floating point numbers long. */
  lemma OtherTypes(plat: Platform, conv: char)
    requires IsConversion(conv) && conv !in {'d', 'i', 'o', 'u', 'x', 'X', 'n'}
    ensures TypeFor(SizesFrom(plat, NO_FLAGS, ""), conv) ==
            if conv == 'c' then Char else if conv == 's' then String else if conv == 'p' then Pointer
            else if conv == 'C' then WideChar else if conv == 'S' then WideString
            else if conv == '%' then NoType else Double
    ensures conv == 'c' ==> TypeFor(SizesFrom(plat, NO_FLAGS, "l"), conv) == WideChar
    ensures conv == 's' ==> TypeFor(SizesFrom(plat, NO_FLAGS, "l"), conv) == WideString
    ensures conv in "fFeEgGaA" ==> TypeFor(SizesFrom(plat, NO_FLAGS, "L"), conv) == LongDouble
  {
    OneSize(plat, 'l');
    OneSize(plat, 'L');
  }

  /** Adding 8 as often as a size demands gives a type of that size. */
  lemma EightsSize(plat: Platform, longlong: nat, conv: char, size: nat)
    requires SaneSizes(plat, longlong) && conv in {'d', 'i', 'o', 'u', 'x', 'X', 'n'}
    requires size in {plat.int_, plat.long_, longlong}
    ensures IntegerType(TypeFor(NO_FLAGS.(eights := Eights(plat, size)), conv), plat, longlong)
            == Some((IntegerKind(conv), size))
  {
  }

  /** 'j' is for intmax_t, 'z' and 'Z' are for size_t, 't' is for ptrdiff_t. */
  lemma PlatformSizes(plat: Platform, longlong: nat, conv: char)
    requires SaneSizes(plat, longlong) && conv in {'d', 'i', 'o', 'u', 'x', 'X', 'n'}
    ensures SizedType(plat, longlong, "j", conv) == Some((IntegerKind(conv), plat.intmax))
    ensures SizedType(plat, longlong, "z", conv) == Some((IntegerKind(conv), plat.size))
    ensures SizedType(plat, longlong, "Z", conv) == Some((IntegerKind(conv), plat.size))
    ensures SizedType(plat, longlong, "t", conv) == Some((IntegerKind(conv), plat.ptrdiff))
  {
    OneSize(plat, 'j');
    OneSize(plat, 'z');
    OneSize(plat, 'Z');
    OneSize(plat, 't');
    EightsSize(plat, longlong, conv, plat.intmax);
    EightsSize(plat, longlong, conv, plat.size);
    EightsSize(plat, longlong, conv, plat.ptrdiff);
  }

  /** The conversion character that is stored. */
  function Stored(conv: char): char {
    match conv
    case 'C' => 'c'
    case 'S' => 's'
    case _ => conv
  }

  /** The types that the processing of a conversion can deal with; it aborts on any other. */
  predicate Processed(t: ArgType, conversion: char) {
    match t
    case NoType => false
    case CountSChar | CountShort | CountInt | CountLongInt | CountLongLongInt => conversion == 'n'
    case SChar | Short | Int | LongInt | LongLongInt => conversion in {'d', 'i'}
    case UChar | UShort | UInt | ULongInt | ULongLongInt => conversion in {'o', 'u', 'x', 'X'}
    case Double | LongDouble => conversion in {'f', 'F', 'e', 'E', 'g', 'G', 'a', 'A'}
    case Char | WideChar => conversion == 'c'
    case String | WideString => conversion == 's'
    case Pointer => conversion == 'p'
  }

  lemma TypeProcessed(plat: Platform, s: Spec)
    requires IsConversion(s.conv)
    ensures if s.conv == '%' then TypeOf(plat, s) == NoType else Processed(TypeOf(plat, s), Stored(s.conv))
  {
  }

  // ------------------------------------------------------------------------
  // Registering arguments
  // ------------------------------------------------------------------------

  function Unused(n: nat): (ts: seq<ArgType>)
    ensures |ts| == n && forall i :: 0 <= i < n ==> ts[i] == NoType
  {
    if n == 0 then [] else Unused(n - 1) + [NoType]
  }

  function Padded(ts: seq<ArgType>, n: nat): (r: seq<ArgType>)
    ensures n < |r| && |ts| <= |r|
  {
    if n < |ts| then ts else ts + Unused(n + 1 - |ts|)
  }

  /** Argument n is of type t; None if it already has another type. */
  function Register(ts: seq<ArgType>, n: nat, t: ArgType): Option<seq<ArgType>> {
    var r := Padded(ts, n);
    if r[n] == NoType then Some(r[n := t]) else if r[n] == t then Some(r) else None
  }

  function At(ts: seq<ArgType>, i: nat): ArgType {
    if i < |ts| then ts[i] else NoType
  }

  function Max(a: nat, b: nat): nat {
    if a < b then b else a
  }

  lemma RegisterAt(ts: seq<ArgType>, n: nat, t: ArgType)
    ensures Register(ts, n, t).Some? <==> At(ts, n) == NoType || At(ts, n) == t
    ensures Register(ts, n, t).Some? ==>
              && |Register(ts, n, t).value| == Max(|ts|, n + 1)
              && forall i :: At(Register(ts, n, t).value, i) == if i == n then t else At(ts, i)
  {
  }

  datatype Event = Event(index: nat, type_: ArgType)

  function RegisterAll(ts: seq<ArgType>, es: seq<Event>): Option<seq<ArgType>>
    decreases |es|
  {
    if es == [] then Some(ts)
    else match Register(ts, es[0].index, es[0].type_)
      case None => None
      case Some(r) => RegisterAll(r, es[1..])
  }

  /** No argument is used with two types. */
  ghost predicate Consistent(es: seq<Event>) {
    forall i, j :: 0 <= i < |es| && 0 <= j < |es| && es[i].index == es[j].index ==> es[i].type_ == es[j].type_
  }

  ghost predicate Compatible(ts: seq<ArgType>, es: seq<Event>) {
    forall i :: 0 <= i < |es| ==> At(ts, es[i].index) == NoType || At(ts, es[i].index) == es[i].type_
  }

  ghost predicate Typed(es: seq<Event>) {
    forall i :: 0 <= i < |es| ==> es[i].type_ != NoType
  }

  /** Registering succeeds exactly if the uses of every argument agree, with each other and with what is known. */
  lemma {:induction false} RegisterAllIff(ts: seq<ArgType>, es: seq<Event>)
    requires Typed(es)
    decreases |es|
    ensures RegisterAll(ts, es).Some? <==> Compatible(ts, es) && Consistent(es)
  {
    if es != [] {
      var e, tail := es[0], es[1..];
      RegisterAt(ts, e.index, e.type_);
      if Register(ts, e.index, e.type_).Some? {
        var r := Register(ts, e.index, e.type_).value;
        RegisterAllIff(r, tail);
        assert forall i :: 0 <= i < |tail| ==> tail[i] == es[i + 1];
        if Compatible(ts, es) && Consistent(es) {
          forall i | 0 <= i < |tail| ensures At(r, tail[i].index) == NoType || At(r, tail[i].index) == tail[i].type_ {
            assert tail[i] == es[i + 1];
          }
        }
        if Compatible(r, tail) && Consistent(tail) {
          AddEvent(ts, r, e, es);
        }
      } else {
        assert At(ts, es[0].index) != NoType;
      }
    }
  }

  lemma AddEvent(ts: seq<ArgType>, r: seq<ArgType>, e: Event, es: seq<Event>)
    requires es != [] && es[0] == e && Typed(es) && Compatible(r, es[1..]) && Consistent(es[1..])
    requires At(ts, e.index) == NoType || At(ts, e.index) == e.type_
    requires forall i :: At(r, i) == if i == e.index then e.type_ else At(ts, i)
    ensures Compatible(ts, es) && Consistent(es)
  {
    var tail := es[1..];
    forall i | 0 <= i < |es|
      ensures At(ts, es[i].index) == NoType || At(ts, es[i].index) == es[i].type_
      ensures es[i].index == e.index ==> es[i].type_ == e.type_
    {
      if i > 0 { assert es[i] == tail[i - 1]; }
    }
    forall i, j | 0 <= i < |es| && 0 <= j < |es| && es[i].index == es[j].index ensures es[i].type_ == es[j].type_ {
      if i > 0 && j > 0 { assert es[i] == tail[i - 1] && es[j] == tail[j - 1]; }
    }
  }

  ghost predicate Uses(es: seq<Event>, k: nat) {
    exists i :: 0 <= i < |es| && es[i].index == k
  }

  /** Afterwards every used argument has its type, and the others are as before. */
  lemma {:induction false} RegisteredTypes(ts: seq<ArgType>, es: seq<Event>)
    requires Typed(es) && RegisterAll(ts, es).Some?
    decreases |es|
    ensures var r := RegisterAll(ts, es).value;
            && (forall i :: 0 <= i < |es| ==> At(r, es[i].index) == es[i].type_)
            && (forall k: nat :: !Uses(es, k) ==> At(r, k) == At(ts, k))
            && (forall k: nat :: At(ts, k) != NoType ==> At(r, k) == At(ts, k))
  {
    if es != [] {
      var e, tail := es[0], es[1..];
      var r := Register(ts, e.index, e.type_).value;
      RegisterAt(ts, e.index, e.type_);
      RegisteredTypes(r, tail);
      var z := RegisterAll(ts, es).value;
      forall i | 0 <= i < |es| ensures At(z, es[i].index) == es[i].type_ {
        if i > 0 { assert es[i] == tail[i - 1]; }
      }
      forall k: nat | !Uses(es, k) ensures At(z, k) == At(ts, k) {
        assert es[0].index != k;
        assert forall i :: 0 <= i < |tail| ==> tail[i] == es[i + 1];
      }
    }
  }

  /** There are as many arguments as the largest index demands. */
  lemma {:induction false} RegisteredCount(ts: seq<ArgType>, es: seq<Event>)
    requires RegisterAll(ts, es).Some?
    decreases |es|
    ensures var n := |RegisterAll(ts, es).value|;
            && |ts| <= n && (forall i :: 0 <= i < |es| ==> es[i].index < n)
            && (n == |ts| || Uses(es, n - 1))
  {
    if es != [] {
      var tail := es[1..];
      var r := Register(ts, es[0].index, es[0].type_).value;
      RegisterAt(ts, es[0].index, es[0].type_);
      RegisteredCount(r, tail);
      var n := |RegisterAll(ts, es).value|;
      forall i | 0 <= i < |es| ensures es[i].index < n {
        if i > 0 { assert es[i] == tail[i - 1]; }
      }
      if n > |r| {
        var i :| 0 <= i < |tail| && tail[i].index == n - 1;
        assert es[i + 1].index == n - 1;
      }
    }
  }

  // ------------------------------------------------------------------------
  // Numbering the arguments
  // ------------------------------------------------------------------------

  /** An argument that a directive consumes. */
  datatype Request = Request(pos: Position, type_: ArgType)

  /** The number of regular arguments consumed, and the types of the arguments. */
  datatype Slots = Slots(posn: nat, types: seq<ArgType>)

  /** A written argument number must be positive and must not overflow. */
  predicate GoodNumber(p: Position) {
    p.Explicit? ==> 0 < DecimalValue(p.digits) < SIZE_MAX
  }

  /** The index of an argument; None stands for an error. */
  function Index(p: Position, posn: nat): Option<nat> {
    if !GoodNumber(p) || (p.Implicit? && posn == ARG_NONE) then None
    else Some(if p.Explicit? then DecimalValue(p.digits) - 1 else posn)
  }

  function PosnAfter(p: Position, posn: nat): nat {
    if p.Implicit? then posn + 1 else posn
  }

  datatype Taken = Taken(index: nat, slots: Slots)

  function Take(q: Request, s: Slots): Option<Taken> {
    match Index(q.pos, s.posn)
    case None => None
    case Some(n) =>
      match Register(s.types, n, q.type_)
      case None => None
      case Some(ts) => Some(Taken(n, Slots(PosnAfter(q.pos, s.posn), ts)))
  }

  function TakeStar(a: Option<Amount>, s: Slots): Option<Taken> {
    if a.Some? && a.value.Star? then Take(Request(a.value.pos, Int), s) else Some(Taken(ARG_NONE, s))
  }

  function TakeArg(plat: Platform, spec: Spec, s: Slots): Option<Taken> {
    if !GoodNumber(spec.pos) then None
    else if spec.conv == '%' then Some(Taken(ARG_NONE, s))
    else Take(Request(spec.pos, TypeOf(plat, spec)), s)
  }

  /** The three argument indices of a directive, and the slots after it. */
  datatype Placed = Placed(width: nat, precision: nat, arg: nat, slots: Slots)

  function Place(plat: Platform, spec: Spec, s: Slots): Option<Placed> {
    match TakeStar(spec.width, s)
    case None => None
    case Some(w) =>
      match TakeStar(spec.precision, w.slots)
      case None => None
      case Some(p) =>
        match TakeArg(plat, spec, p.slots)
        case None => None
        case Some(a) => Some(Placed(w.index, p.index, a.index, a.slots))
  }

  // ------------------------------------------------------------------------
  // The numbering does not depend on the registering
  // ------------------------------------------------------------------------

  function StarRequests(a: Option<Amount>): seq<Request> {
    if a.Some? && a.value.Star? then [Request(a.value.pos, Int)] else []
  }

  function ArgRequests(plat: Platform, s: Spec): seq<Request> {
    if s.conv == '%' then [] else [Request(s.pos, TypeOf(plat, s))]
  }

  /** What a directive asks for, in order. */
  function Requests(plat: Platform, s: Spec): seq<Request> {
    StarRequests(s.width) + StarRequests(s.precision) + ArgRequests(plat, s)
  }

  function AllRequests(plat: Platform, f: Format): seq<Request> {
    if f.End? then [] else Requests(plat, f.spec) + AllRequests(plat, f.more)
  }

  function Fulfil(qs: seq<Request>, s: Slots): Option<Slots> {
    if qs == [] then Some(s)
    else match Take(qs[0], s)
      case None => None
      case Some(t) => Fulfil(qs[1..], t.slots)
  }

  lemma {:induction false} FulfilAppend(qs: seq<Request>, rs: seq<Request>, s: Slots)
    ensures Fulfil(qs + rs, s) == match Fulfil(qs, s) case None => None case Some(t) => Fulfil(rs, t)
  {
    if qs == [] {
      assert qs + rs == rs;
    } else if Take(qs[0], s).Some? {
      assert (qs + rs)[1..] == qs[1..] + rs;
      FulfilAppend(qs[1..], rs, Take(qs[0], s).value.slots);
    }
  }

  lemma FulfilOne(q: Request, s: Slots)
    ensures Fulfil([q], s) == match Take(q, s) case None => None case Some(t) => Some(t.slots)
  {
    if Take(q, s).Some? {
      assert [q][1..] == [];
    }
  }

  /** The numbers of requests, given the number of regular arguments already consumed; None stands for an error. */
  function Numbered(qs: seq<Request>, posn: nat): Option<seq<Event>> {
    if qs == [] then Some([])
    else match Index(qs[0].pos, posn)
      case None => None
      case Some(n) =>
        match Numbered(qs[1..], PosnAfter(qs[0].pos, posn))
        case None => None
        case Some(es) => Some([Event(n, qs[0].type_)] + es)
  }

  /** How many of the first n requests are not numbered. */
  function Implicits(qs: seq<Request>, n: nat): nat
    requires n <= |qs|
  {
    if n == 0 then 0 else Implicits(qs, n - 1) + if qs[n - 1].pos.Implicit? then 1 else 0
  }

  /** The index of the argument for request i: the written number less one, or the number of requests before it that
      are not numbered. */
  function ArgIndex(qs: seq<Request>, i: nat): nat
    requires i < |qs| && GoodNumber(qs[i].pos)
  {
    if qs[i].pos.Explicit? then DecimalValue(qs[i].pos.digits) - 1 else Implicits(qs, i)
  }

  /** The written numbers are good, and the others do not overflow. */
  ghost predicate Numberable(qs: seq<Request>) {
    forall i :: 0 <= i < |qs| ==> GoodNumber(qs[i].pos) && (qs[i].pos.Implicit? ==> Implicits(qs, i) != ARG_NONE)
  }

  /** The uses of arguments by requests. */
  ghost function Indexed(qs: seq<Request>): (es: seq<Event>)
    requires Numberable(qs)
    ensures |es| == |qs| && forall i :: 0 <= i < |qs| ==> es[i] == Event(ArgIndex(qs, i), qs[i].type_)
  {
    seq(|qs|, i requires 0 <= i < |qs| => Event(ArgIndex(qs, i), qs[i].type_))
  }

  lemma {:induction false} NumberedFrom(qs: seq<Request>, k: nat)
    requires k <= |qs|
    decreases |qs| - k
    ensures var o := Numbered(qs[k..], Implicits(qs, k));
            && (o.Some? <==> forall i :: k <= i < |qs| ==>
                  GoodNumber(qs[i].pos) && (qs[i].pos.Implicit? ==> Implicits(qs, i) != ARG_NONE))
            && (o.Some? ==> |o.value| == |qs| - k && forall i :: k <= i < |qs| ==>
                  o.value[i - k] == Event(ArgIndex(qs, i), qs[i].type_))
  {
    if k < |qs| {
      assert qs[k..][0] == qs[k] && qs[k..][1..] == qs[k + 1..];
      NumberedFrom(qs, k + 1);
    }
  }

  /** Numbering the requests one after another gives those uses. */
  lemma NumberedIs(qs: seq<Request>)
    ensures Numbered(qs, 0) == if Numberable(qs) then Some(Indexed(qs)) else None
  {
    NumberedFrom(qs, 0);
    assert qs[0..] == qs;
    if Numberable(qs) {
      assert Numbered(qs, 0).value == Indexed(qs);
    }
  }

  lemma {:induction false} FulfilIff(qs: seq<Request>, s: Slots)
    ensures Fulfil(qs, s).Some?
            <==> Numbered(qs, s.posn).Some? && RegisterAll(s.types, Numbered(qs, s.posn).value).Some?
    ensures Fulfil(qs, s).Some? ==> Some(Fulfil(qs, s).value.types) == RegisterAll(s.types, Numbered(qs, s.posn).value)
  {
    if qs != [] && Index(qs[0].pos, s.posn).Some? {
      var n, posn := Index(qs[0].pos, s.posn).value, PosnAfter(qs[0].pos, s.posn);
      if Numbered(qs[1..], posn).Some? {
        var es := Numbered(qs[1..], posn).value;
        assert ([Event(n, qs[0].type_)] + es)[1..] == es;
      }
      if Take(qs[0], s).Some? {
        FulfilIff(qs[1..], Take(qs[0], s).value.slots);
      }
    }
  }

  lemma PlaceFulfils(plat: Platform, spec: Spec, s: Slots)
    ensures Place(plat, spec, s).Some? <==> GoodNumber(spec.pos) && Fulfil(Requests(plat, spec), s).Some?
    ensures Place(plat, spec, s).Some? ==> Fulfil(Requests(plat, spec), s) == Some(Place(plat, spec, s).value.slots)
  {
    var a, b, c := StarRequests(spec.width), StarRequests(spec.precision), ArgRequests(plat, spec);
    FulfilAppend(a + b, c, s);
    FulfilAppend(a, b, s);
    StarFulfils(spec.width, s);
    if TakeStar(spec.width, s).Some? {
      var s1 := TakeStar(spec.width, s).value.slots;
      StarFulfils(spec.precision, s1);
      if TakeStar(spec.precision, s1).Some? {
        ArgFulfils(plat, spec, TakeStar(spec.precision, s1).value.slots);
      }
    }
  }

  lemma StarFulfils(a: Option<Amount>, s: Slots)
    ensures Fulfil(StarRequests(a), s) == match TakeStar(a, s) case None => None case Some(t) => Some(t.slots)
  {
    if a.Some? && a.value.Star? {
      FulfilOne(Request(a.value.pos, Int), s);
    }
  }

  lemma ArgFulfils(plat: Platform, spec: Spec, s: Slots)
    ensures TakeArg(plat, spec, s).Some? <==> GoodNumber(spec.pos) && Fulfil(ArgRequests(plat, spec), s).Some?
    ensures TakeArg(plat, spec, s).Some? ==>
              Fulfil(ArgRequests(plat, spec), s) == Some(TakeArg(plat, spec, s).value.slots)
  {
    if spec.conv != '%' {
      FulfilOne(Request(spec.pos, TypeOf(plat, spec)), s);
    }
  }
}
