/** Expanding the system dependent strings of a catalogue: one pass that measures, one that fills. */
module SysdepStrings {
  import opened Wrappers

  /** A static segment of the given size, and the system dependent segment behind it; None stands for SEGMENTS_END. */
  datatype Segment = Segment(segsize: nat, sysdepref: Option<nat>)

  /** A string in the file: the bytes of its static segments, and its segment pairs. */
  datatype Source = Source(bytes: string, segments: seq<Segment>)

  /** sysdep_segment_values: NULL for a segment that is not defined on this system. */
  type Values = seq<Option<string>>

  /** The size of the first p static segments. */
  function Offset(s: Source, p: nat): nat
    requires p <= |s.segments|
  {
    if p == 0 then 0 else Offset(s, p - 1) + s.segments[p - 1].segsize
  }

  /** The segment list ends with its only SEGMENTS_END, and the static segments are there. */
  ghost predicate WellFormed(s: Source) {
    && s.segments != []
    && (forall i :: 0 <= i < |s.segments| ==> (s.segments[i].sysdepref == None <==> i == |s.segments| - 1))
    && Offset(s, |s.segments|) <= |s.bytes|
  }

  lemma {:induction false} OffsetFits(s: Source, p: nat, q: nat)
    requires p <= q <= |s.segments|
    ensures Offset(s, p) <= Offset(s, q)
    decreases q
  {
    if p < q {
      OffsetFits(s, p, q - 1);
    }
  }

  /** The value of the system dependent segment in pair p is known. */
  predicate DefinedAt(s: Source, values: Values, p: nat) {
    p < |s.segments| &&
    match s.segments[p].sysdepref
    case None => true
    case Some(r) => r < |values| && values[r].Some?
  }

  predicate InRange(s: Source, values: Values, p: nat) {
    p < |s.segments| && match s.segments[p].sysdepref case None => true case Some(r) => r < |values|
  }

  ghost predicate Defined(s: Source, values: Values) {
    forall p :: 0 <= p < |s.segments| ==> DefinedAt(s, values, p)
  }

  /** The text of the first p pairs of a static and a system segment. */
  function Text(s: Source, values: Values, p: nat): string
    requires p <= |s.segments| && Offset(s, p) <= |s.bytes|
    requires forall i :: 0 <= i < p ==> DefinedAt(s, values, i)
  {
    if p == 0 then ""
    else
      OffsetFits(s, p - 1, p);
      assert DefinedAt(s, values, p - 1);
      var d := s.segments[p - 1];
      Text(s, values, p - 1) + s.bytes[Offset(s, p - 1)..Offset(s, p)]
      + if d.sysdepref == None then "" else values[d.sysdepref.value].value
  }

  function Whole(s: Source, values: Values): string
    requires WellFormed(s) && Defined(s, values)
  {
    Text(s, values, |s.segments|)
  }

  /** The system segment of pair i. */
  function ValueAt(s: Source, values: Values, i: nat): string
    requires i < |s.segments| && DefinedAt(s, values, i)
  {
    match s.segments[i].sysdepref
    case None => ""
    case Some(r) => values[r].value
  }

  /** Where pair p begins in the expanded string. */
  function PairPlace(s: Source, values: Values, p: nat): nat
    requires p <= |s.segments| && forall i :: 0 <= i < p ==> DefinedAt(s, values, i)
  {
    if p == 0 then 0 else PairPlace(s, values, p - 1) + s.segments[p - 1].segsize + |ValueAt(s, values, p - 1)|
  }

  /** At the place of pair i there is its static segment, and its system segment right behind. */
  ghost predicate PairAt(t: string, s: Source, values: Values, i: nat)
    requires WellFormed(s) && Defined(s, values) && i < |s.segments|
  {
    var a := PairPlace(s, values, i);
    var b := a + s.segments[i].segsize;
    var c := b + |ValueAt(s, values, i)|;
    && c <= |t| && Offset(s, i + 1) <= |s.bytes|
    && t[a..b] == s.bytes[Offset(s, i)..Offset(s, i + 1)] && t[b..c] == ValueAt(s, values, i)
  }

  /** t consists of the static and the system segments in turn. */
  ghost predicate Expansion(t: string, s: Source, values: Values)
    requires WellFormed(s) && Defined(s, values)
  {
    |t| == PairPlace(s, values, |s.segments|) && forall i :: 0 <= i < |s.segments| ==> PairAt(t, s, values, i)
  }

  lemma {:induction false} TextLength(s: Source, values: Values, p: nat)
    requires WellFormed(s) && Defined(s, values) && p <= |s.segments| && Offset(s, p) <= |s.bytes|
    ensures |Text(s, values, p)| == PairPlace(s, values, p)
    decreases p
  {
    if p > 0 {
      OffsetFits(s, p - 1, p);
      TextLength(s, values, p - 1);
      assert DefinedAt(s, values, p - 1);
    }
  }

  lemma TextPair(s: Source, values: Values, p: nat)
    requires WellFormed(s) && Defined(s, values) && p < |s.segments| && Offset(s, p + 1) <= |s.bytes|
    ensures Offset(s, p) <= |s.bytes| && PairAt(Text(s, values, p + 1), s, values, p)
  {
    OffsetFits(s, p, p + 1);
    TextLength(s, values, p);
    assert DefinedAt(s, values, p);
  }

  lemma {:induction false} TextStarts(s: Source, values: Values, p: nat, q: nat)
    requires WellFormed(s) && Defined(s, values) && p <= q <= |s.segments| && Offset(s, q) <= |s.bytes|
    ensures Offset(s, p) <= |s.bytes| && Text(s, values, p) <= Text(s, values, q)
    decreases q
  {
    if p < q {
      OffsetFits(s, q - 1, q);
      TextStarts(s, values, p, q - 1);
      assert DefinedAt(s, values, q - 1);
    }
  }

  lemma PairLonger(t: string, u: string, s: Source, values: Values, i: nat)
    requires WellFormed(s) && Defined(s, values) && i < |s.segments| && PairAt(t, s, values, i) && t <= u
    ensures PairAt(u, s, values, i)
  {
    var a := PairPlace(s, values, i);
    var b := a + s.segments[i].segsize;
    var c := b + |ValueAt(s, values, i)|;
    assert u[a..b] == t[a..b] && u[b..c] == t[b..c];
  }

  /** The expanded string is the one that consists of the segments. */
  lemma WholeExpansion(s: Source, values: Values)
    requires WellFormed(s) && Defined(s, values)
    ensures Expansion(Whole(s, values), s, values)
  {
    TextLength(s, values, |s.segments|);
    forall i | 0 <= i < |s.segments| ensures PairAt(Whole(s, values), s, values, i) {
      OffsetFits(s, i + 1, |s.segments|);
      TextPair(s, values, i);
      TextStarts(s, values, i + 1, |s.segments|);
      PairLonger(Text(s, values, i + 1), Whole(s, values), s, values, i);
    }
  }

  /** The memory for the expanded string; a single static segment is used where it is. */
  function Need(s: Source, values: Values): nat
    requires WellFormed(s) && Defined(s, values)
  {
    if |s.segments| == 1 then 0 else |Whole(s, values)|
  }

  /** The outcome of looking at a string: it refers to a segment that does not exist, or to one that is not
      defined, or it can be expanded and needs some memory. */
  datatype Verdict = Corrupt | Undefined | Needs(need: nat)

  ghost predicate VerdictIs(s: Source, values: Values, v: Verdict)
    requires WellFormed(s)
  {
    match v
    case Needs(need) =>
      Defined(s, values) && need == Need(s, values)
    case Undefined =>
      exists p :: 0 <= p < |s.segments| && StopsAt(s, values, p) && InRange(s, values, p)
    case Corrupt =>
      exists p :: 0 <= p < |s.segments| && StopsAt(s, values, p) && !InRange(s, values, p)
  }

  /** p is the first pair whose value is not known. */
  ghost predicate StopsAt(s: Source, values: Values, p: nat) {
    p < |s.segments| && !DefinedAt(s, values, p) && forall i :: 0 <= i < p ==> DefinedAt(s, values, i)
  }

  /** The measuring loop for one string. */
  method MeasureString(s: Source, values: Values) returns (v: Verdict)
    requires WellFormed(s)
    ensures VerdictIs(s, values, v)
  {
    var need, p := 0, 0;
    if s.segments[p].sysdepref != None {
      while true
        invariant 0 <= p < |s.segments| && forall i :: 0 <= i < p ==> DefinedAt(s, values, i)
        invariant need == PairPlace(s, values, p) && |s.segments| > 1
        decreases |s.segments| - p
      {
        need := need + s.segments[p].segsize;
        var sysdepref := s.segments[p].sysdepref;
        if sysdepref == None {
          break;
        }
        if sysdepref.value >= |values| {
          assert StopsAt(s, values, p);
          return Corrupt;
        }
        if values[sysdepref.value] == None {
          assert StopsAt(s, values, p);
          return Undefined;
        }
        need := need + |values[sysdepref.value].value|;
        p := p + 1;
      }
    }
    assert DefinedAt(s, values, p);
    TextLength(s, values, |s.segments|);
    v := Needs(need);
  }

  /** Up to the first undefined segment all references are in range. */
  lemma KnownRange(s: Source, values: Values, v: Verdict, p: nat)
    requires WellFormed(s) && VerdictIs(s, values, v) && v != Corrupt
    requires p < |s.segments| && forall i :: 0 <= i < p ==> DefinedAt(s, values, i)
    ensures InRange(s, values, p) && (v.Needs? ==> DefinedAt(s, values, p))
  {
    if v.Needs? {
      assert DefinedAt(s, values, p);
    } else if !DefinedAt(s, values, p) {
      var q :| 0 <= q < |s.segments| && StopsAt(s, values, q) && InRange(s, values, q);
      assert q == p;
    }
  }

  /** The loop of the second pass that tests again whether all segments are defined. It does not look at the range
      of the references. */
  method AllDefined(s: Source, values: Values, ghost v: Verdict) returns (valid: bool)
    requires WellFormed(s) && VerdictIs(s, values, v) && v != Corrupt
    ensures valid <==> v.Needs?
  {
    var p := 0;
    if s.segments[p].sysdepref == None {
      assert DefinedAt(s, values, 0);
      return true;
    }
    while true
      invariant 0 <= p < |s.segments| && forall i :: 0 <= i < p ==> DefinedAt(s, values, i)
      decreases |s.segments| - p
    {
      var sysdepref := s.segments[p].sysdepref;
      if sysdepref == None {
        assert DefinedAt(s, values, p);
        return true;
      }
      KnownRange(s, values, v, p);
      if values[sysdepref.value] == None {
        assert StopsAt(s, values, p);
        return false;
      }
      p := p + 1;
    }
  }

  // ------------------------------------------------------------------------
  // Filling
  // ------------------------------------------------------------------------

  /** Where an expanded string is: in the file, or in the memory that was allocated. */
  datatype Place = InFile(bytes: string) | InMemory(position: nat)

  /** A table entry. */
  datatype Desc = Desc(length: nat, pointer: Place)

  /** The string that a table entry describes. */
  ghost predicate Describes(mem: seq<char>, e: Desc, text: string) {
    && e.length == |text|
    && match e.pointer
       case InFile(bytes) => e.length <= |bytes| && bytes[..e.length] == text
       case InMemory(position) => position + e.length <= |mem| && mem[position..position + e.length] == text
  }

  /** The text of a table entry. */
  function Entry(mem: seq<char>, e: Desc): string {
    match e.pointer
    case InFile(bytes) => if e.length <= |bytes| then bytes[..e.length] else ""
    case InMemory(position) => if position + e.length <= |mem| then mem[position..position + e.length] else ""
  }

  /** memcpy. */
  method Copy(mem: array<char>, pos: nat, t: string)
    requires pos + |t| <= mem.Length
    modifies mem
    ensures mem[pos..pos + |t|] == t
    ensures mem[..pos] == old(mem[..pos])
  {
    for i := 0 to |t|
      invariant forall k :: 0 <= k < i ==> mem[pos + k] == t[k]
      invariant mem[..pos] == old(mem[..pos])
    {
      mem[pos + i] := t[i];
    }
  }

  lemma Joined(mem: seq<char>, a: nat, b: nat, c: nat, t: string, u: string)
    requires a <= b <= c <= |mem| && mem[a..b] == t && mem[b..c] == u
    ensures mem[a..c] == t + u
  {
    assert mem[a..c] == mem[a..b] + mem[b..c];
  }

  /** Writes the segments of one string from position pos on. */
  method FillString(mem: array<char>, pos: nat, s: Source, values: Values) returns (e: Desc, end: nat)
    requires WellFormed(s) && Defined(s, values)
    requires pos + Need(s, values) <= mem.Length
    modifies mem
    ensures Describes(mem[..], e, Whole(s, values))
    ensures e.pointer.InMemory? ==> pos <= e.pointer.position && e.pointer.position + e.length <= end
    ensures end == pos + Need(s, values)
    ensures mem[..pos] == old(mem[..pos])
  {
    end := pos;
    if s.segments[0].sysdepref == None {
      OneSegment(s, values);
      e := Desc(s.segments[0].segsize, InFile(s.bytes));
      return;
    }
    assert |s.segments| > 1;
    end := FillSegments(mem, pos, s, values);
    e := Desc(end - pos, InMemory(pos));
  }

  /** The loop over the segments of a string. */
  method FillSegments(mem: array<char>, pos: nat, s: Source, values: Values) returns (end: nat)
    requires WellFormed(s) && Defined(s, values) && pos + |Whole(s, values)| <= mem.Length
    modifies mem
    ensures end == pos + |Whole(s, values)| && end <= mem.Length && mem[pos..end] == Whole(s, values)
    ensures mem[..pos] == old(mem[..pos])
  {
    end := pos;
    var p := 0;
    var static_segments := 0;
    while true
      invariant 0 <= p < |s.segments| && static_segments == Offset(s, p) <= |s.bytes|
      invariant pos <= end <= mem.Length && mem[pos..end] == Text(s, values, p)
      invariant mem[..pos] == old(mem[..pos])
      decreases |s.segments| - p
    {
      end := AppendPair(mem, pos, end, s, values, p, static_segments);
      static_segments := static_segments + s.segments[p].segsize;
      if s.segments[p].sysdepref == None {
        break;
      }
      p := p + 1;
    }
  }

  /** Appends the static segment of pair p, and the system dependent one. */
  method AppendPair(mem: array<char>, pos: nat, end0: nat, s: Source, values: Values, p: nat, static_segments: nat)
    returns (end: nat)
    requires WellFormed(s) && Defined(s, values) && pos + |Whole(s, values)| <= mem.Length
    requires p < |s.segments| && static_segments == Offset(s, p) <= |s.bytes|
    requires pos <= end0 <= mem.Length && mem[pos..end0] == Text(s, values, p)
    modifies mem
    ensures pos <= end <= mem.Length && Offset(s, p + 1) <= |s.bytes| && mem[pos..end] == Text(s, values, p + 1)
    ensures mem[..pos] == old(mem[..pos])
  {
    OffsetFits(s, p + 1, |s.segments|);
    TextGrows(s, values, p + 1, |s.segments|);
    var segsize, sysdepref := s.segments[p].segsize, s.segments[p].sysdepref;
    assert DefinedAt(s, values, p);
    end := CopyPiece(mem, pos, end0, Text(s, values, p), s.bytes[static_segments..static_segments + segsize]);
    if sysdepref != None {
      end := CopyPiece(mem, pos, end, Text(s, values, p) + s.bytes[Offset(s, p)..Offset(s, p + 1)],
          values[sysdepref.value].value);
    }
  }

  lemma OneSegment(s: Source, values: Values)
    requires WellFormed(s) && Defined(s, values) && s.segments[0].sysdepref == None
    ensures |s.segments| == 1 && Whole(s, values) == s.bytes[..s.segments[0].segsize]
  {
    assert Offset(s, 1) == Offset(s, 0) + s.segments[0].segsize;
    assert Text(s, values, 0) == "";
  }

  lemma {:induction false} TextGrows(s: Source, values: Values, p: nat, q: nat)
    requires p <= q <= |s.segments| && Offset(s, q) <= |s.bytes| && Offset(s, p) <= |s.bytes|
    requires forall i :: 0 <= i < q ==> DefinedAt(s, values, i)
    ensures |Text(s, values, p)| <= |Text(s, values, q)|
    decreases q
  {
    if p < q {
      OffsetFits(s, q - 1, q);
      OffsetFits(s, p, q - 1);
      TextGrows(s, values, p, q - 1);
    }
  }

  /** Appends a piece to what stands at pos..end. */
  method CopyPiece(mem: array<char>, pos: nat, end: nat, ghost before: string, piece: string) returns (end': nat)
    requires pos <= end <= end + |piece| <= mem.Length && mem[pos..end] == before
    modifies mem
    ensures end' == end + |piece| && mem[pos..end'] == before + piece
    ensures mem[..pos] == old(mem[..pos])
  {
    ghost var m := mem[..];
    Copy(mem, end, piece);
    assert mem[..pos] == mem[..end][..pos] == m[..end][..pos];
    assert mem[pos..end] == mem[..end][pos..] == m[..end][pos..];
    Joined(mem[..], pos, end, end + |piece|, before, piece);
    end' := end + |piece|;
  }

  // ------------------------------------------------------------------------
  // The two passes
  // ------------------------------------------------------------------------

  /** The string pairs of the file. */
  datatype Pairs = Pairs(orig: seq<Source>, trans: seq<Source>)

  ghost predicate PairsWellFormed(f: Pairs) {
    |f.orig| == |f.trans| && forall i :: 0 <= i < |f.orig| ==> WellFormed(f.orig[i]) && WellFormed(f.trans[i])
  }

  ghost predicate ValidPair(f: Pairs, values: Values, i: nat)
    requires PairsWellFormed(f) && i < |f.orig|
  {
    Defined(f.orig[i], values) && Defined(f.trans[i], values)
  }

  /** The numbers of the valid ones among the first n pairs. */
  ghost function ValidPairs(f: Pairs, values: Values, n: nat): (v: seq<nat>)
    requires PairsWellFormed(f) && n <= |f.orig|
    ensures forall k :: 0 <= k < |v| ==> v[k] < n && ValidPair(f, values, v[k])
  {
    if n == 0 then [] else ValidPairs(f, values, n - 1) + if ValidPair(f, values, n - 1) then [n - 1] else []
  }

  /** The memory for the strings of the first n pairs. */
  ghost function StringMemory(f: Pairs, values: Values, n: nat): nat
    requires PairsWellFormed(f) && n <= |f.orig|
  {
    if n == 0 then 0
    else StringMemory(f, values, n - 1) +
         if ValidPair(f, values, n - 1) then Need(f.orig[n - 1], values) + Need(f.trans[n - 1], values) else 0
  }

  /** What the first pass has seen of a pair: the second string only if the first is defined. */
  ghost predicate Seen(f: Pairs, values: Values, i: nat, v: (Verdict, Verdict))
    requires PairsWellFormed(f) && i < |f.orig|
  {
    && VerdictIs(f.orig[i], values, v.0) && v.0 != Corrupt
    && (v.0.Needs? ==> VerdictIs(f.trans[i], values, v.1) && v.1 != Corrupt)
  }

  lemma VerdictDefined(s: Source, values: Values, v: Verdict)
    requires WellFormed(s) && VerdictIs(s, values, v)
    ensures v.Needs? <==> Defined(s, values)
  {
    if !v.Needs? {
      var p :| 0 <= p < |s.segments| && StopsAt(s, values, p);
    }
  }

  /** A pair makes the file invalid: it is corrupt as far as it is looked at. */
  ghost predicate Rejected(f: Pairs, values: Values, i: nat)
    requires PairsWellFormed(f) && i < |f.orig|
  {
    || VerdictIs(f.orig[i], values, Corrupt)
    || (Defined(f.orig[i], values) && VerdictIs(f.trans[i], values, Corrupt))
  }

  /** There is at most one first pair whose value is not known. */
  lemma StopsOnce(s: Source, values: Values, p: nat, q: nat)
    requires StopsAt(s, values, p) && StopsAt(s, values, q)
    ensures p == q
  {
  }

  lemma CorruptOnly(s: Source, values: Values, v: Verdict)
    requires WellFormed(s) && VerdictIs(s, values, v) && VerdictIs(s, values, Corrupt)
    ensures v == Corrupt
  {
    forall p: nat, q: nat | StopsAt(s, values, p) && StopsAt(s, values, q) ensures p == q {
      StopsOnce(s, values, p, q);
    }
  }

  lemma SeenNotRejected(f: Pairs, values: Values, i: nat, v: (Verdict, Verdict))
    requires PairsWellFormed(f) && i < |f.orig| && Seen(f, values, i, v)
    ensures !Rejected(f, values, i)
  {
    VerdictDefined(f.orig[i], values, v.0);
    if VerdictIs(f.orig[i], values, Corrupt) {
      CorruptOnly(f.orig[i], values, v.0);
    } else if Rejected(f, values, i) {
      CorruptOnly(f.trans[i], values, v.1);
    }
  }

  /** The first pass sums the memory for the valid pairs, dropping pairs that refer to an undefined segment. The
      result is None exactly for an invalid file. */
  method Measure(f: Pairs, values: Values) returns (r: Option<(nat, nat)>, ghost seen: seq<(Verdict, Verdict)>)
    requires PairsWellFormed(f)
    ensures r.None? <==> exists i :: 0 <= i < |f.orig| && Rejected(f, values, i)
    ensures r.Some? ==>
              && r.value.0 == |ValidPairs(f, values, |f.orig|)| && r.value.1 == StringMemory(f, values, |f.orig|)
              && |seen| == |f.orig| && forall i :: 0 <= i < |seen| ==> Seen(f, values, i, seen[i])
  {
    var count, need := 0, 0;
    seen := [];
    for i := 0 to |f.orig|
      invariant count == |ValidPairs(f, values, i)| && need == StringMemory(f, values, i)
      invariant |seen| == i && forall k :: 0 <= k < i ==> Seen(f, values, k, seen[k])
    {
      var v := MeasureString(f.orig[i], values);
      VerdictDefined(f.orig[i], values, v);
      var w := Undefined;
      if v == Corrupt {
        assert Rejected(f, values, i);
        return None, seen;
      }
      if v.Needs? {
        w := MeasureString(f.trans[i], values);
        VerdictDefined(f.trans[i], values, w);
        if w == Corrupt {
          assert Rejected(f, values, i);
          return None, seen;
        }
        if w.Needs? {
          count := count + 1;
          need := need + v.need + w.need;
        }
      }
      seen := seen + [(v, w)];
    }
    forall i | 0 <= i < |f.orig| ensures !Rejected(f, values, i) {
      SeenNotRejected(f, values, i, seen[i]);
    }
    r := Some((count, need));
  }

  /** The tables describe the strings of these pairs. */
  ghost predicate TablesDescribe(f: Pairs, values: Values, mem: seq<char>, pairs: seq<nat>, orig_tab: seq<Desc>,
                                 trans_tab: seq<Desc>)
    requires PairsWellFormed(f)
  {
    && |orig_tab| == |trans_tab| == |pairs|
    && forall k :: 0 <= k < |pairs| ==>
         && pairs[k] < |f.orig| && ValidPair(f, values, pairs[k])
         && Describes(mem, orig_tab[k], Whole(f.orig[pairs[k]], values))
         && Describes(mem, trans_tab[k], Whole(f.trans[pairs[k]], values))
  }

  /** The texts of the tables consist of the segments of the strings of these pairs. */
  ghost predicate TablesExpand(f: Pairs, values: Values, mem: seq<char>, pairs: seq<nat>, orig_tab: seq<Desc>,
                               trans_tab: seq<Desc>)
    requires PairsWellFormed(f)
  {
    && |orig_tab| == |trans_tab| == |pairs|
    && forall k :: 0 <= k < |pairs| ==>
         && pairs[k] < |f.orig| && ValidPair(f, values, pairs[k])
         && Expansion(Entry(mem, orig_tab[k]), f.orig[pairs[k]], values)
         && Expansion(Entry(mem, trans_tab[k]), f.trans[pairs[k]], values)
  }

  lemma DescribedExpand(f: Pairs, values: Values, mem: seq<char>, pairs: seq<nat>, orig_tab: seq<Desc>,
                        trans_tab: seq<Desc>)
    requires PairsWellFormed(f) && TablesDescribe(f, values, mem, pairs, orig_tab, trans_tab)
    ensures TablesExpand(f, values, mem, pairs, orig_tab, trans_tab)
  {
    forall k | 0 <= k < |pairs|
      ensures Expansion(Entry(mem, orig_tab[k]), f.orig[pairs[k]], values)
      ensures Expansion(Entry(mem, trans_tab[k]), f.trans[pairs[k]], values)
    {
      WholeExpansion(f.orig[pairs[k]], values);
      WholeExpansion(f.trans[pairs[k]], values);
    }
  }

  /** All strings in memory end before the given position. */
  ghost predicate Before(tab: seq<Desc>, end: nat) {
    forall k :: 0 <= k < |tab| && tab[k].pointer.InMemory? ==> tab[k].pointer.position + tab[k].length <= end
  }

  lemma DescribesKept(mem: seq<char>, mem': seq<char>, end: nat, e: Desc, text: string)
    requires Describes(mem, e, text) && end <= |mem| == |mem'| && mem'[..end] == mem[..end]
    requires e.pointer.InMemory? ==> e.pointer.position + e.length <= end
    ensures Describes(mem', e, text)
  {
    if e.pointer.InMemory? {
      var p := e.pointer.position;
      assert mem'[p..p + e.length] == mem'[..end][p..p + e.length] == mem[..end][p..p + e.length]
          == mem[p..p + e.length];
    }
  }

  lemma TablesKept(f: Pairs, values: Values, mem: seq<char>, mem': seq<char>, end: nat, pairs: seq<nat>,
                   orig_tab: seq<Desc>, trans_tab: seq<Desc>)
    requires PairsWellFormed(f) && TablesDescribe(f, values, mem, pairs, orig_tab, trans_tab)
    requires end <= |mem| == |mem'| && mem'[..end] == mem[..end] && Before(orig_tab, end) && Before(trans_tab, end)
    ensures TablesDescribe(f, values, mem', pairs, orig_tab, trans_tab)
  {
    forall k | 0 <= k < |pairs|
      ensures Describes(mem', orig_tab[k], Whole(f.orig[pairs[k]], values))
      ensures Describes(mem', trans_tab[k], Whole(f.trans[pairs[k]], values))
    {
      DescribesKept(mem, mem', end, orig_tab[k], Whole(f.orig[pairs[k]], values));
      DescribesKept(mem, mem', end, trans_tab[k], Whole(f.trans[pairs[k]], values));
    }
  }

  /** Fills both strings of a valid pair and enters them into the tables. */
  method FillPair(f: Pairs, values: Values, i: nat, mem: array<char>, start: nat, ghost pairs: seq<nat>,
                  orig_tab0: seq<Desc>, trans_tab0: seq<Desc>)
    returns (orig_tab: seq<Desc>, trans_tab: seq<Desc>, end: nat)
    requires PairsWellFormed(f) && i < |f.orig| && ValidPair(f, values, i)
    requires TablesDescribe(f, values, mem[..], pairs, orig_tab0, trans_tab0) && Before(orig_tab0, start)
               && Before(trans_tab0, start)
    requires start + Need(f.orig[i], values) + Need(f.trans[i], values) <= mem.Length
    modifies mem
    ensures TablesDescribe(f, values, mem[..], pairs + [i], orig_tab, trans_tab) && Before(orig_tab, end)
              && Before(trans_tab, end)
    ensures end == start + Need(f.orig[i], values) + Need(f.trans[i], values)
  {
    ghost var m := mem[..];
    var e, mid := FillString(mem, start, f.orig[i], values);
    ghost var m1 := mem[..];
    var g;
    g, end := FillString(mem, mid, f.trans[i], values);
    assert mem[..start] == mem[..mid][..start] == m1[..mid][..start] == m1[..start] == m[..start];
    TablesKept(f, values, m, mem[..], start, pairs, orig_tab0, trans_tab0);
    DescribesKept(m1, mem[..], mid, e, Whole(f.orig[i], values));
    orig_tab, trans_tab := orig_tab0 + [e], trans_tab0 + [g];
  }

  /** The test of the second pass for a pair. */
  method PairDefined(f: Pairs, values: Values, i: nat, ghost v: (Verdict, Verdict)) returns (valid: bool)
    requires PairsWellFormed(f) && i < |f.orig| && Seen(f, values, i, v)
    ensures valid <==> ValidPair(f, values, i)
  {
    VerdictDefined(f.orig[i], values, v.0);
    valid := AllDefined(f.orig[i], values, v.0);
    if valid {
      VerdictDefined(f.trans[i], values, v.1);
      valid := AllDefined(f.trans[i], values, v.1);
    }
  }

  /** Fills the strings of the next pair if it is valid. */
  method FillNext(f: Pairs, values: Values, i: nat, mem: array<char>, ghost start: nat, end0: nat,
                  ghost v: (Verdict, Verdict), orig_tab0: seq<Desc>, trans_tab0: seq<Desc>, k0: nat)
    returns (orig_tab: seq<Desc>, trans_tab: seq<Desc>, end: nat, k: nat)
    requires PairsWellFormed(f) && i < |f.orig| && Seen(f, values, i, v)
    requires TablesDescribe(f, values, mem[..], ValidPairs(f, values, i), orig_tab0, trans_tab0)
    requires Before(orig_tab0, end0) && Before(trans_tab0, end0) && k0 == |orig_tab0|
    requires end0 == start + StringMemory(f, values, i) && start + StringMemory(f, values, i + 1) <= mem.Length
    modifies mem
    ensures TablesDescribe(f, values, mem[..], ValidPairs(f, values, i + 1), orig_tab, trans_tab)
    ensures Before(orig_tab, end) && Before(trans_tab, end) && k == |orig_tab|
    ensures end == start + StringMemory(f, values, i + 1)
  {
    orig_tab, trans_tab, end, k := orig_tab0, trans_tab0, end0, k0;
    var valid := PairDefined(f, values, i, v);
    if valid {
      orig_tab, trans_tab, end := FillPair(f, values, i, mem, end, ValidPairs(f, values, i), orig_tab, trans_tab);
      k := k + 1;
    }
  }

  /** The loop of the second pass. */
  method FillAll(
    f: Pairs, values: Values, mem: array<char>, start: nat, count: nat, ghost seen: seq<(Verdict, Verdict)>)
    returns (orig_tab: seq<Desc>, trans_tab: seq<Desc>)
    requires PairsWellFormed(f) && |seen| == |f.orig| && forall i :: 0 <= i < |seen| ==> Seen(f, values, i, seen[i])
    requires count == |ValidPairs(f, values, |f.orig|)| && mem.Length == start + StringMemory(f, values, |f.orig|)
    modifies mem
    ensures TablesDescribe(f, values, mem[..], ValidPairs(f, values, |f.orig|), orig_tab, trans_tab)
  {
    orig_tab, trans_tab := [], [];
    var end, k := start, 0;
    for i := 0 to |f.orig|
      invariant end == start + StringMemory(f, values, i)
      invariant TablesDescribe(f, values, mem[..], ValidPairs(f, values, i), orig_tab, trans_tab)
      invariant Before(orig_tab, end) && Before(trans_tab, end) && k == |orig_tab|
    {
      MemoryGrows(f, values, i + 1, |f.orig|);
      orig_tab, trans_tab, end, k := FillNext(f, values, i, mem, start, end, seen[i], orig_tab, trans_tab, k);
    }
    if k != count {
      assert false;
    }
  }

  lemma {:induction false} MemoryGrows(f: Pairs, values: Values, i: nat, n: nat)
    requires PairsWellFormed(f) && i <= n <= |f.orig|
    ensures StringMemory(f, values, i) <= StringMemory(f, values, n)
    decreases n
  {
    if i < n {
      MemoryGrows(f, values, i, n - 1);
    }
  }

  /** The second pass expands the strings. The memory is exactly large enough, and as many strings are filled as
      were counted. */
  method Fill(f: Pairs, values: Values, mem: array<char>, start: nat, count: nat, ghost seen: seq<(Verdict, Verdict)>)
    returns (orig_tab: seq<Desc>, trans_tab: seq<Desc>)
    requires PairsWellFormed(f) && |seen| == |f.orig| && forall i :: 0 <= i < |seen| ==> Seen(f, values, i, seen[i])
    requires count == |ValidPairs(f, values, |f.orig|)| && mem.Length == start + StringMemory(f, values, |f.orig|)
    modifies mem
    ensures TablesDescribe(f, values, mem[..], ValidPairs(f, values, |f.orig|), orig_tab, trans_tab)
    ensures TablesExpand(f, values, mem[..], ValidPairs(f, values, |f.orig|), orig_tab, trans_tab)
  {
    orig_tab, trans_tab := FillAll(f, values, mem, start, count, seen);
    DescribedExpand(f, values, mem[..], ValidPairs(f, values, |f.orig|), orig_tab, trans_tab);
  }
}
