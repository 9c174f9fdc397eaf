/** Looking up messages: the hash table of a catalogue, the entries added to it at load time, and the binary search. */
module Catalogue {
  import opened Wrappers
  import opened Probing

  /** An original string: its stored length, and its bytes up to the first NUL. */
  datatype Entry = Entry(length: nat, text: string)

  /** A loaded catalogue: the static strings of the file, then the system dependent ones. */
  datatype Domain = Domain(statics: seq<Entry>, sysdeps: seq<Entry>)

  /** A static string matches if its text does and its stored length covers it; the length of a plural entry counts
      both of its strings. */
  predicate StaticMatches(d: Domain, i: nat, msgid: string) {
    i < |d.statics| && d.statics[i].length >= |msgid| && d.statics[i].text == msgid
  }

  predicate SysdepMatches(d: Domain, i: nat, msgid: string) {
    i < |d.sysdeps| && d.sysdeps[i].length > |msgid| && d.sysdeps[i].text == msgid
  }

  /** Comparing msgid with string number nstr. */
  predicate Matches(d: Domain, nstr: nat, msgid: string) {
    if nstr < |d.statics| then StaticMatches(d, nstr, msgid) else SysdepMatches(d, nstr - |d.statics|, msgid)
  }

  /** The stored lengths cover the texts; that of a system dependent string counts its NUL. */
  predicate Covered(d: Domain) {
    && (forall i :: 0 <= i < |d.statics| ==> d.statics[i].length >= |d.statics[i].text|)
    && (forall i :: 0 <= i < |d.sysdeps| ==> d.sysdeps[i].length > |d.sysdeps[i].text|)
  }

  /** Then the comparison is that of the texts. */
  lemma MatchesText(d: Domain, nstr: nat, msgid: string)
    requires Covered(d) && nstr < |d.statics| + |d.sysdeps|
    ensures Matches(d, nstr, msgid) <==> (d.statics + d.sysdeps)[nstr].text == msgid
  {
  }

  /** The hash function, as the numbers that the catalogues use. */
  type Hash = string -> nat

  function Increment(h: nat, size: nat): nat
    requires size > 2
  {
    1 + h % (size - 2)
  }

  /** The slot of probe number k for hash value h. */
  function Slot(h: nat, k: nat, size: nat): (i: nat)
    requires size > 2
    ensures i < size
  {
    Probe(h % size, Increment(h, size), k, size)
  }

  /** The slots that a lookup comes to, in plain arithmetic: from h on in steps of 1 + h mod (size - 2). */
  lemma SlotIs(h: nat, k: nat, size: nat)
    requires size > 2
    ensures Slot(h, k, size) == (h + k * (1 + h % (size - 2))) % size
  {
    var x := h % size + k * (1 + h % (size - 2));
    RemainderOf(x, x / size, x % size, size);
    assert h + k * (1 + h % (size - 2)) == h / size * size + x;
    Regroup(h / size, x / size, size);
    RemainderOf(h + k * (1 + h % (size - 2)), h / size + x / size, x % size, size);
  }

  lemma Regroup(a: int, b: int, c: int)
    ensures (a + b) * c == a * c + b * c
  {
  }

  /** A hash table of prime size: 0 for an empty slot, otherwise 1 + the number of a string. */
  ghost predicate Table(t: seq<nat>, strings: nat) {
    |t| > 2 && Prime(|t|) && forall i :: 0 <= i < |t| ==> t[i] <= strings
  }

  /** The value stands at probe k for h, and the probes before it are not empty. */
  ghost predicate Placed(t: seq<nat>, h: nat, k: nat, value: nat)
    requires |t| > 2
  {
    k < |t| && t[Slot(h, k, |t|)] == value && forall j: nat :: j < k ==> t[Slot(h, j, |t|)] != 0
  }

  /** t' was made from t by filling empty slots. */
  ghost predicate Extends(t: seq<nat>, t': seq<nat>) {
    |t'| == |t| && forall i :: 0 <= i < |t| && t[i] != 0 ==> t'[i] == t[i]
  }

  lemma PlacedExtends(t: seq<nat>, t': seq<nat>, h: nat, k: nat, value: nat)
    requires |t| > 2 && Placed(t, h, k, value) && value != 0 && Extends(t, t')
    ensures Placed(t', h, k, value)
  {
  }

  function EmptySlots(t: seq<nat>): nat {
    if t == [] then 0 else EmptySlots(t[..|t| - 1]) + (if t[|t| - 1] == 0 then 1 else 0)
  }

  lemma {:induction false} SomeEmpty(t: seq<nat>) returns (i: nat)
    requires EmptySlots(t) > 0
    ensures i < |t| && t[i] == 0
  {
    if t[|t| - 1] == 0 {
      i := |t| - 1;
    } else {
      i := SomeEmpty(t[..|t| - 1]);
    }
  }

  lemma {:induction false} FillOne(t: seq<nat>, i: nat, value: nat)
    requires i < |t| && t[i] == 0 && value != 0
    ensures EmptySlots(t[i := value]) == EmptySlots(t) - 1
  {
    var front := t[..|t| - 1];
    if i == |t| - 1 {
      assert t[i := value][..|t| - 1] == front;
    } else {
      FillOne(front, i, value);
      assert t[i := value][..|t| - 1] == front[i := value];
    }
  }

  /** A probe of every sequence hits an empty slot, if there is one. */
  lemma EmptyProbe(t: seq<nat>, h: nat) returns (k: nat)
    requires |t| > 2 && Prime(|t|) && EmptySlots(t) > 0
    ensures k < |t| && t[Slot(h, k, |t|)] == 0
  {
    var i := SomeEmpty(t);
    k := VisitsAll(h % |t|, Increment(h, |t|), |t|, i);
  }

  /** The next slot of the probe sequence, computed without overflow. */
  method Advance(idx: nat, incr: nat, size: nat, ghost h: nat, ghost k: nat) returns (next: nat)
    requires size > 2 && incr == Increment(h, size) && idx == Slot(h, k, size)
    ensures next == Slot(h, k + 1, size)
  {
    NextProbe(h % size, incr, k, size);
    if idx >= size - incr {
      next := idx - (size - incr);
    } else {
      next := idx + incr;
    }
  }

  /** Puts a value into the first empty slot of the probe sequence of h. */
  method Insert(tab: array<nat>, h: nat, value: nat) returns (ghost k: nat)
    requires tab.Length > 2 && Prime(tab.Length) && EmptySlots(tab[..]) > 0 && value != 0
    modifies tab
    ensures k < tab.Length && old(tab[..])[Slot(h, k, tab.Length)] == 0
    ensures tab[..] == old(tab[..])[Slot(h, k, tab.Length) := value]
    ensures Placed(tab[..], h, k, value)
    ensures EmptySlots(tab[..]) == EmptySlots(old(tab[..])) - 1
  {
    ghost var t, size := tab[..], tab.Length;
    var idx, incr := h % tab.Length, 1 + h % (tab.Length - 2);
    ghost var end := EmptyProbe(t, h);
    k := 0;
    FirstSlot(h, tab.Length);
    while tab[idx] != 0
      invariant idx == Slot(h, k, size) && k <= end && tab[..] == t
      invariant forall j: nat :: j < k ==> t[Slot(h, j, size)] != 0
      decreases end - k
    {
      idx := Advance(idx, incr, tab.Length, h, k);
      k := k + 1;
    }
    tab[idx] := value;
    FillOne(t, idx, value);
    assert tab[..] == t[idx := value];
  }

  lemma FirstSlot(h: nat, size: nat)
    requires size > 2
    ensures Slot(h, 0, size) == h % size
  {
    RemainderOf(h % size, 0, h % size, size);
  }

  // ------------------------------------------------------------------------
  // The augmented table
  // ------------------------------------------------------------------------

  /** The first n system dependent strings have been put into table t, number i at probe ks[i] for its hash value. */
  ghost predicate Augmented(t0: seq<nat>, t: seq<nat>, d: Domain, hash: Hash, ks: seq<nat>, n: nat) {
    && |t0| > 2 && Extends(t0, t) && n <= |d.sysdeps| && |ks| == n
    && (forall i :: 0 <= i < n ==> Placed(t, hash(d.sysdeps[i].text), ks[i], 1 + |d.statics| + i))
    && (forall i, j :: 0 <= i < j < n && hash(d.sysdeps[i].text) == hash(d.sysdeps[j].text) ==> ks[i] < ks[j])
    && (forall s :: 0 <= s < |t| ==> t[s] == t0[s] || AddedAt(t, d, hash, ks, s))
  }

  /** The slot holds one of the strings that have been added, where that string was placed. */
  ghost predicate AddedAt(t: seq<nat>, d: Domain, hash: Hash, ks: seq<nat>, s: nat)
    requires |t| > 2 && s < |t|
  {
    exists i :: 0 <= i < |ks| <= |d.sysdeps| && t[s] == 1 + |d.statics| + i
        && s == Slot(hash(d.sysdeps[i].text), ks[i], |t|)
  }

  lemma AddedStays(t: seq<nat>, t': seq<nat>, d: Domain, hash: Hash, ks: seq<nat>, k: nat, s: nat)
    requires |t| > 2 && Extends(t, t') && s < |t| && AddedAt(t, d, hash, ks, s) && |ks| < |d.sysdeps|
    ensures AddedAt(t', d, hash, ks + [k], s)
  {
    var i :| 0 <= i < |ks| && t[s] == 1 + |d.statics| + i && s == Slot(hash(d.sysdeps[i].text), ks[i], |t|);
    assert (ks + [k])[i] == ks[i];
  }

  lemma AddedNow(t': seq<nat>, d: Domain, hash: Hash, ks: seq<nat>, k: nat)
    requires |t'| > 2 && |ks| < |d.sysdeps|
    requires t'[Slot(hash(d.sysdeps[|ks|].text), k, |t'|)] == 1 + |d.statics| + |ks|
    ensures AddedAt(t', d, hash, ks + [k], Slot(hash(d.sysdeps[|ks|].text), k, |t'|))
  {
    assert (ks + [k])[|ks|] == k;
  }

  lemma AugmentOne(t0: seq<nat>, t: seq<nat>, t': seq<nat>, d: Domain, hash: Hash, ks: seq<nat>, n: nat, k: nat)
    requires Augmented(t0, t, d, hash, ks, n) && n < |d.sysdeps|
    requires var h := hash(d.sysdeps[n].text);
             k < |t| && t[Slot(h, k, |t|)] == 0 && t' == t[Slot(h, k, |t|) := 1 + |d.statics| + n]
                 && Placed(t', h, k, 1 + |d.statics| + n)
    ensures Augmented(t0, t', d, hash, ks + [k], n + 1)
  {
    var h, ks' := hash(d.sysdeps[n].text), ks + [k];
    assert Extends(t, t');
    forall i | 0 <= i < n
      ensures Placed(t', hash(d.sysdeps[i].text), ks'[i], 1 + |d.statics| + i)
      ensures hash(d.sysdeps[i].text) == h ==> ks'[i] < k
    {
      PlacedExtends(t, t', hash(d.sysdeps[i].text), ks[i], 1 + |d.statics| + i);
    }
    AddedNow(t', d, hash, ks, k);
    forall s | 0 <= s < |t'|
      ensures t'[s] == t0[s] || AddedAt(t', d, hash, ks', s)
    {
      if t[s] != t0[s] {
        AddedStays(t, t', d, hash, ks, k, s);
      }
    }
  }

  lemma AugmentedTable(t0: seq<nat>, t: seq<nat>, d: Domain, hash: Hash, ks: seq<nat>)
    requires Table(t0, |d.statics|) && Augmented(t0, t, d, hash, ks, |d.sysdeps|)
    ensures Table(t, |d.statics| + |d.sysdeps|)
  {
    forall s | 0 <= s < |t|
      ensures t[s] <= |d.statics| + |d.sysdeps|
    {
      assert t[s] == t0[s] || AddedAt(t, d, hash, ks, s);
    }
  }

  /** Enters the system dependent strings; terminates whenever there are enough empty slots. */
  method Augment(tab: array<nat>, d: Domain, hash: Hash) returns (ghost ks: seq<nat>)
    requires Table(tab[..], |d.statics|) && EmptySlots(tab[..]) >= |d.sysdeps|
    modifies tab
    ensures Augmented(old(tab[..]), tab[..], d, hash, ks, |d.sysdeps|)
    ensures Table(tab[..], |d.statics| + |d.sysdeps|)
    ensures EmptySlots(tab[..]) == EmptySlots(old(tab[..])) - |d.sysdeps|
  {
    ghost var t0 := tab[..];
    ks := [];
    for i := 0 to |d.sysdeps|
      invariant Augmented(t0, tab[..], d, hash, ks, i)
      invariant EmptySlots(tab[..]) == EmptySlots(t0) - i
    {
      ghost var t := tab[..];
      ghost var k := Insert(tab, hash(d.sysdeps[i].text), 1 + |d.statics| + i);
      AugmentOne(t0, t, tab[..], d, hash, ks, i, k);
      ks := ks + [k];
    }
    AugmentedTable(t0, tab[..], d, hash, ks);
  }

  // ------------------------------------------------------------------------
  // Lookup
  // ------------------------------------------------------------------------

  /** The lookup of msgid ends at probe k with this result: the probes before it hold other strings. */
  ghost predicate Ends(d: Domain, t: seq<nat>, h: nat, msgid: string, k: nat, act: Option<nat>)
    requires Table(t, |d.statics| + |d.sysdeps|)
  {
    && k < |t|
    && (forall j: nat :: j < k ==> t[Slot(h, j, |t|)] != 0 && !Matches(d, t[Slot(h, j, |t|)] - 1, msgid))
    && var v := t[Slot(h, k, |t|)];
       if v == 0 then act == None else Matches(d, v - 1, msgid) && act == Some(v - 1)
  }

  lemma EndsOnce(d: Domain, t: seq<nat>, h: nat, msgid: string, j: nat, k: nat, a: Option<nat>, b: Option<nat>)
    requires Table(t, |d.statics| + |d.sysdeps|)
    requires Ends(d, t, h, msgid, j, a) && Ends(d, t, h, msgid, k, b)
    ensures j == k && a == b
  {
  }

  /** The probe loop of _nl_find_msg. */
  method Probes(d: Domain, tab: array<nat>, hash: Hash, msgid: string) returns (act: Option<nat>, ghost k: nat)
    requires Table(tab[..], |d.statics| + |d.sysdeps|) && EmptySlots(tab[..]) > 0
    ensures Ends(d, tab[..], hash(msgid), msgid, k, act)
    ensures act.Some? ==> act.value < |d.statics| + |d.sysdeps| && Matches(d, act.value, msgid)
  {
    var h := hash(msgid);
    ghost var t, size := tab[..], tab.Length;
    var idx, incr := h % tab.Length, 1 + h % (tab.Length - 2);
    ghost var end := EmptyProbe(t, h);
    k := 0;
    FirstSlot(h, tab.Length);
    while true
      invariant idx == Slot(h, k, size) && k <= end
      invariant forall j: nat :: j < k ==> t[Slot(h, j, size)] != 0 && !Matches(d, t[Slot(h, j, size)] - 1, msgid)
      decreases end - k
    {
      var nstr := tab[idx];
      assert nstr == t[idx] <= |d.statics| + |d.sysdeps|;
      if nstr == 0 {
        return None, k;
      }
      if Matches(d, nstr - 1, msgid) {
        return Some(nstr - 1), k;
      }
      idx := Advance(idx, incr, tab.Length, h, k);
      k := k + 1;
    }
  }

  ghost predicate Reachable(t: seq<nat>, h: nat, value: nat)
    requires |t| > 2
  {
    exists k :: Placed(t, h, k, value)
  }

  /** Every static string can be reached from its own hash value, as the tools that write catalogues see to, and
      its stored length covers its text. */
  ghost predicate WellHashed(d: Domain, t: seq<nat>, hash: Hash)
    requires |t| > 2
  {
    forall i :: 0 <= i < |d.statics| ==>
      d.statics[i].length >= |d.statics[i].text| && Reachable(t, hash(d.statics[i].text), 1 + i)
  }

  /** The catalogue without its system dependent strings. */
  function StaticPart(d: Domain): Domain {
    d.(sysdeps := [])
  }

  /** i is the first system dependent string that matches. */
  ghost predicate FirstSysdep(d: Domain, msgid: string, i: nat) {
    SysdepMatches(d, i, msgid) && forall j: nat :: j < i ==> !SysdepMatches(d, j, msgid)
  }

  /** A lookup that found a static string finds the same one in the augmented table. */
  lemma StaticFoundAgain(d: Domain, t0: seq<nat>, t: seq<nat>, hash: Hash, ks: seq<nat>, msgid: string, k: nat,
                         act: nat)
    requires Table(t0, |d.statics|) && Augmented(t0, t, d, hash, ks, |d.sysdeps|)
    requires Table(t, |d.statics| + |d.sysdeps|)
    requires Ends(StaticPart(d), t0, hash(msgid), msgid, k, Some(act))
    ensures Ends(d, t, hash(msgid), msgid, k, Some(act))
  {
    var h := hash(msgid);
    forall j: nat | j <= k
      ensures t[Slot(h, j, |t|)] == t0[Slot(h, j, |t|)] && t0[Slot(h, j, |t|)] != 0
    {
    }
  }

  /** A static string with that msgid stands at probe j, behind probes that have been filled, and before the system
      dependent strings with that msgid. */
  ghost predicate StaticAt(d: Domain, t0: seq<nat>, t: seq<nat>, h: nat, ks: seq<nat>, msgid: string, j: nat)
    requires 2 < |t0| == |t| && |ks| == |d.sysdeps|
  {
    var v := t0[Slot(h, j, |t|)];
    && j < |t| && v != 0 && StaticMatches(d, v - 1, msgid)
    && (forall i: nat :: i < j ==> t[Slot(h, i, |t|)] != 0)
    && (forall i: nat :: SysdepMatches(d, i, msgid) ==> j < ks[i])
  }

  /** The augmented table gives a static string exactly if there is one like that, and otherwise the first system
      dependent string with that msgid, or NULL if there is none. */
  lemma SysdepFound(d: Domain, t0: seq<nat>, t: seq<nat>, hash: Hash, ks: seq<nat>, msgid: string, k: nat,
                    act: Option<nat>)
    requires Table(t0, |d.statics|) && Augmented(t0, t, d, hash, ks, |d.sysdeps|)
    requires Table(t, |d.statics| + |d.sysdeps|) && Ends(d, t, hash(msgid), msgid, k, act)
    ensures act == None ==> forall i: nat :: !SysdepMatches(d, i, msgid)
    ensures act.Some? && act.value >= |d.statics| ==> FirstSysdep(d, msgid, act.value - |d.statics|)
    ensures (act.Some? && act.value < |d.statics|) <==> exists j :: StaticAt(d, t0, t, hash(msgid), ks, msgid, j)
  {
    SysdepMissing(d, t0, t, hash, ks, msgid, k, act);
    if act.Some? && act.value >= |d.statics| {
      SysdepFirst(d, t0, t, hash, ks, msgid, k, act.value - |d.statics|);
    }
    StaticIffAhead(d, t0, t, hash, ks, msgid, k, act);
  }

  lemma SysdepMissing(d: Domain, t0: seq<nat>, t: seq<nat>, hash: Hash, ks: seq<nat>, msgid: string, k: nat,
                      act: Option<nat>)
    requires Table(t0, |d.statics|) && Augmented(t0, t, d, hash, ks, |d.sysdeps|)
    requires Table(t, |d.statics| + |d.sysdeps|) && Ends(d, t, hash(msgid), msgid, k, act)
    ensures act == None ==> forall i: nat :: !SysdepMatches(d, i, msgid)
  {
    forall i: nat | SysdepMatches(d, i, msgid) ensures act.Some? {
      SysdepReached(d, t0, t, hash, ks, msgid, k, act, i);
    }
  }

  lemma StaticIffAhead(d: Domain, t0: seq<nat>, t: seq<nat>, hash: Hash, ks: seq<nat>, msgid: string, k: nat,
                       act: Option<nat>)
    requires Table(t0, |d.statics|) && Augmented(t0, t, d, hash, ks, |d.sysdeps|)
    requires Table(t, |d.statics| + |d.sysdeps|) && Ends(d, t, hash(msgid), msgid, k, act)
    ensures (act.Some? && act.value < |d.statics|) <==> exists j :: StaticAt(d, t0, t, hash(msgid), ks, msgid, j)
  {
    if act.Some? && act.value < |d.statics| {
      FoundStatic(d, t0, t, hash, ks, msgid, k, act.value);
    } else if j :| StaticAt(d, t0, t, hash(msgid), ks, msgid, j) {
      StaticFound(d, t0, t, hash, ks, msgid, k, act, j);
      assert false;
    }
  }

  /** The lookup does not get past such a string. */
  lemma StaticFound(d: Domain, t0: seq<nat>, t: seq<nat>, hash: Hash, ks: seq<nat>, msgid: string, k: nat,
                   act: Option<nat>, j: nat)
    requires Table(t0, |d.statics|) && Augmented(t0, t, d, hash, ks, |d.sysdeps|)
    requires Table(t, |d.statics| + |d.sysdeps|) && Ends(d, t, hash(msgid), msgid, k, act)
    requires StaticAt(d, t0, t, hash(msgid), ks, msgid, j)
    ensures act.Some? && act.value < |d.statics|
  {
    var v := t0[Slot(hash(msgid), j, |t|)];
    assert t[Slot(hash(msgid), j, |t|)] == v && Matches(d, v - 1, msgid);
    assert k <= j;
    if act.Some? && act.value >= |d.statics| {
      SysdepPlace(d, t0, t, hash, ks, msgid, k, act.value - |d.statics|);
    }
  }

  /** A static string that the lookup finds is one like that. */
  lemma FoundStatic(d: Domain, t0: seq<nat>, t: seq<nat>, hash: Hash, ks: seq<nat>, msgid: string, k: nat, act: nat)
    requires Table(t0, |d.statics|) && Augmented(t0, t, d, hash, ks, |d.sysdeps|)
    requires Table(t, |d.statics| + |d.sysdeps|) && Ends(d, t, hash(msgid), msgid, k, Some(act)) && act < |d.statics|
    ensures StaticAt(d, t0, t, hash(msgid), ks, msgid, k)
  {
    var s := Slot(hash(msgid), k, |t|);
    assert t[s] == t0[s] || AddedAt(t, d, hash, ks, s);
    assert Matches(d, act, msgid);
    forall i: nat | SysdepMatches(d, i, msgid) ensures k < ks[i] {
      SysdepReached(d, t0, t, hash, ks, msgid, k, Some(act), i);
      assert Placed(t, hash(msgid), ks[i], 1 + |d.statics| + i);
    }
  }

  /** A matching static string is found, or another one before it. */
  lemma StaticReached(d: Domain, t0: seq<nat>, hash: Hash, msgid: string, k: nat, act: Option<nat>, i: nat)
    requires Table(t0, |d.statics|) && WellHashed(d, t0, hash) && StaticMatches(d, i, msgid)
    requires Ends(StaticPart(d), t0, hash(msgid), msgid, k, act)
    ensures act.Some?
  {
    var j :| Placed(t0, hash(d.statics[i].text), j, 1 + i);
    assert Matches(StaticPart(d), i, msgid);
  }

  /** There is none after a lookup without success in the table of the file, if the file has no stray strings: if all
      static strings can be reached. */
  lemma NoStray(d: Domain, t0: seq<nat>, t: seq<nat>, hash: Hash, ks: seq<nat>, msgid: string, k0: nat, j: nat)
    requires Table(t0, |d.statics|) && WellHashed(d, t0, hash) && |t| == |t0| && |ks| == |d.sysdeps|
    requires Ends(StaticPart(d), t0, hash(msgid), msgid, k0, None)
    ensures !StaticAt(d, t0, t, hash(msgid), ks, msgid, j)
  {
    var v := t0[Slot(hash(msgid), j, |t|)];
    if v != 0 && StaticMatches(d, v - 1, msgid) {
      StaticReached(d, t0, hash, msgid, k0, None, v - 1);
    }
  }

  lemma FirstTwoSlots(size: nat)
    requires size > 2
    ensures Slot(0, 0, size) == 0 && Slot(0, 1, size) == 1
  {
    assert 0 % size == 0 && 0 % (size - 2) == 0 && 1 % size == 1;
  }

  lemma SecondProbe(d: Domain, t: seq<nat>, msgid: string, act: nat)
    requires Table(t, |d.statics| + |d.sysdeps|)
    requires t[0] != 0 && !Matches(d, t[0] - 1, msgid) && t[1] == act + 1 && Matches(d, act, msgid)
    ensures Ends(d, t, 0, msgid, 1, Some(act))
  {
    FirstTwoSlots(|t|);
  }

  /** There are files with stray strings for every size of the table: a is not found before b has been put in front
      of it. */
  lemma StrayExample(a: string, b: string, d: Domain, t0: seq<nat>, t: seq<nat>, hash: Hash)
    requires a != b && d == Domain([Entry(|a|, a)], [Entry(|b| + 1, b)]) && hash(a) == 0 && hash(b) == 0
    requires |t0| > 2 && Prime(|t0|) && t == t0[0 := 2]
    requires forall i :: 0 <= i < |t0| ==> t0[i] == if i == 1 then 1 else 0
    ensures Table(t0, 1) && Table(t, 2) && Augmented(t0, t, d, hash, [0], 1)
    ensures Ends(StaticPart(d), t0, hash(a), a, 0, None) && Ends(d, t, hash(a), a, 1, Some(0))
  {
    FirstTwoSlots(|t0|);
    AugmentOne(t0, t0, t, d, hash, [], 0, 0);
    assert [] + [0 as nat] == [0];
    assert Matches(d, 0, a) && !Matches(d, 1, a);
    SecondProbe(d, t, a, 0);
  }

  /** A matching system dependent string stops the lookup. */
  lemma SysdepReached(d: Domain, t0: seq<nat>, t: seq<nat>, hash: Hash, ks: seq<nat>, msgid: string, k: nat,
                      act: Option<nat>, i: nat)
    requires Table(t0, |d.statics|) && Augmented(t0, t, d, hash, ks, |d.sysdeps|) && Table(t, |d.statics| + |d.sysdeps|)
    requires Ends(d, t, hash(msgid), msgid, k, act) && SysdepMatches(d, i, msgid)
    ensures k <= ks[i] && act.Some?
  {
    assert Placed(t, hash(msgid), ks[i], 1 + |d.statics| + i);
  }

  /** A string that was found was found where it was placed. */
  lemma SysdepPlace(d: Domain, t0: seq<nat>, t: seq<nat>, hash: Hash, ks: seq<nat>, msgid: string, k: nat, i: nat)
    requires Table(t0, |d.statics|) && Augmented(t0, t, d, hash, ks, |d.sysdeps|) && Table(t, |d.statics| + |d.sysdeps|)
    requires Ends(d, t, hash(msgid), msgid, k, Some(|d.statics| + i)) && i < |d.sysdeps|
    ensures SysdepMatches(d, i, msgid) && k == ks[i]
  {
    var s := Slot(hash(msgid), k, |t|);
    assert Matches(d, |d.statics| + i, msgid);
    assert t[s] == t0[s] || AddedAt(t, d, hash, ks, s);
    assert Placed(t, hash(msgid), ks[i], 1 + |d.statics| + i);
    SameProbe(hash(msgid), k, ks[i], |t|);
  }

  lemma SysdepFirst(d: Domain, t0: seq<nat>, t: seq<nat>, hash: Hash, ks: seq<nat>, msgid: string, k: nat, i: nat)
    requires Table(t0, |d.statics|) && Augmented(t0, t, d, hash, ks, |d.sysdeps|) && Table(t, |d.statics| + |d.sysdeps|)
    requires Ends(d, t, hash(msgid), msgid, k, Some(|d.statics| + i)) && i < |d.sysdeps|
    ensures FirstSysdep(d, msgid, i)
  {
    SysdepPlace(d, t0, t, hash, ks, msgid, k, i);
    forall j: nat | j < i
      ensures !SysdepMatches(d, j, msgid)
    {
      if SysdepMatches(d, j, msgid) {
        SysdepReached(d, t0, t, hash, ks, msgid, k, Some(|d.statics| + i), j);
      }
    }
  }

  lemma SameProbe(h: nat, j: nat, k: nat, size: nat)
    requires size > 2 && Prime(size) && j < size && k < size && Slot(h, j, size) == Slot(h, k, size)
    ensures j == k
  {
    if j < k {
      ProbesDiffer(h % size, Increment(h, size), j, k, size);
    } else if k < j {
      ProbesDiffer(h % size, Increment(h, size), k, j, size);
    }
  }

  // ------------------------------------------------------------------------
  // Binary search
  // ------------------------------------------------------------------------

  /** strcmp: negative, zero or positive. */
  function Strcmp(a: string, b: string): int {
    if a == b then 0
    else if a == "" then -1
    else if b == "" then 1
    else if a[0] != b[0] then a[0] as int - b[0] as int
    else Strcmp(a[1..], b[1..])
  }

  lemma {:induction false} StrcmpZero(a: string, b: string)
    ensures Strcmp(a, b) == 0 <==> a == b
  {
    if a != "" && b != "" && a[0] == b[0] {
      StrcmpZero(a[1..], b[1..]);
      assert a == [a[0]] + a[1..] && b == [b[0]] + b[1..];
    }
  }

  lemma {:induction false} StrcmpTransitive(a: string, b: string, c: string)
    requires Strcmp(a, b) < 0 && Strcmp(b, c) < 0
    ensures Strcmp(a, c) < 0
  {
    if a != "" && b != "" && c != "" && a[0] == b[0] == c[0] {
      StrcmpTransitive(a[1..], b[1..], c[1..]);
      StrcmpZero(a, c);
    }
  }

  /** The texts are sorted, and so are different. */
  ghost predicate SortedTexts(e: seq<Entry>) {
    forall i, j :: 0 <= i < j < |e| ==> Strcmp(e[i].text, e[j].text) < 0
  }

  lemma {:induction false} StrcmpFlip(a: string, b: string)
    ensures Strcmp(a, b) < 0 <==> Strcmp(b, a) > 0
  {
    if a != "" && b != "" && a[0] == b[0] {
      StrcmpFlip(a[1..], b[1..]);
      StrcmpZero(a, b);
      StrcmpZero(a[1..], b[1..]);
    }
  }

  /** Bisects the sorted static strings. */
  method BinarySearch(d: Domain, msgid: string) returns (found: Option<nat>)
    requires SortedTexts(d.statics)
    ensures found.Some? ==> found.value < |d.statics| && d.statics[found.value].text == msgid
    ensures found == None ==> forall i :: 0 <= i < |d.statics| ==> d.statics[i].text != msgid
  {
    var bottom, top := 0, |d.statics|;
    while bottom < top
      invariant 0 <= bottom <= top <= |d.statics|
      invariant forall i :: 0 <= i < bottom ==> Strcmp(d.statics[i].text, msgid) < 0
      invariant forall i :: top <= i < |d.statics| ==> Strcmp(msgid, d.statics[i].text) < 0
    {
      var act := (bottom + top) / 2;
      var text := d.statics[act].text;
      var cmp_val := Strcmp(msgid, text);
      StrcmpFlip(text, msgid);
      if cmp_val < 0 {
        Above(d.statics, msgid, act);
        top := act;
      } else if cmp_val > 0 {
        BelowAll(d.statics, msgid, act);
        bottom := act + 1;
      } else {
        StrcmpZero(msgid, text);
        return Some(act);
      }
    }
    StrcmpZero(msgid, msgid);
    return None;
  }

  lemma Above(e: seq<Entry>, msgid: string, act: nat)
    requires SortedTexts(e) && act < |e| && Strcmp(msgid, e[act].text) < 0
    ensures forall i :: act <= i < |e| ==> Strcmp(msgid, e[i].text) < 0
  {
    forall i | act < i < |e|
      ensures Strcmp(msgid, e[i].text) < 0
    {
      StrcmpTransitive(msgid, e[act].text, e[i].text);
    }
  }

  lemma BelowAll(e: seq<Entry>, msgid: string, act: nat)
    requires SortedTexts(e) && act < |e| && Strcmp(e[act].text, msgid) < 0
    ensures forall i :: 0 <= i <= act ==> Strcmp(e[i].text, msgid) < 0
  {
    forall i | 0 <= i < act
      ensures Strcmp(e[i].text, msgid) < 0
    {
      StrcmpTransitive(e[i].text, e[act].text, msgid);
    }
  }

  lemma TextsDiffer(e: seq<Entry>, i: nat, j: nat)
    requires SortedTexts(e) && i < |e| && j < |e| && e[i].text == e[j].text
    ensures i == j
  {
    assert Strcmp(e[i].text, e[j].text) == 0 == Strcmp(e[j].text, e[i].text);
  }

  /** What a lookup among static strings alone gives: the one string with that text, or none. */
  ghost predicate TheString(d: Domain, msgid: string, act: Option<nat>) {
    match act
    case Some(i) => i < |d.statics| && d.statics[i].text == msgid
    case None => forall i :: 0 <= i < |d.statics| ==> d.statics[i].text != msgid
  }

  /** If there is a string with that text, one such string can be reached from its hash value. */
  ghost predicate Served(d: Domain, t: seq<nat>, h: nat, msgid: string)
    requires |t| > 2
  {
    (exists i :: 0 <= i < |d.statics| && d.statics[i].text == msgid) ==>
      exists i: nat :: StaticMatches(d, i, msgid) && Reachable(t, h, 1 + i)
  }

  /** Without system dependent strings, the hash table gives the string with that text exactly if it serves it. */
  lemma HashFinds(d: Domain, t: seq<nat>, h: nat, msgid: string, k: nat, act: Option<nat>)
    requires Table(t, |d.statics|) && d.sysdeps == [] && Ends(d, t, h, msgid, k, act)
    ensures TheString(d, msgid, act) <==> Served(d, t, h, msgid)
  {
    if act.Some? {
      assert StaticMatches(d, act.value, msgid) && Placed(t, h, k, 1 + act.value);
    } else if i: nat :| StaticMatches(d, i, msgid) && Reachable(t, h, 1 + i) {
      var j :| Placed(t, h, j, 1 + i);
      assert Matches(d, i, msgid);
    }
  }

  lemma WellHashedServes(d: Domain, t: seq<nat>, hash: Hash, msgid: string)
    requires |t| > 2 && WellHashed(d, t, hash)
    ensures Served(d, t, hash(msgid), msgid)
  {
    if i :| 0 <= i < |d.statics| && d.statics[i].text == msgid {
      assert StaticMatches(d, i, msgid);
    }
  }

  /** The search of _nl_find_msg, with a hash table or without one. For a catalogue without system dependent strings
      both ways give the same result, because it is determined by the texts, if the table serves them all. */
  method FindMsg(d: Domain, hash_tab: array?<nat>, hash: Hash, msgid: string) returns (act: Option<nat>, ghost k: nat)
    requires hash_tab != null ==> Table(hash_tab[..], |d.statics| + |d.sysdeps|) && EmptySlots(hash_tab[..]) > 0
    requires hash_tab == null ==> SortedTexts(d.statics)
    ensures hash_tab != null ==> Ends(d, hash_tab[..], hash(msgid), msgid, k, act)
    ensures hash_tab == null ==> TheString(d, msgid, act)
    ensures hash_tab != null && d.sysdeps == [] ==>
              (TheString(d, msgid, act) <==> Served(d, hash_tab[..], hash(msgid), msgid))
  {
    k := 0;
    if hash_tab != null {
      act, k := Probes(d, hash_tab, hash, msgid);
      if d.sysdeps == [] {
        HashFinds(d, hash_tab[..], hash(msgid), msgid, k, act);
      }
    } else {
      act := BinarySearch(d, msgid);
    }
  }

  lemma TheStringOnce(d: Domain, msgid: string, a: Option<nat>, b: Option<nat>)
    requires SortedTexts(d.statics) && TheString(d, msgid, a) && TheString(d, msgid, b)
    ensures a == b
  {
    if a.Some? && b.Some? {
      TextsDiffer(d.statics, a.value, b.value);
    }
  }
}
