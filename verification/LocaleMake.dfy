/** Finding or making a localised file together with all files that it inherits from. */
module LocaleMake {
  import opened LocaleMasks
  import opened LocaleNames
  import opened LocaleReading
  import opened LocaleList
  import opened Allocator
  import opened Xsize

  // ------------------------------------------------------------------------
  // Inheritance
  // ------------------------------------------------------------------------

  /** m is a successor of n. */
  ghost predicate Succeeds(v: View, n: L10nFile, m: L10nFile) {
    n in v.files && exists j :: 0 <= j < |n.wanted| < |v.files[n].successor| && v.files[n].successor[j] == m
  }

  /** Inheritance descends to shorter names, within the pool. */
  lemma SuccessorShorter(v: View, n: L10nFile, m: L10nFile)
    requires IsGood(v) && v.pending == {} && Succeeds(v, n, m)
    ensures m in v.files && |m.filename| < |n.filename|
  {
    Open(v);
    var j :| 0 <= j < |n.wanted| && v.files[n].successor[j] == m;
    assert Complete(v, n);
    assert Entry(v, n, v.files[n].successor[j], n.wanted[j]);
    WantedShorter(n.dirs, n.mask, n.parts, j);
  }

  /** A path of inheritance. */
  ghost predicate Inheriting(v: View, path: seq<L10nFile>) {
    forall i :: 0 <= i < |path| - 1 ==> Succeeds(v, path[i], path[i + 1])
  }

  /** No file inherits from itself, directly or through others. */
  lemma {:induction false} NoCycle(v: View, path: seq<L10nFile>)
    requires IsGood(v) && v.pending == {} && |path| > 1 && Inheriting(v, path)
    ensures |path[|path| - 1].filename| < |path[0].filename| && path[0] != path[|path| - 1]
  {
    assert Succeeds(v, path[0], path[1]);
    SuccessorShorter(v, path[0], path[1]);
    if |path| > 2 {
      var tail := path[1..];
      assert forall i :: 0 <= i < |tail| ==> tail[i] == path[i + 1];
      NoCycle(v, tail);
    }
  }

  // ------------------------------------------------------------------------
  // Making a file
  // ------------------------------------------------------------------------

  function Rank(dirs: seq<string>): nat {
    if |dirs| > 1 then 1 else 0
  }

  function Decided(dirs: seq<string>, mask: nat): bool {
    |dirs| > 1 || (Has(mask, XPG_CODESET) && Has(mask, XPG_NORM_CODESET))
  }

  /** A file is decided from the start exactly if no file inherits from files with its directories and mask. */
  lemma DecidedIff(dirs: seq<string>, mask: nat)
    requires mask < 16
    ensures Decided(dirs, mask) <==> !exists dirs', mask' :: mask' < 16 && Inherited(dirs, mask, dirs', mask')
  {
    if !Decided(dirs, mask) {
      SubmasksAre(14, 15);
      AllDominate(mask);
      assert mask in Submasks(14, 15) by {
        assert mask <= 14 && Admissible(mask, 15);
      }
      assert dirs in Lookups(dirs);
      assert Inherited(dirs, mask, dirs, 15);
    }
    forall dirs', mask' | mask' < 16 && Inherited(dirs, mask, dirs', mask') ensures !Decided(dirs, mask) {
      SubmasksAre(Highest(dirs', mask'), mask');
    }
  }

  /** The file for dirs' and mask' inherits from that for dirs and mask. */
  predicate Inherited(dirs: seq<string>, mask: nat, dirs': seq<string>, mask': nat) {
    dirs in Lookups(dirs') && mask in Submasks(Highest(dirs', mask'), mask')
  }

  lemma AllDominate(mask: nat)
    requires mask < 16
    ensures Dominated(mask, 15) && (mask == 15 ==> Has(mask, XPG_CODESET) && Has(mask, XPG_NORM_CODESET))
  {
    assert Dominated(mask / 8, 1) && Dominated(mask / 4, 3) && Dominated(mask / 2, 7);
  }

  /** No file is lost, no broken file is mended, and the same ones are pending. */
  ghost predicate Grown(v: View, w: View) {
    v.files.Keys <= w.files.Keys && v.broken <= w.broken && w.pending == v.pending
  }

  /** More files are broken only if memory has been refused. */
  ghost predicate BrokenIf(v: View, w: View, refused: bool) {
    w.broken == v.broken || refused
  }

  /** n has all its successors: the files with the names for the admissible submasks, in decreasing order, and for
      the directories in order. */
  ghost predicate Whole(v: View, n: L10nFile) {
    var names := Wanted(n.dirs, n.mask, n.parts);
    && n in v.files && |names| < |v.files[n].successor| && v.files[n].successor[|names|] == null
    && forall j :: 0 <= j < |names| ==> HasName(v, v.files[n].successor[j], names[j])
  }

  ghost predicate HasName(v: View, s: L10nFile?, name: string) {
    s != null && s in v.files && s.filename == name
  }

  /** All files made since v have all their successors. */
  ghost predicate NewWhole(v: View, w: View) {
    forall n :: n in w.files && n !in v.files ==> Whole(w, n)
  }

  lemma UnbrokenWhole(v: View, n: L10nFile)
    requires IsGood(v) && n in v.files && n !in v.pending && n !in v.broken
    ensures Whole(v, n)
  {
    Open(v);
    assert Complete(v, n) && Named(n);
    forall j | 0 <= j < |n.wanted| ensures HasName(v, v.files[n].successor[j], n.wanted[j]) {
      assert Entry(v, n, v.files[n].successor[j], n.wanted[j]);
    }
  }

  /** If no memory was refused, no file that has been made is broken. */
  lemma NothingBroken(v: View, w: View)
    requires IsGood(v) && IsGood(w) && Grown(v, w) && w.broken == v.broken
    ensures NewWhole(v, w)
  {
    Open(v);
    forall n | n in w.files && n !in v.files ensures Whole(w, n) {
      UnbrokenWhole(w, n);
    }
  }

  /** n has been made for the parts, for a submask, and for the directories or one of them. */
  ghost predicate MadeFor(n: L10nFile, dirs: seq<string>, mask: nat, p: Parts) {
    && n.parts == p && Dominated(n.mask, mask) && (n.dirs == dirs || n.dirs in Lookups(dirs))
    && n.decided == Decided(n.dirs, n.mask)
  }

  /** All files made since v have been made for these directories, this mask and these parts. */
  ghost predicate NewFor(v: View, w: View, dirs: seq<string>, mask: nat, p: Parts) {
    forall n :: n in w.files && n !in v.files ==> MadeFor(n, dirs, mask, p)
  }

  lemma NothingNew(v: View, w: View, dirs: seq<string>, mask: nat, p: Parts)
    requires w.files.Keys <= v.files.Keys
    ensures NewFor(v, w, dirs, mask, p)
  {
  }

  lemma NewForThen(v: View, w: View, x: View, dirs: seq<string>, mask: nat, p: Parts)
    requires NewFor(v, w, dirs, mask, p) && NewFor(w, x, dirs, mask, p)
    ensures NewFor(v, x, dirs, mask, p)
  {
  }

  /** What is made for a lookup and a submask is made for the whole. */
  lemma NewForPart(v: View, w: View, lookup: seq<string>, cnt: nat, dirs: seq<string>, mask: nat, p: Parts)
    requires NewFor(v, w, lookup, cnt, p) && lookup in Lookups(dirs) && Dominated(cnt, mask)
    ensures NewFor(v, w, dirs, mask, p)
  {
    assert Lookups(lookup) == [lookup];
    forall n | n in w.files && n !in v.files ensures MadeFor(n, dirs, mask, p) {
      assert MadeFor(n, lookup, cnt, p);
      DominatedTransitive(n.mask, cnt, mask);
    }
  }

  lemma NewForFile(v: View, w: View, n: L10nFile)
    requires Added(v, w, n) && n.decided == Decided(n.dirs, n.mask)
    ensures NewFor(v, w, n.dirs, n.mask, n.parts)
  {
    DominatesItself(n.mask);
  }

  /** A new file without successors, at its place in the list. */
  method AddFile(pool: Pool, dirs: seq<string>, mask: nat, p: Parts, name: string, prev: L10nFile?, ghost at: nat)
    returns (n: L10nFile)
    requires pool.Valid() && Place(pool.view.nodes, name, prev, at) && (prev != null ==> prev in pool.view.files)
    requires mask < 16 && name == FileName(dirs, mask, p)
    modifies pool, pool.view.files.Keys`next
    ensures pool.Valid() && fresh(n) && Added(old(pool.view), pool.view, n)
    ensures n.filename == name && n.decided == Decided(dirs, mask)
    ensures n.dirs == dirs && n.mask == mask && n.parts == p && n.wanted == Wanted(dirs, mask, p)
    ensures Filled(pool.view, n, 0)
  {
    WantedFits(dirs, mask, p);
    var parts := CountParts(mask);
    var room := 1 + (DirCount(dirs) * Pow2(parts) + if DirCount(dirs) > 1 then 1 else 0);
    n := new L10nFile(name, Decided(dirs, mask), room, dirs, mask, p);
    pool.Insert(n, prev, at);
  }

  /** n is new and pending. */
  ghost predicate Added(v: View, w: View, n: L10nFile) {
    && n !in v.files && n !in v.pending && w.files.Keys == v.files.Keys + {n}
    && w.pending == v.pending + {n} && w.broken == v.broken
  }

  /** Fills in one successor. */
  method FillEntry(
    pool: Pool, n: L10nFile, lookup: seq<string>, ghost dirs: seq<string>, ghost mask: nat, cnt: nat, p: Parts, k: nat,
    mem: Memory)
    requires pool.Valid() && n in pool.view.pending && Filled(pool.view, n, k)
    requires cnt <= mask < 16 && k < |n.wanted| && n.wanted[k] == FileName(lookup, cnt, p)
    requires Effective(lookup, p) == lookup && lookup in Lookups(dirs) && Dominated(cnt, mask)
    requires Rank(lookup) < Rank(dirs) || (Rank(lookup) == Rank(dirs) && cnt < mask)
    modifies pool, pool.view.files.Keys`next, n`successor, mem
    decreases Rank(dirs), mask, 0, 0, 0
    ensures pool.Valid() && Grown(old(pool.view), pool.view) && Filled(pool.view, n, k + 1)
    ensures NewFor(old(pool.view), pool.view, dirs, mask, p)
    ensures BrokenIf(old(pool.view), pool.view, mem.Refused(old(mem.calls))) && old(mem.calls) <= mem.calls
    ensures fresh(pool.view.files.Keys - old(pool.view.files.Keys))
  {
    ghost var v := pool.view;
    assert v.files[n].successor == n.successor;
    var s := MakeL10nFlist(pool, lookup, cnt, p, true, mem);
    ghost var w := pool.view;
    assert w.files[n].successor == n.successor;
    MoreFilled(v, w, n, k);
    FilledNext(w, n, k, s);
    NewForPart(v, w, lookup, cnt, dirs, mask, p);
    pool.SetSuccessor(n, k, s);
  }

  /** Fills in the successors for one submask. */
  method FillMask(
    pool: Pool, n: L10nFile, dirs: seq<string>, mask: nat, cnt: nat, p: Parts, k: nat, mem: Memory)
    returns (entries: nat)
    requires pool.Valid() && n in pool.view.pending && Filled(pool.view, n, k)
    requires cnt <= Highest(dirs, mask) && mask < 16 && Effective(dirs, p) == dirs && Dominated(cnt, mask)
    requires k + |Lookups(dirs)| <= |n.wanted| && n.wanted[k..k + |Lookups(dirs)|] == NamesFor(Lookups(dirs), cnt, p)
    modifies pool, pool.view.files.Keys`next, n`successor, mem
    decreases Rank(dirs), mask, 0, 1
    ensures pool.Valid() && Grown(old(pool.view), pool.view) && Filled(pool.view, n, entries)
    ensures NewFor(old(pool.view), pool.view, dirs, mask, p)
    ensures BrokenIf(old(pool.view), pool.view, mem.Refused(old(mem.calls))) && old(mem.calls) <= mem.calls
    ensures fresh(pool.view.files.Keys - old(pool.view.files.Keys))
    ensures entries == k + |Lookups(dirs)|
  {
    if |dirs| > 1 {
      FillDirs(pool, n, dirs, mask, cnt, p, k, mem);
      entries := k + |dirs|;
    } else {
      assert n.wanted[k] == n.wanted[k..k + 1][0];
      FillEntry(pool, n, dirs, dirs, mask, cnt, p, k, mem);
      entries := k + 1;
    }
  }

  lemma SingleWanted(wanted: seq<string>, k: nat, dirs: seq<string>, cnt: nat, p: Parts, i: nat)
    requires |dirs| > 1 && i < |dirs| && k + |dirs| <= |wanted|
    requires wanted[k..k + |dirs|] == NamesFor(Singles(dirs), cnt, p)
    ensures [dirs[i]] in Lookups(dirs) && wanted[k + i] == FileName([dirs[i]], cnt, p)
  {
    assert wanted[k + i] == wanted[k..k + |dirs|][i];
    assert Lookups(dirs)[i] == [dirs[i]];
  }

  /** Fills in the successor for one directory of a list. */
  method FillDir(
    pool: Pool, n: L10nFile, dirs: seq<string>, mask: nat, cnt: nat, p: Parts, k: nat, i: nat, mem: Memory)
    requires pool.Valid() && n in pool.view.pending && Filled(pool.view, n, k + i)
    requires |dirs| > 1 && i < |dirs| && cnt <= mask < 16 && Effective(dirs, p) == dirs && Dominated(cnt, mask)
    requires k + |dirs| <= |n.wanted| && n.wanted[k..k + |dirs|] == NamesFor(Singles(dirs), cnt, p)
    modifies pool, pool.view.files.Keys`next, n`successor, mem
    decreases Rank(dirs), mask, 0, 0, 1
    ensures pool.Valid() && Grown(old(pool.view), pool.view) && Filled(pool.view, n, k + i + 1)
    ensures NewFor(old(pool.view), pool.view, dirs, mask, p)
    ensures BrokenIf(old(pool.view), pool.view, mem.Refused(old(mem.calls))) && old(mem.calls) <= mem.calls
    ensures fresh(pool.view.files.Keys - old(pool.view.files.Keys))
  {
    SingleWanted(n.wanted, k, dirs, cnt, p, i);
    FillEntry(pool, n, [dirs[i]], dirs, mask, cnt, p, k + i, mem);
  }

  /** Fills in the successors for one submask and all directories of a list. */
  method FillDirs(pool: Pool, n: L10nFile, dirs: seq<string>, mask: nat, cnt: nat, p: Parts, k: nat, mem: Memory)
    requires pool.Valid() && n in pool.view.pending && Filled(pool.view, n, k)
    requires |dirs| > 1 && cnt <= mask < 16 && Effective(dirs, p) == dirs && Dominated(cnt, mask)
    requires k + |dirs| <= |n.wanted| && n.wanted[k..k + |dirs|] == NamesFor(Singles(dirs), cnt, p)
    modifies pool, pool.view.files.Keys`next, n`successor, mem
    decreases Rank(dirs), mask, 0, 0, 2
    ensures pool.Valid() && Grown(old(pool.view), pool.view) && Filled(pool.view, n, k + |dirs|)
    ensures NewFor(old(pool.view), pool.view, dirs, mask, p)
    ensures BrokenIf(old(pool.view), pool.view, mem.Refused(old(mem.calls))) && old(mem.calls) <= mem.calls
    ensures fresh(pool.view.files.Keys - old(pool.view.files.Keys))
  {
    ghost var v := pool.view;
    var i := 0;
    while i < |dirs|
      invariant 0 <= i <= |dirs|
      invariant pool.Valid() && Grown(old(pool.view), pool.view) && Filled(pool.view, n, k + i)
      invariant NewFor(old(pool.view), pool.view, dirs, mask, p)
      invariant BrokenIf(old(pool.view), pool.view, mem.Refused(old(mem.calls))) && old(mem.calls) <= mem.calls
      invariant fresh(pool.view.files.Keys - old(pool.view.files.Keys))
    {
      ghost var w := pool.view;
      FillDir(pool, n, dirs, mask, cnt, p, k, i, mem);
      NewForThen(v, w, pool.view, dirs, mask, p);
      i := i + 1;
    }
  }

  /** The wanted names from k on are those for the submasks from hi on; the definition is sealed like that of IsGood. */
  ghost predicate Due(wanted: seq<string>, k: nat, dirs: seq<string>, hi: int, mask: nat, p: Parts, depth: nat) {
    if depth == 0 then
      k <= |wanted| && wanted[k..] == NamesForAll(Lookups(dirs), Submasks(hi, mask), p)
    else
      Due(wanted, k, dirs, hi, mask, p, depth - 1)
  }

  ghost predicate IsDue(wanted: seq<string>, k: nat, dirs: seq<string>, hi: int, mask: nat, p: Parts) {
    Due(wanted, k, dirs, hi, mask, p, 4)
  }

  lemma OpenDue(wanted: seq<string>, k: nat, dirs: seq<string>, hi: int, mask: nat, p: Parts)
    ensures IsDue(wanted, k, dirs, hi, mask, p) == Due(wanted, k, dirs, hi, mask, p, 0)
  {
    assert Due(wanted, k, dirs, hi, mask, p, 3) == Due(wanted, k, dirs, hi, mask, p, 2)
        == Due(wanted, k, dirs, hi, mask, p, 1) == Due(wanted, k, dirs, hi, mask, p, 0);
  }

  lemma AllDue(wanted: seq<string>, dirs: seq<string>, mask: nat, p: Parts)
    requires wanted == Wanted(dirs, mask, p)
    ensures IsDue(wanted, 0, dirs, Highest(dirs, mask), mask, p)
  {
    OpenDue(wanted, 0, dirs, Highest(dirs, mask), mask, p);
    assert wanted[0..] == wanted;
  }

  lemma NothingDue(wanted: seq<string>, k: nat, dirs: seq<string>, mask: nat, p: Parts)
    requires IsDue(wanted, k, dirs, -1, mask, p)
    ensures k == |wanted|
  {
    OpenDue(wanted, k, dirs, -1, mask, p);
    assert |wanted[k..]| == 0;
  }

  lemma NamesOfFirst(lookups: seq<seq<string>>, cnt: nat, rest: seq<nat>, p: Parts)
    ensures NamesForAll(lookups, [cnt] + rest, p) == NamesFor(lookups, cnt, p) + NamesForAll(lookups, rest, p)
  {
    assert ([cnt] + rest)[1..] == rest;
  }

  lemma SplitOff(wanted: seq<string>, k: nat, a: seq<string>, b: seq<string>)
    requires k <= |wanted| && wanted[k..] == a + b
    ensures k + |a| <= |wanted| && wanted[k..k + |a|] == a && wanted[k + |a|..] == b
  {
    assert wanted[k..k + |a|] == wanted[k..][..|a|];
    assert wanted[k + |a|..] == wanted[k..][|a|..];
  }

  /** Where the next submask is not admissible, it has no names. */
  lemma NoneDue(wanted: seq<string>, k: nat, dirs: seq<string>, cnt: nat, mask: nat, p: Parts)
    requires IsDue(wanted, k, dirs, cnt, mask, p) && !Admissible(cnt, mask)
    ensures IsDue(wanted, k, dirs, cnt - 1, mask, p)
  {
    OpenDue(wanted, k, dirs, cnt, mask, p);
    OpenDue(wanted, k, dirs, cnt - 1, mask, p);
    assert [] + Submasks(cnt - 1, mask) == Submasks(cnt - 1, mask);
  }

  /** Otherwise its names come next. */
  lemma FirstDue(wanted: seq<string>, k: nat, dirs: seq<string>, cnt: nat, mask: nat, p: Parts)
    requires IsDue(wanted, k, dirs, cnt, mask, p) && Admissible(cnt, mask)
    ensures k <= |wanted|
    ensures wanted[k..] == NamesFor(Lookups(dirs), cnt, p) + NamesForAll(Lookups(dirs), Submasks(cnt - 1, mask), p)
  {
    OpenDue(wanted, k, dirs, cnt, mask, p);
    assert Submasks(cnt, mask) == [cnt] + Submasks(cnt - 1, mask);
    NamesOfFirst(Lookups(dirs), cnt, Submasks(cnt - 1, mask), p);
  }

  lemma NextDue(wanted: seq<string>, k: nat, dirs: seq<string>, cnt: nat, mask: nat, p: Parts)
    requires IsDue(wanted, k, dirs, cnt, mask, p) && Admissible(cnt, mask)
    ensures k + |Lookups(dirs)| <= |wanted|
    ensures wanted[k..k + |Lookups(dirs)|] == NamesFor(Lookups(dirs), cnt, p)
    ensures IsDue(wanted, k + |Lookups(dirs)|, dirs, cnt - 1, mask, p)
  {
    FirstDue(wanted, k, dirs, cnt, mask, p);
    var names := NamesFor(Lookups(dirs), cnt, p);
    SplitOff(wanted, k, names, NamesForAll(Lookups(dirs), Submasks(cnt - 1, mask), p));
    OpenDue(wanted, k + |names|, dirs, cnt - 1, mask, p);
  }

  /** One round of the loop over the submasks. */
  method FillRound(
    pool: Pool, n: L10nFile, dirs: seq<string>, mask: nat, cnt: nat, p: Parts, k: nat, mem: Memory)
    returns (entries: nat)
    requires pool.Valid() && n in pool.view.pending && Filled(pool.view, n, k)
    requires cnt <= Highest(dirs, mask) && mask < 16 && Effective(dirs, p) == dirs
    requires IsDue(n.wanted, k, dirs, cnt, mask, p)
    modifies pool, pool.view.files.Keys`next, n`successor, mem
    decreases Rank(dirs), mask, 0, 2
    ensures pool.Valid() && Grown(old(pool.view), pool.view) && Filled(pool.view, n, entries)
    ensures NewFor(old(pool.view), pool.view, dirs, mask, p)
    ensures BrokenIf(old(pool.view), pool.view, mem.Refused(old(mem.calls))) && old(mem.calls) <= mem.calls
    ensures fresh(pool.view.files.Keys - old(pool.view.files.Keys))
    ensures IsDue(n.wanted, entries, dirs, cnt - 1, mask, p)
  {
    entries := k;
    if !Admissible(cnt, mask) {
      NoneDue(n.wanted, k, dirs, cnt, mask, p);
    } else {
      NextDue(n.wanted, k, dirs, cnt, mask, p);
      entries := FillMask(pool, n, dirs, mask, cnt, p, k, mem);
    }
  }

  /** The loop over the submasks. */
  method FillRounds(pool: Pool, n: L10nFile, dirs: seq<string>, mask: nat, p: Parts, mem: Memory)
    returns (entries: nat)
    requires pool.Valid() && n in pool.view.pending && Filled(pool.view, n, 0)
    requires mask < 16 && n.wanted == Wanted(dirs, mask, p) && Effective(dirs, p) == dirs
    modifies pool, pool.view.files.Keys`next, n`successor, mem
    decreases Rank(dirs), mask, 0, 3
    ensures pool.Valid() && Grown(old(pool.view), pool.view) && Filled(pool.view, n, entries) && entries == |n.wanted|
    ensures NewFor(old(pool.view), pool.view, dirs, mask, p)
    ensures BrokenIf(old(pool.view), pool.view, mem.Refused(old(mem.calls))) && old(mem.calls) <= mem.calls
    ensures fresh(pool.view.files.Keys - old(pool.view.files.Keys))
  {
    ghost var v := pool.view;
    entries := 0;
    var cnt: int := Highest(dirs, mask);
    AllDue(n.wanted, dirs, mask, p);
    while cnt >= 0
      invariant -1 <= cnt <= Highest(dirs, mask)
      invariant pool.Valid() && Grown(old(pool.view), pool.view) && Filled(pool.view, n, entries)
      invariant NewFor(old(pool.view), pool.view, dirs, mask, p)
      invariant BrokenIf(old(pool.view), pool.view, mem.Refused(old(mem.calls))) && old(mem.calls) <= mem.calls
      invariant fresh(pool.view.files.Keys - old(pool.view.files.Keys))
      invariant IsDue(n.wanted, entries, dirs, cnt, mask, p)
      decreases cnt + 1
    {
      ghost var w := pool.view;
      entries := FillRound(pool, n, dirs, mask, cnt, p, entries, mem);
      NewForThen(v, w, pool.view, dirs, mask, p);
      cnt := cnt - 1;
    }
    NothingDue(n.wanted, entries, dirs, mask, p);
  }

  /** Fills in the successors of a new file, and makes them where necessary. */
  method Fill(pool: Pool, n: L10nFile, dirs: seq<string>, mask: nat, p: Parts, mem: Memory)
    requires pool.Valid() && n in pool.view.pending && Filled(pool.view, n, 0)
    requires mask < 16 && n.wanted == Wanted(dirs, mask, p) && Effective(dirs, p) == dirs
    modifies pool, pool.view.files.Keys`next, n`successor, mem
    decreases Rank(dirs), mask, 1
    ensures pool.Valid() && Finished(old(pool.view), pool.view, n)
    ensures NewFor(old(pool.view), pool.view, dirs, mask, p)
    ensures BrokenIf(old(pool.view), pool.view, mem.Refused(old(mem.calls))) && old(mem.calls) <= mem.calls
    ensures fresh(pool.view.files.Keys - old(pool.view.files.Keys))
  {
    var entries := FillRounds(pool, n, dirs, mask, p, mem);
    Terminate(pool, n, entries);
  }

  /** Terminates the list of successors. */
  method Terminate(pool: Pool, n: L10nFile, entries: nat)
    requires pool.Valid() && n in pool.view.pending && entries == |n.wanted| && Filled(pool.view, n, entries)
    modifies pool, n`successor
    ensures pool.Valid() && pool.view.files.Keys == old(pool.view.files.Keys)
    ensures pool.view.pending == old(pool.view.pending) - {n} && pool.view.broken == old(pool.view.broken)
  {
    FilledLast(pool.view, n);
    pool.SetSuccessor(n, entries, null);
    pool.Finish(n);
  }

  /** n is not pending any more. */
  ghost predicate Finished(v: View, w: View, n: L10nFile) {
    v.files.Keys <= w.files.Keys && v.broken <= w.broken && w.pending == v.pending - {n}
  }

  lemma MadeAndFinished(v: View, w: View, x: View, n: L10nFile)
    requires Added(v, w, n) && Finished(w, x, n)
    ensures Grown(v, x) && n in x.files
    ensures forall f :: f in x.files.Keys - v.files.Keys ==> f == n || f in x.files.Keys - w.files.Keys
  {
  }

  /** Makes a file that is not there yet. */
  method AddAndFill(
    pool: Pool, dirs: seq<string>, mask: nat, p: Parts, name: string, prev: L10nFile?, ghost at: nat, mem: Memory)
    returns (r: L10nFile)
    requires pool.Valid() && Place(pool.view.nodes, name, prev, at) && (prev != null ==> prev in pool.view.files)
    requires mask < 16 && name == FileName(dirs, mask, p) && Effective(dirs, p) == dirs
    modifies pool, pool.view.files.Keys`next, mem
    decreases Rank(dirs), mask, 2
    ensures pool.Valid() && Grown(old(pool.view), pool.view) && NewFor(old(pool.view), pool.view, dirs, mask, p)
    ensures BrokenIf(old(pool.view), pool.view, mem.Refused(old(mem.calls))) && old(mem.calls) <= mem.calls
    ensures fresh(pool.view.files.Keys - old(pool.view.files.Keys))
    ensures r in pool.view.files && r.filename == name && r.dirs == dirs && r.mask == mask && r.parts == p
  {
    ghost var v := pool.view;
    r := AddFile(pool, dirs, mask, p, name, prev, at);
    ghost var w := pool.view;
    Fill(pool, r, dirs, mask, p, mem);
    MadeAndFinished(v, w, pool.view, r);
    NewForFile(v, w, r);
    NewForThen(v, w, pool.view, dirs, mask, p);
  }

  method MakeNew(
    pool: Pool, dirs: seq<string>, mask: nat, p: Parts, name: string, prev: L10nFile?, ghost at: nat, mem: Memory)
    returns (r: L10nFile?)
    requires pool.Valid() && Place(pool.view.nodes, name, prev, at) && (prev != null ==> prev in pool.view.files)
    requires mask < 16 && name == FileName(dirs, mask, p) && Effective(dirs, p) == dirs
    modifies pool, pool.view.files.Keys`next, mem
    decreases Rank(dirs), mask, 3
    ensures pool.Valid() && Grown(old(pool.view), pool.view) && NewFor(old(pool.view), pool.view, dirs, mask, p)
    ensures BrokenIf(old(pool.view), pool.view, mem.Refused(old(mem.calls))) && old(mem.calls) <= mem.calls
    ensures fresh(pool.view.files.Keys - old(pool.view.files.Keys))
    ensures r != null ==>
              r in pool.view.files && r.filename == name && r.dirs == dirs && r.mask == mask && r.parts == p
    ensures r == null ==> mem.Refused(old(mem.calls))
  {
    var ok := mem.Allocate(0);
    if ok {
      r := AddAndFill(pool, dirs, mask, p, name, prev, at, mem);
    } else {
      r := null;
      NothingNew(pool.view, pool.view, dirs, mask, p);
    }
  }

  method Find(pool: Pool, dirs: seq<string>, mask: nat, p: Parts, mem: Memory)
    returns (ok: bool, r: L10nFile?, name: string, prev: L10nFile?, ghost at: nat)
    requires pool.Valid()
    modifies mem
    ensures name == FileName(dirs, mask, p) && old(mem.calls) <= mem.calls && (!ok ==> mem.Refused(old(mem.calls)))
    ensures ok && r != null ==> r in pool.view.files && r.filename == name
    ensures ok && r == null ==>
              && Place(pool.view.nodes, name, prev, at) && (prev != null ==> prev in pool.view.files)
              && !Known(pool.view, name)
  {
    ok := mem.Allocate(0);
    r, prev, name, at := null, null, FileName(dirs, mask, p), 0;
    if ok {
      var buf := BuildName(dirs, mask, p);
      name := buf[..buf.Length - 1];
      r, prev, at := pool.Search(name);
    }
  }

  /** Finds the file for dirs and mask, or makes it, with all files that it inherits from. */
  method MakeL10nFlist(pool: Pool, dirlist: seq<string>, mask: nat, p: Parts, allocate: bool, mem: Memory)
    returns (r: L10nFile?)
    requires pool.Valid() && mask < 16
    modifies pool, pool.view.files.Keys`next, mem
    decreases Rank(dirlist), mask, 4
    ensures pool.Valid() && Grown(old(pool.view), pool.view)
    ensures BrokenIf(old(pool.view), pool.view, mem.Refused(old(mem.calls))) && old(mem.calls) <= mem.calls
    ensures fresh(pool.view.files.Keys - old(pool.view.files.Keys))
    ensures !mem.Refused(old(mem.calls)) ==> NewWhole(old(pool.view), pool.view)
    ensures NewFor(old(pool.view), pool.view, Effective(dirlist, p), mask, p)
    ensures r != null && r !in old(pool.view.files) ==>
              r.dirs == Effective(dirlist, p) && r.mask == mask && r.parts == p
    ensures r != null ==>
              Means(r.filename, if p.language != "" && p.language[0] == '/' then [] else dirlist, mask, p)
    ensures var name := FileName(Effective(dirlist, p), mask, p);
            && (r != null ==> r in pool.view.files && r.filename == name)
            && (r == null ==> mem.Refused(old(mem.calls)) || (!allocate && !Known(old(pool.view), name)))
            && (!allocate || Known(old(pool.view), name) ==> pool.view == old(pool.view))
  {
    NameMeans(Effective(dirlist, p), mask, p);
    ghost var v := pool.view;
    var dirs := Effective(dirlist, p);
    var ok, name, prev;
    ghost var at;
    ok, r, name, prev, at := Find(pool, dirs, mask, p, mem);
    if !ok {
      return null;
    }
    if r == null && allocate {
      r := MakeNew(pool, dirs, mask, p, name, prev, at, mem);
    }
    if !mem.Refused(old(mem.calls)) {
      NothingBroken(v, pool.view);
    }
  }
}
