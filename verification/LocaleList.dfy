/** The pool of localised files: a list in decreasing order of names, in which every file knows the files it
    inherits from. */
module LocaleList {
  import opened LocaleMasks
  import opened LocaleNames
  import opened Allocator
  import opened TextBuffer
  import opened LocaleReading
  import opened LocaleExplode
  import opened Wrappers

  /** struct loaded_l10nfile, with room for a fixed number of successors. The ghost fields say for which
      directories, mask and parts it has been made, and which names it inherits from. */
  class L10nFile {
    const filename: string
    const decided: bool
    var next: L10nFile?
    var successor: seq<L10nFile?>
    ghost const dirs: seq<string>
    ghost const mask: nat
    ghost const parts: Parts
    ghost const wanted: seq<string>

    constructor (name: string, d: bool, room: nat, ghost ds: seq<string>, ghost m: nat, ghost p: Parts)
      ensures filename == name && decided == d && next == null && |successor| == room
      ensures dirs == ds && mask == m && parts == p && wanted == Wanted(ds, m, p)
    {
      filename, decided, next, dirs, mask, parts, wanted := name, d, null, ds, m, p, Wanted(ds, m, p);
      successor := seq(room, _ => null);
    }
  }

  // ------------------------------------------------------------------------
  // The pool as a value
  // ------------------------------------------------------------------------

  /** The fields of a file that change. */
  datatype Cell = Cell(next: L10nFile?, successor: seq<L10nFile?>)

  ghost function Snapshot(files: set<L10nFile>): map<L10nFile, Cell>
    reads files
  {
    map f | f in files :: Cell(f.next, f.successor)
  }

  /** nodes are the files in the order of the list; pending are those whose successors are still being filled in;
      broken are those that miss a successor because memory was refused for it. */
  datatype View = View(
    head: L10nFile?, nodes: seq<L10nFile>, pending: set<L10nFile>, broken: set<L10nFile>, files: map<L10nFile, Cell>)

  function At(nodes: seq<L10nFile>, i: nat): L10nFile? {
    if i < |nodes| then nodes[i] else null
  }

  /** A successor of n is a file of the pool with the wanted name; only a broken file may miss it. */
  ghost predicate Entry(v: View, n: L10nFile, s: L10nFile?, name: string) {
    if s == null then n in v.broken else s in v.files && s.filename == name
  }

  /** The first k successors of n are there. */
  ghost predicate Filled(v: View, n: L10nFile, k: nat) {
    && n in v.files && k <= |n.wanted| < |v.files[n].successor|
    && forall j :: 0 <= j < k ==> Entry(v, n, v.files[n].successor[j], n.wanted[j])
  }

  /** n inherits from exactly the files it should, in order, and the list of its successors is terminated. */
  ghost predicate Complete(v: View, n: L10nFile) {
    Filled(v, n, |n.wanted|) && v.files[n].successor[|n.wanted|] == null
  }

  ghost predicate AllComplete(v: View) {
    forall n :: n in v.files && n !in v.pending ==> Complete(v, n)
  }

  /** n has the name for its directories, mask and parts, and wants to inherit from the names for them. */
  ghost predicate Named(n: L10nFile) {
    n.mask < 16 && n.filename == FileName(n.dirs, n.mask, n.parts) && n.wanted == Wanted(n.dirs, n.mask, n.parts)
  }

  ghost predicate AllNamed(files: set<L10nFile>) {
    forall n :: n in files ==> Named(n)
  }

  ghost function Elements(nodes: seq<L10nFile>): set<L10nFile> {
    set n | n in nodes
  }

  ghost predicate Decreasing(nodes: seq<L10nFile>) {
    forall i, j :: 0 <= i < j < |nodes| ==> Compare(nodes[i].filename, nodes[j].filename) > 0
  }

  /** nodes are chained from head. */
  ghost predicate Linked(head: L10nFile?, nodes: seq<L10nFile>, files: map<L10nFile, Cell>) {
    head == At(nodes, 0) && forall i :: 0 <= i < |nodes| ==>
          nodes[i] in files && files[nodes[i]].next == At(nodes, i + 1)
  }

  /** The list holds exactly the files, in decreasing order of names, and all but the pending ones are complete. */
  ghost predicate Good(v: View) {
    && Linked(v.head, v.nodes, v.files) && Decreasing(v.nodes) && v.files.Keys == Elements(v.nodes)
    && v.pending <= v.files.Keys && v.broken <= v.files.Keys && AllComplete(v) && AllNamed(v.files.Keys)
  }

  /** Good, sealed: its definition is seen only where a lemma opens it. */
  ghost predicate Sealed(v: View, depth: nat) {
    if depth == 0 then Good(v) else Sealed(v, depth - 1)
  }

  ghost predicate IsGood(v: View) {
    Sealed(v, 4)
  }

  lemma Open(v: View)
    ensures IsGood(v) <==> Good(v)
  {
    assert Sealed(v, 4) == Sealed(v, 3) == Sealed(v, 2) == Sealed(v, 1) == Sealed(v, 0);
  }

  class Pool {
    var head: L10nFile?
    ghost var view: View

    constructor ()
      ensures Valid() && view.files == map[]
    {
      head, view := null, View(null, [], {}, {}, map[]);
      Open(View(null, [], {}, {}, map[]));
    }

    /** view is what the pool looks like. */
    ghost predicate Valid()
      reads this, view.files.Keys
    {
      head == view.head && Snapshot(view.files.Keys) == view.files && IsGood(view)
    }

    /** Walks along the list while the names are larger. */
    method Walk(name: string, ghost nodes: seq<L10nFile>) returns (found: L10nFile?, prev: L10nFile?, ghost at: nat)
      requires Valid() && nodes == view.nodes
      ensures found != null ==> found in view.files && found.filename == name
      ensures found == null ==> at <= |nodes| && prev == (if at == 0 then null else nodes[at - 1])
      ensures found == null ==> forall k :: 0 <= k < at ==> Compare(nodes[k].filename, name) > 0
      ensures found == null && at < |nodes| ==> Compare(nodes[at].filename, name) < 0
    {
      found, prev, at := head, null, 0;
      LinkedHead(view);
      while found != null
        invariant 0 <= at <= |nodes| && found == At(nodes, at) && prev == (if at == 0 then null else nodes[at - 1])
        invariant forall k :: 0 <= k < at ==> Compare(nodes[k].filename, name) > 0
        decreases |nodes| - at
      {
        LinkedAt(view, at);
        assert found.next == view.files[found].next;
        var compare := Compare(found.filename, name);
        if compare == 0 {
          CompareEqual(found.filename, name);
          return;
        }
        if compare < 0 {
          found := null;
          return;
        }
        prev, found, at := found, found.next, at + 1;
      }
    }

    /** Looks for a name: finds its file, or the place where it has to be inserted. */
    method Search(name: string) returns (found: L10nFile?, prev: L10nFile?, ghost at: nat)
      requires Valid()
      ensures found != null ==> found in view.files && found.filename == name
      ensures found == null ==>
              Place(view.nodes, name, prev, at) && (prev != null ==> prev in view.files) && !Known(view, name)
    {
      found, prev, at := Walk(name, view.nodes);
      if found == null {
        if at > 0 {
          LinkedAt(view, at - 1);
        }
        if at < |view.nodes| {
          Open(view);
          BehindIsSmaller(view.nodes, at, name);
        }
        PlaceUnknown(view, name, prev, at);
      }
    }

    /** Links n in behind prev, or at the head of the list. */
    method Link(n: L10nFile, prev: L10nFile?, ghost members: set<L10nFile>)
      requires n in members && (prev != null ==> prev in members && prev != n)
      modifies this`head, n`next, members`next
      ensures head == if prev == null then n else old(head)
      ensures Snapshot(members) == LinkedFiles(old(Snapshot(members)), n, prev, old(head))
    {
      if prev == null {
        n.next := head;
        head := n;
      } else {
        n.next := prev.next;
        prev.next := n;
      }
    }

    /** Inserts n; it is pending. */
    method Insert(n: L10nFile, prev: L10nFile?, ghost at: nat)
      requires Valid() && n !in view.files && Named(n) && Place(view.nodes, n.filename, prev, at)
                 && (prev != null ==> prev in view.files)
      modifies this, n`next, view.files.Keys`next
      ensures Valid() && view == Inserted(old(view), n, n.successor, prev, at)
    {
      ghost var v, c := view, Cell(n.next, n.successor);
      InsertedGood(v, n, c.successor, prev, at);
      LinkedInserted(v, n, c, prev, at);
      ghost var w := Inserted(v, n, c.successor, prev, at);
      JoinSnapshot(v.files.Keys, n);
      Link(n, prev, w.files.Keys);
      view := w;
    }

    /** Sets successor k of a pending file. A missing successor breaks the file. */
    method SetSuccessor(n: L10nFile, k: nat, s: L10nFile?)
      requires Valid() && n in view.files && n in view.pending && k < |view.files[n].successor|
      modifies this`view, n`successor
      ensures Valid() && view == WithSuccessor(old(view), n, k, s)
    {
      SuccessorGood(view, n, k, s);
      assert view.files[n].successor == n.successor;
      n.successor := n.successor[k := s];
      view := WithSuccessor(view, n, k, s);
    }

    /** n is not pending any more. */
    ghost method Finish(n: L10nFile)
      requires Valid() && Complete(view, n)
      modifies this`view
      ensures Valid() && view == old(view).(pending := old(view).pending - {n})
    {
      FinishGood(view, n);
      view := view.(pending := view.pending - {n});
    }
  }

  ghost function WithSuccessor(v: View, n: L10nFile, k: nat, s: L10nFile?): View
    requires n in v.files && k < |v.files[n].successor|
  {
    v.(files := v.files[n := Cell(v.files[n].next, v.files[n].successor[k := s])],
       broken := if s == null && k < |n.wanted| then v.broken + {n} else v.broken)
  }

  lemma SuccessorGood(v: View, n: L10nFile, k: nat, s: L10nFile?)
    requires IsGood(v) && n in v.files && n in v.pending && k < |v.files[n].successor|
    ensures IsGood(WithSuccessor(v, n, k, s))
  {
    var w := WithSuccessor(v, n, k, s);
    Open(v);
    SuccessorLinked(v, n, k, s);
    MoreComplete(v, w);
    assert w.files.Keys == v.files.Keys;
    Open(w);
  }

  lemma SuccessorLinked(v: View, n: L10nFile, k: nat, s: L10nFile?)
    requires Linked(v.head, v.nodes, v.files) && n in v.files && k < |v.files[n].successor|
    ensures var w := WithSuccessor(v, n, k, s); Linked(w.head, w.nodes, w.files)
  {
  }

  /** The next successor of n has been set. */
  lemma FilledNext(v: View, n: L10nFile, k: nat, s: L10nFile?)
    requires Filled(v, n, k) && k < |n.wanted| && (s != null ==> s in v.files && s.filename == n.wanted[k])
    ensures Filled(WithSuccessor(v, n, k, s), n, k + 1)
  {
  }

  lemma FilledLast(v: View, n: L10nFile)
    requires Filled(v, n, |n.wanted|)
    ensures Complete(WithSuccessor(v, n, |n.wanted|, null), n)
  {
  }

  lemma FinishGood(v: View, n: L10nFile)
    requires IsGood(v) && Complete(v, n)
    ensures IsGood(v.(pending := v.pending - {n}))
  {
    var w := v.(pending := v.pending - {n});
    Open(v);
    Open(w);
    forall m | m in w.files && m !in w.pending ensures Complete(w, m) {
      SameComplete(v, w, m);
    }
  }

  lemma SameComplete(v: View, w: View, m: L10nFile)
    requires Complete(v, m) && w.files == v.files && w.broken == v.broken
    ensures Complete(w, m)
  {
  }

  /** Some file of the pool has the name. */
  ghost predicate Known(v: View, name: string) {
    exists n :: n in v.files && n.filename == name
  }

  lemma PlaceUnknown(v: View, name: string, prev: L10nFile?, at: nat)
    requires IsGood(v) && Place(v.nodes, name, prev, at)
    ensures !Known(v, name)
  {
    Open(v);
    forall n | n in v.files ensures n.filename != name {
      var k :| 0 <= k < |v.nodes| && v.nodes[k] == n;
      CompareEqual(n.filename, name);
    }
  }

  lemma LinkedHead(v: View)
    requires IsGood(v)
    ensures v.head == At(v.nodes, 0)
  {
    Open(v);
  }

  lemma LinkedAt(v: View, i: nat)
    requires IsGood(v) && i < |v.nodes|
    ensures v.nodes[i] in v.files && v.files[v.nodes[i]].next == At(v.nodes, i + 1)
  {
    Open(v);
  }

  lemma JoinSnapshot(files: set<L10nFile>, n: L10nFile)
    ensures Snapshot(files + {n}) == Snapshot(files)[n := Cell(n.next, n.successor)]
  {
  }

  /** n has been linked behind prev, or in front of head. */
  ghost function LinkedFiles(files: map<L10nFile, Cell>, n: L10nFile, prev: L10nFile?, head: L10nFile?)
    : map<L10nFile, Cell>
    requires n in files && (prev != null ==> prev in files)
  {
    if prev == null then files[n := Cell(head, files[n].successor)]
    else files[n := Cell(files[prev].next, files[n].successor)][prev := Cell(n, files[prev].successor)]
  }

  lemma LinkedInserted(v: View, n: L10nFile, c: Cell, prev: L10nFile?, at: nat)
    requires IsGood(v) && n !in v.files && Place(v.nodes, n.filename, prev, at)
    ensures prev != null ==> prev in v.files && prev != n
    ensures var w := Inserted(v, n, c.successor, prev, at);
            && w.head == (if prev == null then n else v.head)
            && w.files == LinkedFiles(v.files[n := c], n, prev, v.head)
            && w.files.Keys == v.files.Keys + {n}
  {
    if at > 0 {
      LinkedAt(v, at - 1);
      LinkedBehind(v.files, n, c, v.nodes[at - 1], At(v.nodes, at));
    } else {
      LinkedHead(v);
      assert v.files[n := c][n := Cell(v.head, c.successor)] == v.files[n := Cell(v.head, c.successor)];
    }
  }

  lemma LinkedBehind(files: map<L10nFile, Cell>, n: L10nFile, c: Cell, prev: L10nFile, next: L10nFile?)
    requires n !in files && prev in files && files[prev].next == next
    ensures LinkedFiles(files[n := c], n, prev, null)
              == files[n := Cell(next, c.successor)][prev := Cell(n, files[prev].successor)]
  {
  }

  /** The place for a new name: behind prev, between larger and smaller names. */
  ghost predicate Place(nodes: seq<L10nFile>, name: string, prev: L10nFile?, at: nat) {
    && at <= |nodes| && prev == (if at == 0 then null else nodes[at - 1])
    && (forall k :: 0 <= k < at ==> Compare(nodes[k].filename, name) > 0)
    && (forall k :: at <= k < |nodes| ==> Compare(nodes[k].filename, name) < 0)
  }

  /** The pool after the insertion of n in front of position at. */
  ghost function Inserted(v: View, n: L10nFile, successor: seq<L10nFile?>, prev: L10nFile?, at: nat): View
    requires at <= |v.nodes| && (prev != null ==> prev in v.files)
  {
    var files := v.files[n := Cell(At(v.nodes, at), successor)];
    View(if prev == null then n else v.head, v.nodes[..at] + [n] + v.nodes[at..], v.pending + {n}, v.broken,
         if prev == null then files else files[prev := Cell(n, v.files[prev].successor)])
  }

  lemma InsertedGood(v: View, n: L10nFile, successor: seq<L10nFile?>, prev: L10nFile?, at: nat)
    requires IsGood(v) && n !in v.files && Place(v.nodes, n.filename, prev, at) && Named(n)
    ensures prev != null ==> prev in v.files
    ensures IsGood(Inserted(v, n, successor, prev, at))
  {
    InsertedOrder(v, n, successor, prev, at);
    InsertedSets(v, n, successor, prev, at);
    Open(Inserted(v, n, successor, prev, at));
  }

  lemma InsertedOrder(v: View, n: L10nFile, successor: seq<L10nFile?>, prev: L10nFile?, at: nat)
    requires IsGood(v) && n !in v.files && Place(v.nodes, n.filename, prev, at)
    ensures prev != null ==> prev in v.files
    ensures var w := Inserted(v, n, successor, prev, at); Linked(w.head, w.nodes, w.files) && Decreasing(w.nodes)
  {
    Open(v);
    InsertedDecreasing(v.nodes, at, n);
    InsertedLinked(v, n, successor, prev, at);
  }

  lemma InsertedSets(v: View, n: L10nFile, successor: seq<L10nFile?>, prev: L10nFile?, at: nat)
    requires IsGood(v) && n !in v.files && at <= |v.nodes| && (prev != null ==> prev in v.files) && Named(n)
    ensures var w := Inserted(v, n, successor, prev, at);
            && w.files.Keys == Elements(w.nodes) && w.pending <= w.files.Keys && w.broken <= w.files.Keys
            && AllComplete(w) && AllNamed(w.files.Keys)
  {
    Open(v);
    InsertedElements(v.nodes, at, n);
    InsertedComplete(v, n, successor, prev, at);
    OneMoreNamed(v.files.Keys, n);
  }

  lemma OneMoreNamed(files: set<L10nFile>, n: L10nFile)
    requires AllNamed(files) && Named(n)
    ensures AllNamed(files + {n})
  {
  }

  lemma InsertedComplete(v: View, n: L10nFile, successor: seq<L10nFile?>, prev: L10nFile?, at: nat)
    requires AllComplete(v) && at <= |v.nodes| && (prev != null ==> prev in v.files) && n !in v.files
    ensures var w := Inserted(v, n, successor, prev, at); w.files.Keys == v.files.Keys + {n} && AllComplete(w)
  {
    var w := Inserted(v, n, successor, prev, at);
    assert w.files.Keys == v.files.Keys + {n};
    MoreComplete(v, w);
  }

  lemma InsertedLinked(v: View, n: L10nFile, successor: seq<L10nFile?>, prev: L10nFile?, at: nat)
    requires Linked(v.head, v.nodes, v.files) && Decreasing(v.nodes) && n !in v.nodes
    requires at <= |v.nodes| && prev == if at == 0 then null else v.nodes[at - 1]
    ensures prev != null ==> prev in v.files
    ensures var w := Inserted(v, n, successor, prev, at); Linked(w.head, w.nodes, w.files)
  {
    DistinctNodes(v.nodes);
    InsertedAt(v.nodes, at, n);
  }

  /** Files stay complete when there are more files, and when more files are broken. */
  lemma MoreComplete(v: View, w: View)
    requires AllComplete(v) && v.files.Keys <= w.files.Keys && v.broken <= w.broken
    requires forall n :: n in w.files && n !in w.pending ==>
               n in v.files && n !in v.pending && w.files[n].successor == v.files[n].successor
    ensures AllComplete(w)
  {
    forall n | n in w.files && n !in w.pending ensures Complete(w, n) {
      MoreFilled(v, w, n, |n.wanted|);
    }
  }

  lemma MoreFilled(v: View, w: View, n: L10nFile, k: nat)
    requires Filled(v, n, k) && v.files.Keys <= w.files.Keys && v.broken <= w.broken
    requires n in w.files && w.files[n].successor == v.files[n].successor
    ensures Filled(w, n, k)
  {
  }

  ghost predicate Distinct(nodes: seq<L10nFile>) {
    forall i, j :: 0 <= i < j < |nodes| ==> nodes[i] != nodes[j]
  }

  lemma BehindIsSmaller(nodes: seq<L10nFile>, at: nat, name: string)
    requires Decreasing(nodes) && at < |nodes| && Compare(nodes[at].filename, name) < 0
    ensures forall k :: at <= k < |nodes| ==> Compare(nodes[k].filename, name) < 0
  {
    forall k | at < k < |nodes| ensures Compare(nodes[k].filename, name) < 0 {
      CompareFlip(nodes[at].filename, name);
      CompareTransitive(name, nodes[at].filename, nodes[k].filename);
      CompareFlip(name, nodes[k].filename);
    }
  }

  lemma InsertedAt(nodes: seq<L10nFile>, at: nat, n: L10nFile)
    requires at <= |nodes|
    ensures var ns := nodes[..at] + [n] + nodes[at..];
            && |ns| == |nodes| + 1 && ns[at] == n
            && (forall i :: 0 <= i < at ==> ns[i] == nodes[i])
            && (forall i :: at < i < |ns| ==> ns[i] == nodes[i - 1])
        {
    assert nodes == nodes[..at] + nodes[at..];
  }

  lemma InsertedElements(nodes: seq<L10nFile>, at: nat, n: L10nFile)
    requires at <= |nodes|
    ensures Elements(nodes[..at] + [n] + nodes[at..]) == Elements(nodes) + {n}
  {
    var ns := nodes[..at] + [n] + nodes[at..];
    assert nodes == nodes[..at] + nodes[at..];
    assert forall m :: m in ns <==> m == n || m in nodes;
  }

  lemma InsertedDecreasing(nodes: seq<L10nFile>, at: nat, n: L10nFile)
    requires Decreasing(nodes) && at <= |nodes|
    requires forall k :: 0 <= k < at ==> Compare(nodes[k].filename, n.filename) > 0
    requires forall k :: at <= k < |nodes| ==> Compare(nodes[k].filename, n.filename) < 0
    ensures Decreasing(nodes[..at] + [n] + nodes[at..])
  {
    forall k | at <= k < |nodes| ensures Compare(n.filename, nodes[k].filename) > 0 {
      CompareFlip(nodes[k].filename, n.filename);
    }
  }

  lemma DistinctNodes(nodes: seq<L10nFile>)
    requires Decreasing(nodes)
    ensures Distinct(nodes)
  {
    forall i, j | 0 <= i < j < |nodes| ensures nodes[i] != nodes[j] {
      CompareEqual(nodes[i].filename, nodes[j].filename);
    }
  }

  // ------------------------------------------------------------------------
  // The name of a file
  // ------------------------------------------------------------------------

  predicate IsAbsolutePath(language: string) {
    language != "" && language[0] == '/'
  }

  /** The directories that count: none if the language is an absolute path. */
  function Effective(dirs: seq<string>, p: Parts): seq<string> {
    if IsAbsolutePath(p.language) then [] else dirs
  }

  method PutPart(buf: array<char>, cp: nat, mask: nat, b: nat, lead: char, text: string, ghost before: string)
    returns (cp': nat)
    requires b > 0 && Holds(buf, cp, before) && cp + |Part(mask, b, lead, text)| <= buf.Length
    modifies buf
    ensures Holds(buf, cp', before + Part(mask, b, lead, text))
  {
    cp' := cp;
    assert before + "" == before;
    if Has(mask, b) {
      cp' := PutText(buf, cp, [lead], before);
      cp' := PutText(buf, cp', text, before + [lead]);
      assert (before + [lead]) + text == before + ([lead] + text);
    }
  }

  method PutParts(buf: array<char>, cp: nat, mask: nat, p: Parts, ghost before: string) returns (cp': nat)
    requires Holds(buf, cp, before) && cp + |NameParts(mask, p)| <= buf.Length
    modifies buf
    ensures Holds(buf, cp', before + NameParts(mask, p))
  {
    ghost var a, b := Part(mask, XPG_TERRITORY, '_', p.territory), Part(mask, XPG_CODESET, '.', p.codeset);
    ghost var c, d := Part(mask, XPG_NORM_CODESET, '.', p.normalized), Part(mask, XPG_MODIFIER, '@', p.modifier);
    FourParts(before, a, b, c, d);
    ghost var t1 := before + a;
    ghost var t2 := t1 + b;
    ghost var t3 := t2 + c;
    cp' := PutPart(buf, cp, mask, XPG_TERRITORY, '_', p.territory, before);
    cp' := PutPart(buf, cp', mask, XPG_CODESET, '.', p.codeset, t1);
    cp' := PutPart(buf, cp', mask, XPG_NORM_CODESET, '.', p.normalized, t2);
    cp' := PutPart(buf, cp', mask, XPG_MODIFIER, '@', p.modifier, t3);
  }

  lemma FourParts(t: string, a: string, b: string, c: string, d: string)
    ensures t + (a + b + c + d) == t + a + b + c + d
    ensures |a + b + c + d| == |a| + |b| + |c| + |d|
  {
  }

  function PartRoom(mask: nat, b: nat, text: string): (n: nat)
    requires b > 0
    ensures forall lead :: n == |Part(mask, b, lead, text)|
  {
    if Has(mask, b) then |text| + 1 else 0
  }

  /** The room for a name and its NUL. */
  function NameRoom(dirs: seq<string>, mask: nat, p: Parts): (n: nat)
    ensures n == |FileName(dirs, mask, p)| + 1
  {
    |DirPart(dirs)| + |p.language| + PartRoom(mask, XPG_TERRITORY, p.territory) + PartRoom(mask, XPG_CODESET, p.codeset)
    + PartRoom(mask, XPG_NORM_CODESET, p.normalized) + PartRoom(mask, XPG_MODIFIER, p.modifier) + 1 + |p.filename| + 1
  }

  /** Builds the name in a buffer that it fills exactly. */
  method BuildName(dirs: seq<string>, mask: nat, p: Parts) returns (buf: array<char>)
    ensures fresh(buf) && buf.Length == |FileName(dirs, mask, p)| + 1
    ensures buf[..buf.Length - 1] == FileName(dirs, mask, p) && buf[buf.Length - 1] == '\0'
    ensures Means(buf[..buf.Length - 1], dirs, mask, p)
  {
    NameMeans(dirs, mask, p);
    buf := new char[NameRoom(dirs, mask, p)](_ => '\0');
    ghost var t0 := DirPart(dirs) + p.language;
    ghost var t1 := t0 + NameParts(mask, p);
    assert FileName(dirs, mask, p) == t1 + "/" + p.filename && "" + DirPart(dirs) == DirPart(dirs);
    var cp := PutText(buf, 0, DirPart(dirs), "");
    cp := PutText(buf, cp, p.language, DirPart(dirs));
    cp := PutParts(buf, cp, mask, p, t0);
    cp := PutText(buf, cp, "/", t1);
    cp := PutText(buf, cp, p.filename, t1 + "/");
    buf[cp] := '\0';
  }

  /** Splitting what stands in a file name between the directories and the file gives back the parts in the mask. */
  method BuildAndExplode(dirs: seq<string>, mask: nat, p: Parts, granted: bool)
    returns (result: int, l: Locale, normalized: Option<string>)
    requires Proper(LocaleOf(mask, p))
    ensures result != -1 ==> l == LocaleOf(mask, p)
    ensures result == -1 ==> !granted
  {
    var buf := BuildName(dirs, mask, p);
    var name := buf[..buf.Length - 1];
    var component := Component(name, dirs, p);
    assert component == Spell(LocaleOf(mask, p)) && component[0] == p.language[0];
    result, l, normalized := ExplodeName(component, granted);
    if result != -1 {
      ReadsBack(name, dirs, mask, p, l);
    }
  }
}
