/** The read/write lock made of a mutex and two condition variables.

    All fields are read and written with the mutex held, so that what a thread does between acquiring the
    mutex and releasing it (at the end of a call or in a wait) is one step. Waits do not return errors. */
module RwCond {
  import opened Threads

  // ------------------------------------------------------------------------
  // The fields
  // ------------------------------------------------------------------------

  datatype Fields = Fields(runcount: int, waitingWriters: int)

  /** What unlock tells the sleeping threads. */
  datatype Notice = SignalWriter | BroadcastReaders | Nothing | Einval

  /** The fields after a step, and whether the lock is taken. */
  datatype Taken = Taken(fields: Fields, granted: bool)

  /** The test in rdlock: a reader gets the lock if no writer has it and none waits for it. */
  function ReadTest(f: Fields): Taken {
    if f.runcount + 1 > 0 && f.waitingWriters == 0 then Taken(f.(runcount := f.runcount + 1), true) else Taken(f, false)
  }

  /** The test in wrlock. A writer that returns from a wait first leaves the count of waiting writers. */
  function WriteTest(f: Fields, woken: bool): Taken {
    var w := if woken then f.waitingWriters - 1 else f.waitingWriters;
    if f.runcount == 0 then Taken(Fields(-1, w), true) else Taken(Fields(f.runcount, w + 1), false)
  }

  datatype Freed = Freed(fields: Fields, notice: Notice)

  function Release(f: Fields): Freed {
    if f.runcount < -1 || f.runcount == 0 then
      Freed(f, Einval)
    else
      var n := if f.runcount < 0 then 0 else f.runcount - 1;
      Freed(f.(runcount := n), if n != 0 then Nothing else if f.waitingWriters > 0 then SignalWriter
          else BroadcastReaders)
  }

  /** The lock. Every method runs with the mutex held. The ghost fields say who holds the lock. */
  class RwLock {
    var runcount: int
    var waiting_writers_count: int
    ghost var readers: nat
    ghost var writing: bool

    function Value(): Fields
      reads this
    {
      Fields(runcount, waiting_writers_count)
    }

    /** runcount tells the holders. */
    ghost predicate Valid()
      reads this
    {
      && (writing ==> readers == 0) && runcount == (if writing then -1 else readers)
      && waiting_writers_count >= 0
    }

    constructor ()
      ensures Valid() && readers == 0 && !writing && waiting_writers_count == 0
    {
      runcount, waiting_writers_count, readers, writing := 0, 0, 0, false;
    }

    /** rdlock up to the wait or to the return: the caller becomes a reader if no writer holds the lock and none
        waits. Otherwise nothing changes. */
    method Rdlock() returns (granted: bool)
      modifies this
      ensures Taken(Value(), granted) == ReadTest(old(Value()))
      ensures old(Valid()) ==>
                && Valid() && (granted <==> !old(writing) && old(waiting_writers_count) == 0)
                && readers == old(readers) + (if granted then 1 else 0) && writing == old(writing)
                && waiting_writers_count == old(waiting_writers_count)
    {
      granted := false;
      if !(runcount + 1 > 0 && waiting_writers_count == 0) {
        return;
      }
      runcount := runcount + 1;
      granted := true;
      readers := readers + 1;
    }

    /** wrlock up to the wait or to the return; woken says that it comes from a wait. The caller becomes the writer if
        nobody holds the lock. Otherwise it is one of the waiting writers, once. */
    method Wrlock(woken: bool) returns (granted: bool)
      modifies this
      ensures Taken(Value(), granted) == WriteTest(old(Value()), woken)
      ensures old(Valid()) && (woken ==> old(waiting_writers_count) > 0) ==>
                && Valid() && (granted <==> !old(writing) && old(readers) == 0)
                && readers == old(readers) && writing == (old(writing) || granted)
                && waiting_writers_count + (if woken then 1 else 0)
                   == old(waiting_writers_count) + (if granted then 0 else 1)
    {
      granted := false;
      if woken {
        waiting_writers_count := waiting_writers_count - 1;
      }
      if !(runcount == 0) {
        waiting_writers_count := waiting_writers_count + 1;
        return;
      }
      runcount := runcount - 1;
      granted := true;
      writing := true;
    }

    /** One holder less, or EINVAL if there is none. Somebody is notified exactly if the lock has become free: a
        writer if one waits, otherwise all readers. */
    method Unlock() returns (notice: Notice)
      modifies this
      ensures Freed(Value(), notice) == Release(old(Value()))
      ensures old(Valid()) ==>
                && Valid() && !writing && waiting_writers_count == old(waiting_writers_count)
                && readers == (if old(readers) > 0 then old(readers) - 1 else 0)
                && (notice == Einval <==> !old(writing) && old(readers) == 0)
                && (notice == Nothing <==> readers > 0)
                && (notice == SignalWriter ==> waiting_writers_count > 0)
                && (notice == BroadcastReaders ==> waiting_writers_count == 0)
    {
      notice := Nothing;
      if runcount < 0 {
        if !(runcount == -1) {
          return Einval;
        }
        runcount := 0;
        writing := false;
      } else {
        if !(runcount > 0) {
          return Einval;
        }
        runcount := runcount - 1;
        readers := if readers > 0 then readers - 1 else 0;
      }
      if runcount == 0 {
        if waiting_writers_count > 0 {
          notice := SignalWriter;
        } else {
          notice := BroadcastReaders;
        }
      }
    }
  }

  // ------------------------------------------------------------------------
  // The threads
  // ------------------------------------------------------------------------

  datatype Place =
    | Idle
    | WaitingReader  // in pthread_cond_wait on waiting_readers
    | WokenReader    // to take the mutex again and repeat the test
    | Reading
    | WaitingWriter  // in pthread_cond_wait on waiting_writers
    | WokenWriter
    | Writing

  datatype State = State(pc: map<Tid, Place>, lock: Fields)

  /** A thread comes to the test in rdlock, for the first time or after a wait. */
  ghost predicate TestRead(s: State, s': State, t: Tid) {
    && t in s.pc && s.pc[t] in {Idle, WokenReader}
    && var r := ReadTest(s.lock);
       s' == State(s.pc[t := if r.granted then Reading else WaitingReader], r.fields)
  }

  /** A thread comes to the test in wrlock. */
  ghost predicate TestWrite(s: State, s': State, t: Tid) {
    && t in s.pc && s.pc[t] in {Idle, WokenWriter}
    && var r := WriteTest(s.lock, s.pc[t] == WokenWriter);
       s' == State(s.pc[t := if r.granted then Writing else WaitingWriter], r.fields)
  }

  function Woken(p: Place): Place {
    if p == WaitingReader then WokenReader else if p == WaitingWriter then WokenWriter else p
  }

  /** The given threads return from their waits. */
  function Wake(pc: map<Tid, Place>, woken: set<Tid>): map<Tid, Place> {
    map t | t in pc :: if t in woken then Woken(pc[t]) else pc[t]
  }

  /** A wakeup without a signal, which condition variables may do at any time. */
  ghost predicate Spurious(s: State, s': State, t: Tid) {
    t in s.pc && s' == s.(pc := Wake(s.pc, {t}))
  }

  /** pthread_cond_signal wakes at least one of the waiting threads, if there is one. */
  ghost predicate Signals(pc: map<Tid, Place>, woken: set<Tid>) {
    woken <= At(pc, {WaitingWriter}) && (At(pc, {WaitingWriter}) != {} ==> woken != {})
  }

  /** unlock, by a thread that holds the lock. */
  ghost predicate Unlock(s: State, s': State, t: Tid) {
    && t in s.pc && s.pc[t] in {Reading, Writing}
    && var r, pc := Release(s.lock), s.pc[t := Idle];
       && s'.lock == r.fields
       && match r.notice
          case Einval => s'.pc == s.pc
          case Nothing => s'.pc == pc
          case SignalWriter => exists woken :: Signals(pc, woken) && s'.pc == Wake(pc, woken)
          case BroadcastReaders => s'.pc == Wake(pc, At(pc, {WaitingReader}))
  }

  ghost predicate Init(s: State) {
    s.lock.runcount == 0 && s.lock.waitingWriters == 0 && forall t :: t in s.pc ==> s.pc[t] == Idle
  }

  ghost predicate Next(s: State, s': State) {
    exists t :: TestRead(s, s', t) || TestWrite(s, s', t) || Spurious(s, s', t) || Unlock(s, s', t)
  }

  // ------------------------------------------------------------------------
  // The invariant
  // ------------------------------------------------------------------------

  function Readers(s: State): set<Tid> {
    At(s.pc, {Reading})
  }

  function Writers(s: State): set<Tid> {
    At(s.pc, {Writing})
  }

  /** The fields and the sets of threads that the invariant speaks of. */
  datatype View = View(f: Fields, readers: set<Tid>, writers: set<Tid>, sleeping: set<Tid>, awake: set<Tid>,
                       queueing: set<Tid>)

  /** sleeping: the sleeping readers; awake: the woken writers; queueing: all writers that wait or are woken. */
  function ViewOf(s: State): View {
    View(s.lock, Readers(s), Writers(s), At(s.pc, {WaitingReader}), At(s.pc, {WokenWriter}),
        At(s.pc, {WaitingWriter, WokenWriter}))
  }

  /** Either there are no writers, or there is one writer and there are no readers; runcount says which. */
  ghost predicate Exclusion(v: View) {
    || (v.writers == {} && v.f.runcount == |v.readers|)
    || (|v.writers| == 1 && v.readers == {} && v.f.runcount == -1)
  }

  /** When nobody holds the lock and writers wait, one of them is already awake. */
  ghost predicate WriterAwake(v: View) {
    v.f.runcount == 0 && v.f.waitingWriters > 0 ==> v.awake != {}
  }

  /** A reader sleeps only while a writer holds the lock or waits for it. */
  ghost predicate ReaderJustified(v: View) {
    v.sleeping != {} ==> v.writers != {} || v.f.waitingWriters > 0
  }

  ghost predicate Good(v: View) {
    Exclusion(v) && v.f.waitingWriters == |v.queueing| && WriterAwake(v) && ReaderJustified(v)
  }

  ghost predicate Inv(s: State) {
    Good(ViewOf(s))
  }

  lemma InitInv(s: State)
    requires Init(s)
    ensures Inv(s)
  {
  }

  function Put(a: set<Tid>, t: Tid, member: bool): set<Tid> {
    if member then a + {t} else a - {t}
  }

  /** The sets after thread t has moved to q. */
  function MovedView(v: View, f: Fields, t: Tid, q: Place): View {
    View(f, Put(v.readers, t, q == Reading), Put(v.writers, t, q == Writing), Put(v.sleeping, t, q == WaitingReader),
         Put(v.awake, t, q == WokenWriter), Put(v.queueing, t, q == WaitingWriter || q == WokenWriter))
  }

  lemma MovedSets(s: State, s': State, t: Tid, q: Place)
    requires t in s.pc && s'.pc == s.pc[t := q]
    ensures ViewOf(s') == MovedView(ViewOf(s), s'.lock, t, q)
  {
    Moved(s.pc, t, q, {Reading});
    Moved(s.pc, t, q, {Writing});
    Moved(s.pc, t, q, {WaitingReader});
    Moved(s.pc, t, q, {WokenWriter});
    Moved(s.pc, t, q, {WaitingWriter, WokenWriter});
  }

  /** The sets that a thread at place q is in. */
  ghost predicate Where(v: View, t: Tid, q: Place) {
    && (t in v.readers <==> q == Reading)
    && (t in v.writers <==> q == Writing)
    && (t in v.sleeping <==> q == WaitingReader)
    && (t in v.awake <==> q == WokenWriter)
    && (t in v.queueing <==> q == WaitingWriter || q == WokenWriter)
  }

  lemma PlaceOf(s: State, t: Tid)
    requires t in s.pc
    ensures Where(ViewOf(s), t, s.pc[t])
  {
  }

  lemma PutSize(a: set<Tid>, t: Tid, member: bool)
    ensures |Put(a, t, member)| == if member then |a| + (if t in a then 0 else 1) else |a| - (if t in a then 1 else 0)
  {
  }

  lemma ReadGood(v: View, t: Tid, p: Place, q: Place)
    requires Good(v) && Where(v, t, p) && p in {Idle, WokenReader}
    requires q == if ReadTest(v.f).granted then Reading else WaitingReader
    ensures Good(MovedView(v, ReadTest(v.f).fields, t, q))
  {
    PutSize(v.readers, t, q == Reading);
    PutSize(v.queueing, t, false);
    assert Put(v.writers, t, false) == v.writers && Put(v.awake, t, false) == v.awake;
  }

  lemma WriteGood(v: View, t: Tid, p: Place, q: Place)
    requires Good(v) && Where(v, t, p) && p in {Idle, WokenWriter}
    requires q == if WriteTest(v.f, p == WokenWriter).granted then Writing else WaitingWriter
    ensures Good(MovedView(v, WriteTest(v.f, p == WokenWriter).fields, t, q))
  {
    PutSize(v.queueing, t, q == WaitingWriter);
    PutSize(v.writers, t, q == Writing);
    assert Put(v.readers, t, false) == v.readers && Put(v.sleeping, t, false) == v.sleeping;
  }

  lemma TestReadInv(s: State, s': State, t: Tid)
    requires Inv(s) && TestRead(s, s', t)
    ensures Inv(s')
  {
    PlaceOf(s, t);
    MovedSets(s, s', t, s'.pc[t]);
    ReadGood(ViewOf(s), t, s.pc[t], s'.pc[t]);
  }

  lemma TestWriteInv(s: State, s': State, t: Tid)
    requires Inv(s) && TestWrite(s, s', t)
    ensures Inv(s')
  {
    PlaceOf(s, t);
    MovedSets(s, s', t, s'.pc[t]);
    WriteGood(ViewOf(s), t, s.pc[t], s'.pc[t]);
  }

  /** Waking threads leaves the holders and the count of waiting writers alone. */
  function WokenView(v: View, woken: set<Tid>, writers: set<Tid>): View {
    v.(sleeping := v.sleeping - woken, awake := v.awake + writers)
  }

  lemma WakeSets(s: State, s': State, woken: set<Tid>)
    requires s' == s.(pc := Wake(s.pc, woken))
    ensures ViewOf(s') == WokenView(ViewOf(s), woken, At(s.pc, {WaitingWriter}) * woken)
  {
  }

  lemma SpuriousInv(s: State, s': State, t: Tid)
    requires Inv(s) && Spurious(s, s', t)
    ensures Inv(s')
  {
    WakeSets(s, s', {t});
  }

  /** A thread that holds the lock never gets EINVAL. */
  lemma HolderCounted(v: View, t: Tid, q: Place)
    requires Good(v) && Where(v, t, q) && q in {Reading, Writing}
    ensures q == Writing ==> v.f.runcount == -1 && v.writers == {t} && v.readers == {}
    ensures q == Reading ==> v.f.runcount > 0 && v.writers == {} && |v.readers - {t}| == v.f.runcount - 1
    ensures Release(v.f).notice != Einval
  {
    if q == Writing {
      Single(v.writers, t);
    }
  }

  /** A reader leaves. */
  lemma ReaderLeaves(v: View, t: Tid)
    requires Good(v) && Where(v, t, Reading)
    ensures MovedView(v, Release(v.f).fields, t, Idle)
              == v.(f := v.f.(runcount := |v.readers - {t}|), readers := v.readers - {t})
    ensures v.writers == {} && v.f.runcount > 0
  {
    HolderCounted(v, t, Reading);
  }

  /** A writer leaves. */
  lemma WriterLeaves(v: View, t: Tid)
    requires Good(v) && Where(v, t, Writing)
    ensures MovedView(v, Release(v.f).fields, t, Idle) == v.(f := v.f.(runcount := 0), writers := {})
    ensures v.readers == {} && v.f.runcount == -1
  {
    HolderCounted(v, t, Writing);
  }

  /** When the lock has become free, waking a writer if there is one, or else all readers, is enough. */
  lemma FreedGood(v: View, t: Tid, q: Place, woken: set<Tid>, writers: set<Tid>)
    requires Good(v) && Where(v, t, q) && q in {Reading, Writing}
    requires var r := Release(v.f);
             && (r.notice == SignalWriter ==> v.awake + writers != {})
             && (r.notice == BroadcastReaders ==> woken == v.sleeping)
    ensures Good(WokenView(MovedView(v, Release(v.f).fields, t, Idle), woken, writers))
  {
    if q == Reading {
      ReaderLeaves(v, t);
    } else {
      WriterLeaves(v, t);
    }
  }

  lemma UnlockInv(s: State, s': State, t: Tid)
    requires Inv(s) && Unlock(s, s', t)
    ensures Inv(s')
    ensures t in s'.pc && s'.pc[t] == Idle
  {
    var v, mid := ViewOf(s), State(s.pc[t := Idle], s'.lock);
    PlaceOf(s, t);
    HolderCounted(v, t, s.pc[t]);
    MovedSets(s, mid, t, Idle);
    var woken := {};
    match Release(s.lock).notice {
      case SignalWriter =>
        woken :| Signals(mid.pc, woken) && s'.pc == Wake(mid.pc, woken);
        SignalWakes(s, mid, t, woken);
      case BroadcastReaders => woken := At(mid.pc, {WaitingReader});
      case Nothing => assert s'.pc == Wake(mid.pc, {});
      case Einval =>
    }
    WakeSets(mid, s', woken);
    FreedGood(v, t, s.pc[t], woken, At(mid.pc, {WaitingWriter}) * woken);
  }

  /** A signal while writers wait leaves some writer awake. */
  lemma SignalWakes(s: State, mid: State, t: Tid, woken: set<Tid>)
    requires t in s.pc && s.pc[t] in {Reading, Writing} && mid.pc == s.pc[t := Idle]
    requires Signals(mid.pc, woken) && |At(s.pc, {WaitingWriter, WokenWriter})| > 0
    ensures At(s.pc, {WokenWriter}) + (At(mid.pc, {WaitingWriter}) * woken) != {}
  {
    var u :| u in At(s.pc, {WaitingWriter, WokenWriter});
    if s.pc[u] == WaitingWriter {
      assert u in At(mid.pc, {WaitingWriter});
      var x :| x in woken;
      assert x in At(mid.pc, {WaitingWriter}) * woken;
    } else {
      assert u in At(s.pc, {WokenWriter});
    }
  }

  // ------------------------------------------------------------------------
  // Runs
  // ------------------------------------------------------------------------

  ghost predicate Run(states: seq<State>) {
    && states != [] && Init(states[0])
    && forall i :: 0 <= i < |states| - 1 ==> Next(states[i], states[i + 1])
  }

  lemma NextInv(s: State, s': State)
    requires Inv(s) && Next(s, s')
    ensures Inv(s')
  {
    var t :| TestRead(s, s', t) || TestWrite(s, s', t) || Spurious(s, s', t) || Unlock(s, s', t);
    if TestRead(s, s', t) {
      TestReadInv(s, s', t);
    } else if TestWrite(s, s', t) {
      TestWriteInv(s, s', t);
    } else if Spurious(s, s', t) {
      SpuriousInv(s, s', t);
    } else {
      UnlockInv(s, s', t);
    }
  }

  lemma {:induction false} ReachableInv(states: seq<State>)
    requires Run(states)
    ensures forall i :: 0 <= i < |states| ==> Inv(states[i])
  {
    if |states| == 1 {
      InitInv(states[0]);
    } else {
      var front := states[..|states| - 1];
      ReachableInv(front);
      assert states[|states| - 2] == front[|front| - 1];
      NextInv(states[|states| - 2], states[|states| - 1]);
    }
  }

  /** Mutual exclusion in every state of every run. */
  lemma NeverBoth(states: seq<State>, i: nat, t: Tid, u: Tid)
    requires Run(states) && i < |states| && t != u && t in states[i].pc && u in states[i].pc
    requires states[i].pc[t] == Writing
    ensures states[i].pc[u] !in {Reading, Writing}
  {
    ReachableInv(states);
    PlaceOf(states[i], t);
    PlaceOf(states[i], u);
    HolderCounted(ViewOf(states[i]), t, Writing);
  }

  /** No wakeup is lost: when some thread sleeps, another one holds the lock or is on its way to the test. */
  lemma NoLostWakeup(states: seq<State>, i: nat, t: Tid) returns (u: Tid)
    requires Run(states) && i < |states| && t in states[i].pc && states[i].pc[t] in {WaitingReader, WaitingWriter}
    ensures u in states[i].pc && states[i].pc[u] in {Reading, Writing, WokenWriter}
  {
    ReachableInv(states);
    var s := states[i];
    if s.lock.runcount != 0 {
      if Writers(s) == {} {
        assert Readers(s) != {};
        u :| u in Readers(s);
      } else {
        u :| u in Writers(s);
      }
    } else {
      assert Writers(s) == {};
      PlaceOf(s, t);
      u :| u in At(s.pc, {WokenWriter});
    }
  }

  /** A woken writer finds the lock free or goes back to sleep behind a holder; a free lock is never passed over. */
  lemma WokenWriterProceeds(s: State, s': State, t: Tid)
    requires Inv(s) && t in s.pc && s.pc[t] == WokenWriter && TestWrite(s, s', t)
    ensures s'.pc[t] == Writing <==> Readers(s) == {} && Writers(s) == {}
  {
    if Writers(s) != {} {
      assert s.lock.runcount == -1;
    }
  }

  /** Writers have priority: while writers wait, no thread becomes a reader. */
  lemma NoReaderOvertakes(s: State, s': State)
    requires Inv(s) && Next(s, s') && s.lock.waitingWriters > 0
    ensures Readers(s') <= Readers(s)
  {
    var t :| TestRead(s, s', t) || TestWrite(s, s', t) || Spurious(s, s', t) || Unlock(s, s', t);
  }
}
