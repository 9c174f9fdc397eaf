/** The threads that use a hand-off read/write lock.

    A critical section is one step; the waits, the tests behind them and the retries are steps of their own.
    The event that a thread creates for a wait is named after the thread. */
module RwHandoffThreads {
  import opened Wrappers
  import opened Threads
  import opened WaitQueue
  import opened RwHandoff

  datatype Place =
    | Idle
    | QueuedReader   // waits for its event
    | GrantedReader  // the event is set; the thread has not yet made its test
    | RetryReader    // no memory for a wait: leaves and enters the critical section again
    | Reading
    | QueuedWriter
    | GrantedWriter
    | RetryWriter
    | Writing
    | Aborted

  datatype State = State(pc: map<Tid, Place>, lock: Fields)

  ghost predicate EnterRead(s: State, s': State, t: Tid, memory: bool) {
    && t in s.pc && s.pc[t] in {Idle, RetryReader}
    && var r := ReadEntry(s.lock, if memory && s.pc[t] == Idle then Some(t) else None);
       s' == State(s.pc[t := if r.entry == Granted then Reading else if r.entry == Retry then RetryReader
           else QueuedReader], r.fields)
  }

  ghost predicate EnterWrite(s: State, s': State, t: Tid, memory: bool) {
    && t in s.pc && s.pc[t] in {Idle, RetryWriter}
    && var r := WriteEntry(s.lock, if memory && s.pc[t] == Idle then Some(t) else None);
       s' == State(s.pc[t := if r.entry == Granted then Writing else if r.entry == Retry then RetryWriter
           else QueuedWriter], r.fields)
  }

  /** A thread that is notified is already counted: the tests that would abort. They are
      made outside the critical section. */
  ghost predicate Return(s: State, s': State, t: Tid) {
    && t in s.pc && s.pc[t] in {GrantedReader, GrantedWriter}
    && s' == s.(pc := s.pc[t :=
         if s.pc[t] == GrantedReader then (if s.lock.runcount > 0 then Reading else Aborted)
         else if s.lock.runcount == -1 then Writing else Aborted])
  }

  function Grant(p: Place): Place {
    if p == QueuedReader then GrantedReader else if p == QueuedWriter then GrantedWriter else p
  }

  /** The events of the given threads are set. */
  function SetEvents(pc: map<Tid, Place>, events: seq<Handle>): map<Tid, Place> {
    map t | t in pc :: if t in events then Grant(pc[t]) else pc[t]
  }

  ghost predicate Unlock(s: State, s': State, t: Tid) {
    && t in s.pc && s.pc[t] in {Reading, Writing}
    && var r := Release(s.lock);
       && s'.lock == r.fields
       && match r.exit
          case Abort => s'.pc == s.pc[t := Aborted]
          case Eperm => s'.pc == s.pc
          case Notified(events) => s'.pc == SetEvents(s.pc[t := Idle], events)
  }

  ghost predicate Init(s: State) {
    s.lock == Fields(0, [], []) && forall t :: t in s.pc ==> s.pc[t] == Idle
  }

  ghost predicate Next(s: State, s': State) {
    exists t, memory :: EnterRead(s, s', t, memory) || EnterWrite(s, s', t, memory) || Return(s, s', t)
        || Unlock(s, s', t)
  }

  // ------------------------------------------------------------------------
  // The invariant
  // ------------------------------------------------------------------------

  /** readers and writers: the threads that have been granted the lock, also those that have been
      dequeued and have not returned yet. */
  datatype View = View(f: Fields, readers: set<Tid>, writers: set<Tid>, queuedReaders: set<Tid>,
                       queuedWriters: set<Tid>,
                       aborted: set<Tid>)

  function ViewOf(s: State): View {
    View(s.lock, At(s.pc, {Reading, GrantedReader}), At(s.pc, {Writing, GrantedWriter}),
         At(s.pc, {QueuedReader}), At(s.pc, {QueuedWriter}), At(s.pc, {Aborted}))
  }

  ghost predicate Distinct(q: seq<Handle>) {
    forall i, j :: 0 <= i < j < |q| ==> q[i] != q[j]
  }

  /** The queue holds the events of exactly these threads, each once. */
  ghost predicate Queue(q: seq<Handle>, threads: set<Tid>) {
    Distinct(q) && (forall t: Tid :: t in threads <==> t in q) && (forall i :: 0 <= i < |q| ==> q[i] > 0)
  }

  /** Either there are no writers, or there is one writer and there are no readers; runcount says which. */
  ghost predicate Exclusion(v: View) {
    || (v.writers == {} && v.f.runcount == |v.readers|)
    || (|v.writers| == 1 && v.readers == {} && v.f.runcount == -1)
  }

  ghost predicate Good(v: View) {
    && Exclusion(v) && v.aborted == {}
    && Queue(v.f.readers, v.queuedReaders) && Queue(v.f.writers, v.queuedWriters)
    && (v.f.writers != [] ==> v.f.runcount != 0)
    && (v.f.readers != [] ==> v.f.runcount == -1)
  }

  ghost predicate Inv(s: State) {
    Good(ViewOf(s))
  }

  lemma InitInv(s: State)
    requires Init(s)
    ensures Inv(s)
  {
    var v := ViewOf(s);
    assert v.readers == {} && v.writers == {} && v.queuedReaders == {} && v.queuedWriters == {};
  }

  function Put(a: set<Tid>, t: Tid, member: bool): set<Tid> {
    if member then a + {t} else a - {t}
  }

  function MovedView(v: View, f: Fields, t: Tid, q: Place): View {
    View(f, Put(v.readers, t, q == Reading || q == GrantedReader),
        Put(v.writers, t, q == Writing || q == GrantedWriter),
         Put(v.queuedReaders, t, q == QueuedReader), Put(v.queuedWriters, t, q == QueuedWriter),
             Put(v.aborted, t, q == Aborted))
  }

  lemma MovedSets(s: State, s': State, t: Tid, q: Place)
    requires t in s.pc && s'.pc == s.pc[t := q]
    ensures ViewOf(s') == MovedView(ViewOf(s), s'.lock, t, q)
  {
    Moved(s.pc, t, q, {Reading, GrantedReader});
    Moved(s.pc, t, q, {Writing, GrantedWriter});
    Moved(s.pc, t, q, {QueuedReader});
    Moved(s.pc, t, q, {QueuedWriter});
    Moved(s.pc, t, q, {Aborted});
  }

  ghost predicate Where(v: View, t: Tid, q: Place) {
    && (t in v.readers <==> q == Reading || q == GrantedReader)
    && (t in v.writers <==> q == Writing || q == GrantedWriter)
    && (t in v.queuedReaders <==> q == QueuedReader)
    && (t in v.queuedWriters <==> q == QueuedWriter)
    && (t in v.aborted <==> q == Aborted)
  }

  lemma PlaceOf(s: State, t: Tid)
    requires t in s.pc
    ensures Where(ViewOf(s), t, s.pc[t])
  {
  }

  lemma QueueAppend(q: seq<Handle>, threads: set<Tid>, t: Tid)
    requires Queue(q, threads) && t !in threads
    ensures Queue(q + [t], threads + {t})
  {
  }

  lemma QueueRest(q: seq<Handle>, threads: set<Tid>)
    requires Queue(q, threads) && q != []
    ensures Queue(q[1..], threads - {q[0]}) && q[0] in threads
  {
    assert q == [q[0]] + q[1..];
    assert q[0] !in q[1..];
  }

  lemma {:induction false} QueueSize(q: seq<Handle>, threads: set<Tid>)
    requires Queue(q, threads)
    ensures |threads| == |q|
    decreases |q|
  {
    if q == [] {
      assert threads == {};
    } else {
      QueueRest(q, threads);
      QueueSize(q[1..], threads - {q[0]});
    }
  }

  // ------------------------------------------------------------------------
  // The steps
  // ------------------------------------------------------------------------

  lemma ReadGood(v: View, t: Tid, p: Place, event: Option<Handle>, q: Place)
    requires Good(v) && Where(v, t, p) && p in {Idle, RetryReader} && (event == None || event == Some(t))
    requires var e := ReadEntry(v.f, event).entry;
               q == if e == Granted then Reading else if e == Retry then RetryReader else QueuedReader
    ensures Good(MovedView(v, ReadEntry(v.f, event).fields, t, q))
  {
    var v' := MovedView(v, ReadEntry(v.f, event).fields, t, q);
    assert v'.writers == v.writers && v'.queuedWriters == v.queuedWriters && v'.aborted == v.aborted;
    if q == QueuedReader {
      QueueAppend(v.f.readers, v.queuedReaders, t);
      assert v'.readers == v.readers;
    } else {
      assert v'.queuedReaders == v.queuedReaders;
    }
  }

  function QueuedView(v: View, t: Tid): View {
    v.(f := v.f.(writers := v.f.writers + [t]), queuedWriters := v.queuedWriters + {t})
  }

  lemma QueuedGood(v: View, t: Tid)
    requires Good(v) && t !in v.queuedWriters && v.f.runcount != 0
    ensures Good(QueuedView(v, t))
  {
    QueueAppend(v.f.writers, v.queuedWriters, t);
  }

  lemma MovedToQueue(v: View, t: Tid, p: Place)
    requires Where(v, t, p) && p in {Idle, RetryWriter}
    ensures MovedView(v, v.f.(writers := v.f.writers + [t]), t, QueuedWriter) == QueuedView(v, t)
  {
  }

  lemma WriteQueuedGood(v: View, t: Tid, p: Place, event: Option<Handle>)
    requires Good(v) && Where(v, t, p) && p in {Idle, RetryWriter} && (event == None || event == Some(t))
    requires WriteEntry(v.f, event).entry !in {Granted, Retry}
    ensures Good(MovedView(v, WriteEntry(v.f, event).fields, t, QueuedWriter))
  {
    QueuedGood(v, t);
    MovedToQueue(v, t, p);
  }

  lemma WriteGood(v: View, t: Tid, p: Place, event: Option<Handle>, q: Place)
    requires Good(v) && Where(v, t, p) && p in {Idle, RetryWriter} && (event == None || event == Some(t))
    requires var e := WriteEntry(v.f, event).entry;
               q == if e == Granted then Writing else if e == Retry then RetryWriter else QueuedWriter
    ensures Good(MovedView(v, WriteEntry(v.f, event).fields, t, q))
  {
    if q == QueuedWriter {
      WriteQueuedGood(v, t, p, event);
    } else {
      var v' := MovedView(v, WriteEntry(v.f, event).fields, t, q);
      assert v'.readers == v.readers && v'.queuedReaders == v.queuedReaders && v'.aborted == v.aborted;
      assert v'.queuedWriters == v.queuedWriters;
    }
  }

  lemma EnterReadInv(s: State, s': State, t: Tid, memory: bool)
    requires Inv(s) && EnterRead(s, s', t, memory)
    ensures Inv(s')
  {
    PlaceOf(s, t);
    MovedSets(s, s', t, s'.pc[t]);
    ReadGood(ViewOf(s), t, s.pc[t], if memory && s.pc[t] == Idle then Some(t) else None, s'.pc[t]);
  }

  lemma EnterWriteInv(s: State, s': State, t: Tid, memory: bool)
    requires Inv(s) && EnterWrite(s, s', t, memory)
    ensures Inv(s')
  {
    PlaceOf(s, t);
    MovedSets(s, s', t, s'.pc[t]);
    WriteGood(ViewOf(s), t, s.pc[t], if memory && s.pc[t] == Idle then Some(t) else None, s'.pc[t]);
  }

  /** What a granted thread knows of runcount. */
  lemma GrantedCount(v: View, t: Tid)
    requires Good(v) && (t in v.readers || t in v.writers)
    ensures t in v.readers ==> v.f.runcount > 0 && v.writers == {}
    ensures t in v.writers ==> v.f.runcount == -1 && v.writers == {t} && v.readers == {}
  {
    if t in v.writers {
      Single(v.writers, t);
    }
  }

  /** The aborts behind the waits are unreachable. */
  lemma ReturnInv(s: State, s': State, t: Tid)
    requires Inv(s) && Return(s, s', t)
    ensures Inv(s') && s'.pc[t] != Aborted
  {
    var v := ViewOf(s);
    PlaceOf(s, t);
    GrantedCount(v, t);
    MovedSets(s, s', t, s'.pc[t]);
    var v' := ViewOf(s');
    assert v'.readers == v.readers && v'.writers == v.writers && v'.aborted == v.aborted;
    assert v'.queuedReaders == v.queuedReaders && v'.queuedWriters == v.queuedWriters;
  }

  /** The sets after events have been set. */
  function GrantedView(v: View, woken: set<Tid>): View {
    v.(readers := v.readers + v.queuedReaders * woken, writers := v.writers + v.queuedWriters * woken,
       queuedReaders := v.queuedReaders - woken, queuedWriters := v.queuedWriters - woken)
  }

  lemma EventSets(s: State, s': State, events: seq<Handle>, woken: set<Tid>)
    requires s' == s.(pc := SetEvents(s.pc, events)) && forall t: Tid :: t in woken <==> t in events
    ensures ViewOf(s') == GrantedView(ViewOf(s), woken)
  {
  }

  /** The view when a holder has left and nobody else holds the lock. */
  ghost predicate Free(v: View) {
    && v.readers == {} && v.writers == {} && v.aborted == {} && v.f.runcount == 0
    && Queue(v.f.readers, v.queuedReaders) && Queue(v.f.writers, v.queuedWriters)
  }

  lemma HandoverGood(v: View, woken: set<Tid>)
    requires Free(v) && v.queuedReaders !! v.queuedWriters
    requires if v.f.writers != [] then v.f.writers[0] > 0 && woken == {v.f.writers[0]} else woken == v.queuedReaders
    ensures Good(GrantedView(v.(f := Handover(v.f).fields), woken))
  {
    var v' := GrantedView(v.(f := Handover(v.f).fields), woken);
    if v.f.writers != [] {
      QueueRest(v.f.writers, v.queuedWriters);
      assert v'.writers == {v.f.writers[0]} && v'.queuedReaders == v.queuedReaders && v'.readers == {};
    } else {
      QueueSize(v.f.readers, v.queuedReaders);
      assert v.queuedWriters == {};
      assert v'.readers == v.queuedReaders && v'.queuedReaders == {} && v'.writers == {};
    }
  }

  /** A holder that is the last one leaves the lock free. */
  lemma LastLeaves(v: View, t: Tid, p: Place)
    requires Good(v) && Where(v, t, p) && p in {Reading, Writing}
    ensures v.f.runcount == -1 || v.f.runcount > 0
    ensures v.f.runcount == -1 || v.f.runcount == 1 ==> Free(MovedView(v, v.f.(runcount := 0), t, Idle))
    ensures v.f.runcount > 1 ==> Good(MovedView(v, v.f.(runcount := v.f.runcount - 1), t, Idle))
    ensures var v' := MovedView(v, v.f, t, Idle);
            v'.queuedReaders == v.queuedReaders && v'.queuedWriters == v.queuedWriters
  {
    GrantedCount(v, t);
    assert |v.readers - {t}| == |v.readers| - (if t in v.readers then 1 else 0);
    var v' := MovedView(v, v.f, t, Idle);
    assert v'.queuedReaders == v.queuedReaders && v'.queuedWriters == v.queuedWriters && v'.aborted == {};
    assert v'.writers == {} && v'.readers == v.readers - {t};
  }

  lemma QueuedApart(s: State)
    ensures ViewOf(s).queuedReaders !! ViewOf(s).queuedWriters
  {
  }

  /** A thread that releases what it holds neither aborts nor gets EPERM. */
  lemma UnlockInv(s: State, s': State, t: Tid)
    requires Inv(s) && Unlock(s, s', t)
    ensures Inv(s') && s'.pc[t] == Idle
  {
    var v := ViewOf(s);
    PlaceOf(s, t);
    LastLeaves(v, t, s.pc[t]);
    QueuedApart(s);
    if s.lock.runcount > 1 {
      MovedSets(s, s', t, Idle) by {
        assert SetEvents(s.pc[t := Idle], []) == s.pc[t := Idle];
      }
    } else {
      var mid := State(s.pc[t := Idle], s.lock.(runcount := 0));
      MovedSets(s, mid, t, Idle);
      UnlockHandover(s, mid, s', t);
    }
  }

  lemma UnlockHandover(s: State, mid: State, s': State, t: Tid)
    requires Free(ViewOf(mid)) && t in mid.pc && mid.pc[t] == Idle
    requires var r := Handover(mid.lock);
             r.exit.Notified? && s'.pc == SetEvents(mid.pc, r.exit.events) && s'.lock == r.fields
    ensures Inv(s') && s'.pc[t] == Idle
  {
    var v, f := ViewOf(mid), mid.lock;
    QueuedApart(mid);
    if f.writers != [] {
      QueueRest(f.writers, v.queuedWriters);
      EventSets(mid, mid.(pc := s'.pc), [f.writers[0]], {f.writers[0]});
      HandoverGood(v, {f.writers[0]});
    } else {
      EventSets(mid, mid.(pc := s'.pc), f.readers, v.queuedReaders);
      HandoverGood(v, v.queuedReaders);
    }
    assert ViewOf(s') == ViewOf(mid.(pc := s'.pc)).(f := s'.lock);
  }

  // ------------------------------------------------------------------------
  // What the steps do, by the places of the threads
  // ------------------------------------------------------------------------

  /** A reader enters exactly if no writer has been granted the lock. Otherwise it is queued behind the other readers,
      or tries again exactly if it has no event. */
  lemma ReadStep(s: State, s': State, t: Tid, memory: bool)
    requires Inv(s) && EnterRead(s, s', t, memory)
    ensures s'.pc == s.pc[t := if ViewOf(s).writers == {} then Reading
                               else if memory && s.pc[t] == Idle then QueuedReader else RetryReader]
    ensures s'.lock.readers == s.lock.readers + if s'.pc[t] == QueuedReader then [t] else []
    ensures s'.lock.writers == s.lock.writers
  {
  }

  /** A writer enters exactly if nobody has been granted the lock. */
  lemma WriteStep(s: State, s': State, t: Tid, memory: bool)
    requires Inv(s) && EnterWrite(s, s', t, memory)
    ensures s'.pc == s.pc[t := if ViewOf(s).writers == {} && ViewOf(s).readers == {} then Writing
                               else if memory && s.pc[t] == Idle then QueuedWriter else RetryWriter]
    ensures s'.lock.writers == s.lock.writers + if s'.pc[t] == QueuedWriter then [t] else []
    ensures s'.lock.readers == s.lock.readers
  {
  }

  /** While others have been granted the lock, a holder that releases it just leaves. */
  lemma UnlockShared(s: State, s': State, t: Tid)
    requires Inv(s) && Unlock(s, s', t)
    requires ViewOf(s).readers + ViewOf(s).writers != {t}
    ensures s'.pc == s.pc[t := Idle]
    ensures s'.lock.readers == s.lock.readers && s'.lock.writers == s.lock.writers
  {
    var v := ViewOf(s);
    PlaceOf(s, t);
    GrantedCount(v, t);
    if s.lock.runcount == 1 {
      Single(v.readers, t);
    }
    assert SetEvents(s.pc[t := Idle], []) == s.pc[t := Idle];
  }

  /** The last holder hands the lock over to the writer that has waited longest. */
  lemma UnlockToWriter(s: State, s': State, t: Tid) returns (w: Tid)
    requires Inv(s) && Unlock(s, s', t)
    requires ViewOf(s).readers + ViewOf(s).writers == {t} && ViewOf(s).queuedWriters != {}
    ensures w in s.pc && s.pc[w] == QueuedWriter && s'.pc == s.pc[t := Idle][w := GrantedWriter]
    ensures s'.lock.readers == s.lock.readers && s.lock.writers == [w] + s'.lock.writers
  {
    var v := ViewOf(s);
    PlaceOf(s, t);
    GrantedCount(v, t);
    LastCount(v, t);
    QueueRest(s.lock.writers, v.queuedWriters);
    w := s.lock.writers[0];
    PlaceOf(s, w);
  }

  /** If no writer waits, it hands the lock over to all readers that wait. */
  lemma UnlockToReaders(s: State, s': State, t: Tid)
    requires Inv(s) && Unlock(s, s', t)
    requires ViewOf(s).readers + ViewOf(s).writers == {t} && ViewOf(s).queuedWriters == {}
    ensures s'.pc == map u | u in s.pc :: if u == t then Idle else if s.pc[u] == QueuedReader then GrantedReader
                                          else s.pc[u]
    ensures s'.lock.readers == [] && s'.lock.writers == []
  {
    var v := ViewOf(s);
    PlaceOf(s, t);
    GrantedCount(v, t);
    LastCount(v, t);
    if s.lock.writers != [] {
      QueueRest(s.lock.writers, v.queuedWriters);
    }
    forall u: Tid | u in s.pc ensures u in s.lock.readers <==> s.pc[u] == QueuedReader {
      PlaceOf(s, u);
    }
  }

  lemma LastCount(v: View, t: Tid)
    requires Good(v) && v.readers + v.writers == {t}
    ensures v.f.runcount == -1 || v.f.runcount == 1
  {
    if v.writers == {} {
      assert v.readers == {t};
    }
  }

  // ------------------------------------------------------------------------
  // Runs
  // ------------------------------------------------------------------------

  ghost predicate Run(states: seq<State>) {
    && states != [] && Init(states[0])
    && forall i :: 0 <= i < |states| - 1 ==> Next(states[i], states[i + 1])
  }

  lemma NextInv(s: State, s': State)
    requires Inv(s) && Next(s, s')
    ensures Inv(s')
  {
    var t, memory :| EnterRead(s, s', t, memory) || EnterWrite(s, s', t, memory) || Return(s, s', t)
        || Unlock(s, s', t);
    if EnterRead(s, s', t, memory) {
      EnterReadInv(s, s', t, memory);
    } else if EnterWrite(s, s', t, memory) {
      EnterWriteInv(s, s', t, memory);
    } else if Return(s, s', t) {
      ReturnInv(s, s', t);
    } else {
      UnlockInv(s, s', t);
    }
  }

  lemma {:induction false} ReachableInv(states: seq<State>)
    requires Run(states)
    ensures forall i :: 0 <= i < |states| ==> Inv(states[i])
  {
    if |states| == 1 {
      InitInv(states[0]);
    } else {
      var front := states[..|states| - 1];
      ReachableInv(front);
      assert states[|states| - 2] == front[|front| - 1];
      NextInv(states[|states| - 2], states[|states| - 1]);
    }
  }

  /** No run reaches an abort. */
  lemma NoAbort(states: seq<State>, i: nat, t: Tid)
    requires Run(states) && i < |states| && t in states[i].pc
    ensures states[i].pc[t] != Aborted
  {
    ReachableInv(states);
    PlaceOf(states[i], t);
  }

  /** Mutual exclusion, also between threads that have been granted the lock but have not yet returned. */
  lemma NeverBoth(states: seq<State>, i: nat, t: Tid, u: Tid)
    requires Run(states) && i < |states| && t != u && t in states[i].pc && u in states[i].pc
    requires states[i].pc[t] in {Writing, GrantedWriter}
    ensures states[i].pc[u] !in {Reading, GrantedReader, Writing, GrantedWriter}
  {
    ReachableInv(states);
    PlaceOf(states[i], t);
    PlaceOf(states[i], u);
    GrantedCount(ViewOf(states[i]), t);
  }

  /** Nobody waits for a lock that is free: while a thread is queued, another one has been granted the lock. */
  lemma QueuedBehind(states: seq<State>, i: nat, t: Tid) returns (u: Tid)
    requires Run(states) && i < |states| && t in states[i].pc && states[i].pc[t] in {QueuedReader, QueuedWriter}
    ensures u in states[i].pc && states[i].pc[u] in {Reading, GrantedReader, Writing, GrantedWriter}
    ensures states[i].pc[t] == QueuedReader ==> states[i].pc[u] in {Writing, GrantedWriter}
  {
    ReachableInv(states);
    var v := ViewOf(states[i]);
    PlaceOf(states[i], t);
    if v.writers == {} {
      assert v.readers != {};
      u :| u in v.readers;
    } else {
      u :| u in v.writers;
    }
  }
}
