/** The read/write lock that hands itself over to the waiting threads: whoever releases it does the
    bookkeeping for those it wakes. */
module RwHandoff {
  import opened Wrappers
  import opened Threads
  import opened WaitQueue

  // ------------------------------------------------------------------------
  // The lock
  // ------------------------------------------------------------------------

  /** The fields; a waiting thread is named by the event that it waits for. */
  datatype Fields = Fields(runcount: int, readers: seq<Handle>, writers: seq<Handle>)

  /** How a call goes on when it leaves the critical section: with the lock, waiting for the event that was
      created for it, or with another try because there was no memory for a wait. */
  datatype Entry = Granted | Wait(event: Handle) | Retry

  datatype Entered = Entered(fields: Fields, entry: Entry)

  /** rdlock; event is the event that could be added to the queue, if any. */
  function ReadEntry(f: Fields, event: Option<Handle>): Entered {
    if f.runcount + 1 > 0 then Entered(f.(runcount := f.runcount + 1), Granted)
    else match event
         case None => Entered(f, Retry)
         case Some(e) => Entered(f.(readers := f.readers + [e]), Wait(e))
  }

  function WriteEntry(f: Fields, event: Option<Handle>): Entered {
    if f.runcount == 0 then Entered(f.(runcount := -1), Granted)
    else match event
         case None => Entered(f, Retry)
         case Some(e) => Entered(f.(writers := f.writers + [e]), Wait(e))
  }

  /** The outcome of unlock: the events that it sets, an error code, or an abort. */
  datatype Exit = Notified(events: seq<Handle>) | Eperm | Abort

  datatype Exited = Exited(fields: Fields, exit: Exit)

  function Handover(f: Fields): Exited {
    if f.writers != [] then
      Exited(Fields(-1, f.readers, f.writers[1..]), Notified([f.writers[0]]))
    else
      Exited(Fields(|f.readers|, [], []), Notified(f.readers))
  }

  function Release(f: Fields): Exited {
    if f.runcount < -1 then Exited(f, Abort)
    else if f.runcount == 0 then Exited(f, Eperm)
    else
      var n := if f.runcount < 0 then 0 else f.runcount - 1;
      if n == 0 then Handover(f.(runcount := 0)) else Exited(f.(runcount := n), Notified([]))
  }

  /** The lock. The ghost fields say who has been granted it. */
  class RwLock {
    var runcount: int
    const waiting_readers: CircularQueue
    const waiting_writers: CircularQueue
    ghost var readers: nat
    ghost var writing: bool

    /** runcount tells the holders; readers are queued only behind a writer, writers only behind a holder. */
    ghost predicate Valid()
      reads this, waiting_readers, waiting_writers
    {
      && waiting_readers != waiting_writers && waiting_readers.array_ != waiting_writers.array_
      && waiting_readers.Valid() && waiting_writers.Valid()
      && (writing ==> readers == 0) && runcount == (if writing then -1 else readers)
      && (waiting_readers.count > 0 ==> writing) && (waiting_writers.count > 0 ==> writing || readers > 0)
    }

    /** The events of the readers that wait, the first one in front. */
    ghost function QueuedReaders(): seq<Handle>
      reads this, waiting_readers, waiting_writers, waiting_readers.array_
      requires Valid()
    {
      waiting_readers.Contents()
    }

    ghost function QueuedWriters(): seq<Handle>
      reads this, waiting_readers, waiting_writers, waiting_writers.array_
      requires Valid()
    {
      waiting_writers.Contents()
    }

    ghost function Value(): Fields
      reads this, waiting_readers, waiting_writers, waiting_readers.array_, waiting_writers.array_
      requires Valid()
    {
      Fields(runcount, QueuedReaders(), QueuedWriters())
    }

    constructor ()
      ensures Valid() && readers == 0 && !writing && QueuedReaders() == [] && QueuedWriters() == []
    {
      runcount, readers, writing := 0, 0, false;
      waiting_readers := new CircularQueue();
      waiting_writers := new CircularQueue();
    }

    /** rdlock within the critical section. The caller becomes a reader exactly if no writer has been granted the lock.
        Otherwise it waits at the end of the queue of readers, or tries again exactly if no event could be made.
        granted and created are the results of the allocations. */
    method Rdlock(granted: bool, created: Option<Handle>) returns (entry: Entry)
      requires Valid()
      modifies this, waiting_readers, waiting_readers.array_
      ensures Valid() && writing == old(writing) && QueuedWriters() == old(QueuedWriters())
      ensures readers == old(readers) + (if old(writing) then 0 else 1)
      ensures entry == if !old(writing) then Granted
                       else match old(waiting_readers.Made(granted, created))
                         case Some(e) => Wait(e)
                         case None => Retry
      ensures QueuedReaders() == old(QueuedReaders()) + if entry.Wait? then [entry.event] else []
      ensures Entered(Value(), entry) == ReadEntry(old(Value()), old(waiting_readers.Made(granted, created)))
    {
      if !(runcount + 1 > 0) {
        var event := waiting_readers.Add(granted, created);
        entry := if event == None then Retry else Wait(event.value);
        return;
      }
      runcount := runcount + 1;
      readers := readers + 1;
      entry := Granted;
    }

    /** wrlock within the critical section. The caller becomes the writer exactly if nobody has been granted the lock.
        Otherwise it waits at the end of the queue of writers, or tries again exactly if no event could be made. */
    method Wrlock(granted: bool, created: Option<Handle>) returns (entry: Entry)
      requires Valid()
      modifies this, waiting_writers, waiting_writers.array_
      ensures Valid() && readers == old(readers) && QueuedReaders() == old(QueuedReaders())
      ensures writing == (old(writing) || old(readers) == 0)
      ensures entry == if !old(writing) && old(readers) == 0 then Granted
                       else match old(waiting_writers.Made(granted, created))
                         case Some(e) => Wait(e)
                         case None => Retry
      ensures QueuedWriters() == old(QueuedWriters()) + if entry.Wait? then [entry.event] else []
      ensures Entered(Value(), entry) == WriteEntry(old(Value()), old(waiting_writers.Made(granted, created)))
    {
      if !(runcount == 0) {
        var event := waiting_writers.Add(granted, created);
        entry := if event == None then Retry else Wait(event.value);
        return;
      }
      runcount := runcount - 1;
      writing := true;
      entry := Granted;
    }

    /** unlock: EPERM exactly if nobody has been granted the lock. Otherwise there is one holder less, and the last one
        hands the lock over to the first writer that waits, or else to all readers that wait. */
    method Unlock() returns (exit: Exit)
      requires Valid()
      modifies this, waiting_readers, waiting_writers
      ensures Valid() && Exited(Value(), exit) == Release(old(Value()))
      ensures exit == Eperm <==> !old(writing) && old(readers) == 0
      ensures exit == Eperm ==> !writing && readers == 0 && Value() == old(Value())
      ensures old(readers) > 1 ==>
                && exit == Notified([]) && readers == old(readers) - 1 && !writing
                && QueuedReaders() == old(QueuedReaders()) && QueuedWriters() == old(QueuedWriters())
      ensures (old(writing) || old(readers) == 1) && old(QueuedWriters()) != [] ==>
                && exit == Notified([old(QueuedWriters())[0]]) && writing && readers == 0
                && QueuedReaders() == old(QueuedReaders()) && QueuedWriters() == old(QueuedWriters())[1..]
      ensures (old(writing) || old(readers) == 1) && old(QueuedWriters()) == [] ==>
                && exit == Notified(old(QueuedReaders())) && !writing && readers == |old(QueuedReaders())|
                && QueuedReaders() == [] && QueuedWriters() == []
    {
      exit := Notified([]);
      if runcount < 0 {
        if !(runcount == -1) {
          assert false;
        }
        runcount := 0;
        writing := false;
      } else {
        if !(runcount > 0) {
          return Eperm;
        }
        runcount := runcount - 1;
        readers := readers - 1;
      }
      if runcount == 0 {
        if waiting_writers.count > 0 {
          runcount := runcount - 1;
          var event := waiting_writers.NotifyFirst();
          exit := Notified([event]);
          writing := true;
        } else {
          runcount := runcount + waiting_readers.count;
          readers := waiting_readers.count;
          var events := waiting_readers.NotifyAll();
          exit := Notified(events);
        }
      }
    }
  }
}
