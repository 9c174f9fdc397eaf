/** The recursive lock made of a mutex, an owner and a depth. */
module RecursiveLock {
  import opened Threads

  const UINT_RANGE := 0x1_0000_0000

  datatype Code = Ok | Eagain | Eperm | Einval

  datatype Fields = Fields(owner: int, depth: nat)

  datatype Outcome = Outcome(fields: Fields, code: Code)

  /** The owner counts an acquisition, and undoes that if the count wraps around. */
  function Count(f: Fields): Outcome {
    if (f.depth + 1) % UINT_RANGE == 0 then Outcome(f, Eagain) else Outcome(f.(depth := f.depth + 1), Ok)
  }

  /** unlock up to the release of the mutex. */
  function Leave(f: Fields, self: Tid): Outcome {
    if f.owner != self then Outcome(f, Eperm)
    else if f.depth == 0 then Outcome(f, Einval)
    else Outcome(Fields(if f.depth == 1 then 0 else f.owner, f.depth - 1), Ok)
  }

  /** The acquisitions that a thread has outstanding. */
  function Held(held: map<Tid, nat>, t: Tid): nat {
    if t in held then held[t] else 0
  }

  /** Nobody but the owner has acquisitions, and depth counts them. */
  ghost predicate Counted(f: Fields, held: map<Tid, nat>) {
    && f.depth < UINT_RANGE && (f.owner == 0 ==> f.depth == 0)
    && forall t: Tid :: Held(held, t) == if t == f.owner then f.depth else 0
  }

  lemma HeldUpdate(f: Fields, g: Fields, held: map<Tid, nat>, t: Tid)
    requires Counted(f, held) && f.owner == t && g.depth < UINT_RANGE
    requires g.owner == t || (g.owner == 0 && g.depth == 0)
    ensures Counted(g, held[t := g.depth])
  {
    var held' := held[t := g.depth];
    forall u: Tid ensures Held(held', u) == if u == g.owner then g.depth else 0 {
      assert Held(held, u) == if u == f.owner then f.depth else 0;
    }
  }

  /** The ghost field counts the outstanding acquisitions of every thread. */
  class Lock {
    var owner: int
    var depth: nat
    ghost var held: map<Tid, nat>

    function Value(): Fields
      reads this
    {
      Fields(owner, depth)
    }

    ghost predicate Valid()
      reads this
    {
      Counted(Value(), held)
    }

    constructor ()
      ensures Valid() && owner == 0 && held == map[]
    {
      owner, depth, held := 0, 0, map[];
    }

    /** The owner acquires the lock once more, unless it has done so too often. */
    method CountUp(self: Tid) returns (code: Code)
      requires depth < UINT_RANGE && owner == self
      modifies this
      ensures Outcome(Value(), code) == Count(old(Value())) && owner == self
      ensures old(Valid()) ==> Valid() && (if old(Held(held, self)) + 1 < UINT_RANGE then code == Ok
                else code == Eagain)
      ensures Held(held, self) == old(Held(held, self)) + (if code == Ok then 1 else 0) || !old(Valid())
      ensures forall t: Tid :: t != self ==> Held(held, t) == old(Held(held, t))
    {
      ghost var f := Value();
      depth := (depth + 1) % UINT_RANGE;
      if depth == 0 {
        depth := (depth - 1) % UINT_RANGE;
        assert Value() == f;
        return Eagain;
      }
      code := Ok;
      if Counted(f, held) {
        HeldUpdate(f, Value(), held, self);
      }
      held := held[self := depth];
    }

    /** Gives back one acquisition of the caller; EPERM if another thread owns the lock, or nobody. release says that
        it was the last one, so that the mutex is to be unlocked. */
    method Unlock(self: Tid) returns (code: Code, release: bool)
      requires depth < UINT_RANGE
      modifies this
      ensures Outcome(Value(), code) == Leave(old(Value()), self)
      ensures old(Valid()) ==> Valid() && (code == Eperm <==> self != old(owner))
      ensures old(Valid()) ==> (code == Ok <==> old(Held(held, self)) > 0)
      ensures old(Valid()) && code == Ok ==> Held(held, self) == old(Held(held, self)) - 1
      ensures forall t: Tid :: t != self || code != Ok ==> Held(held, t) == old(Held(held, t))
      ensures release <==> code == Ok && depth == 0
      ensures release ==> owner == 0
    {
      release := false;
      if owner != self {
        return Eperm, false;
      }
      if depth == 0 {
        return Einval, false;
      }
      ghost var f := Value();
      depth := depth - 1;
      code := Ok;
      if depth == 0 {
        owner := 0;
        release := true;
      }
      if Counted(f, held) {
        HeldUpdate(f, Value(), held, self);
      }
      held := held[self := depth];
    }
  }

  // ------------------------------------------------------------------------
  // The threads
  // ------------------------------------------------------------------------

  datatype Place =
    | Idle
    | Blocked    // in pthread_mutex_lock
    | Locked     // has the mutex; about to set the owner
    | Counting   // owner is this thread; about to count
    | Dropping   // has passed the test of the owner in unlock; about to decrement the depth
    | Clearing   // has decremented it to 0; about to clear the owner
    | Releasing  // has cleared the owner; about to unlock the mutex

  /** mutex is the thread that has the mutex, or 0. held counts the calls of lock that returned Ok minus those
      of unlock that have decremented the depth, per thread. */
  datatype State = State(pc: map<Tid, Place>, mutex: int, f: Fields, held: map<Tid, int>)

  function Goto(s: State, t: Tid, p: Place): State {
    s.(pc := s.pc[t := p])
  }

  /** The test of the depth in unlock, and its decrement. */
  function Drop(f: Fields): Outcome {
    if f.depth == 0 then Outcome(f, Einval) else Outcome(f.(depth := f.depth - 1), Ok)
  }

  /** The step of thread t. Both functions compare the owner without having the mutex; each such comparison, and each
      write of the owner, is a step of its own. */
  ghost predicate Step(s: State, s': State, t: Tid) {
    && t in s.pc && t in s.held
    && match s.pc[t]
       case Idle =>
         || s' == Goto(s, t, if s.f.owner != t then Blocked else Counting)
         || s' == Goto(s, t, if s.f.owner != t then Idle else Dropping)
       case Blocked => s.mutex == 0 && s' == Goto(s, t, Locked).(mutex := t)
       case Locked => s' == Goto(s, t, Counting).(f := s.f.(owner := t))
       case Counting =>
         var r := Count(s.f);
         s' == Goto(s, t, Idle).(f := r.fields, held := if r.code == Ok then s.held[t := s.held[t] + 1] else s.held)
       case Dropping =>
         var r := Drop(s.f);
         if r.code != Ok then s' == Goto(s, t, Idle)
         else s' == Goto(s, t, if r.fields.depth == 0 then Clearing else Idle)
                    .(f := r.fields, held := s.held[t := s.held[t] - 1])
       case Clearing => s' == Goto(s, t, Releasing).(f := s.f.(owner := 0))
       case Releasing => s' == Goto(s, t, Idle).(mutex := 0)
  }

  /** The steps of unlock are, one after another, what the method does. */
  lemma UnlockInSteps(f: Fields, t: Tid)
    ensures Leave(f, t) ==
            if f.owner != t then Outcome(f, Eperm)
            else if Drop(f).code == Ok && Drop(f).fields.depth == 0 then Outcome(Drop(f).fields.(owner := 0), Ok)
            else Drop(f)
  {
  }

  ghost predicate Init(s: State) {
    && s.mutex == 0 && s.f == Fields(0, 0) && s.pc.Keys == s.held.Keys
    && forall t :: t in s.pc ==> s.pc[t] == Idle && s.held[t] == 0
  }

  // ------------------------------------------------------------------------
  // The invariant
  // ------------------------------------------------------------------------

  /** What thread t at place p knows: if it is the owner, it has the mutex and depth counts its acquisitions. */
  ghost predicate Local(s: State, t: Tid, p: Place, held: int) {
    && (s.f.owner == t ==> s.mutex == t)
    && held == (if s.f.owner == t then s.f.depth else 0)
    && match p
       case Idle => (s.mutex == t <==> s.f.owner == t) && (s.f.owner == t ==> s.f.depth > 0)
       case Blocked => s.mutex != t && s.f.owner != t
       case Locked => s.mutex == t && s.f.owner == 0
       case Counting => s.mutex == t && s.f.owner == t
       case Dropping => s.mutex == t && s.f.owner == t && s.f.depth > 0
       case Clearing => s.mutex == t && s.f.owner == t && s.f.depth == 0
       case Releasing => s.mutex == t && s.f.owner == 0
  }

  ghost predicate Inv(s: State) {
    && s.pc.Keys == s.held.Keys
    && s.f.depth < UINT_RANGE
    && (s.f.owner == 0 ==> s.f.depth == 0)
    && (s.f.owner != 0 ==> s.f.owner == s.mutex)
    && forall t :: t in s.pc ==> Local(s, t, s.pc[t], s.held[t])
  }

  lemma InitInv(s: State)
    requires Init(s)
    ensures Inv(s)
  {
  }

  lemma StepInv(s: State, s': State, t: Tid)
    requires Inv(s) && Step(s, s', t)
    ensures Inv(s')
  {
    assert Local(s, t, s.pc[t], s.held[t]);
    assert Local(s', t, s'.pc[t], s'.held[t]);
    forall u | u in s'.pc && u != t
      ensures Local(s', u, s'.pc[u], s'.held[u])
    {
      assert Local(s, u, s.pc[u], s.held[u]);
    }
  }

  ghost predicate Next(s: State, s': State) {
    exists t :: Step(s, s', t)
  }

  ghost predicate Run(states: seq<State>) {
    && states != [] && Init(states[0])
    && forall i :: 0 <= i < |states| - 1 ==> Next(states[i], states[i + 1])
  }

  lemma NextInv(s: State, s': State)
    requires Inv(s) && Next(s, s')
    ensures Inv(s')
  {
    var t :| Step(s, s', t);
    StepInv(s, s', t);
  }

  lemma {:induction false} ReachableInv(states: seq<State>)
    requires Run(states)
    ensures forall i :: 0 <= i < |states| ==> Inv(states[i])
  {
    if |states| == 1 {
      InitInv(states[0]);
    } else {
      var front := states[..|states| - 1];
      ReachableInv(front);
      assert states[|states| - 2] == front[|front| - 1];
      NextInv(states[|states| - 2], states[|states| - 1]);
    }
  }

  /** In every state of every run at most one thread has acquisitions outstanding, and depth counts them. */
  lemma OneHolder(states: seq<State>, i: nat, t: Tid, u: Tid)
    requires Run(states) && i < |states| && t in states[i].held && u in states[i].held
    requires states[i].held[t] > 0
    ensures states[i].f == Fields(t, states[i].held[t]) && states[i].mutex == t
    ensures u != t ==> states[i].held[u] == 0
  {
    ReachableInv(states);
    assert Local(states[i], t, states[i].pc[t], states[i].held[t]);
    assert Local(states[i], u, states[i].pc[u], states[i].held[u]);
  }

  /** Between calls, unlock succeeds exactly for a thread with outstanding acquisitions; otherwise it returns EPERM.
      Once past the test of the owner, it succeeds. */
  lemma UnlockCode(states: seq<State>, i: nat, t: Tid)
    requires Run(states) && i < |states| && t in states[i].held && t in states[i].pc
    ensures states[i].pc[t] == Dropping ==> Drop(states[i].f).code == Ok
    ensures states[i].pc[t] == Idle ==>
              Leave(states[i].f, t).code == if states[i].held[t] > 0 then Ok else Eperm
  {
    ReachableInv(states);
    assert Local(states[i], t, states[i].pc[t], states[i].held[t]);
  }
}
