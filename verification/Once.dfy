/** The once-initialiser. Every access to the shared fields is a step of its own. */
module Once {
  import opened Threads

  datatype Place =
    | Start          // about to test inited <= 0
    | Tested         // about to increment started
    | Winner         // the increment gave 0: about to initialise the critical section
    | Created        // about to enter it
    | Entered        // about to set inited to 0
    | Calling        // about to call initfunction
    | Running        // in initfunction
    | Finished       // about to set inited to 1
    | Leaving        // about to leave the critical section
    | Late           // the increment did not give 0: about to undo it
    | Spinning       // while (inited < 0)
    | Checking       // about to test inited <= 0 again
    | Taking         // about to enter the critical section
    | Holding        // about to leave it
    | Last           // about to test inited > 0
    | Returned
    | Aborted

  /** created: the critical section is initialised; cs: the thread in it, or 0; calls and done: how often
      initfunction has been called, and whether it has returned. */
  datatype Shared = Shared(inited: int, started: int, created: bool, cs: int, calls: nat, done: bool)

  datatype State = State(pc: map<Tid, Place>, h: Shared)

  datatype Acted = Acted(h: Shared, place: Place)

  /** What thread t does at place p. To enter the critical section before it is initialised is an error. */
  function Act(h: Shared, t: Tid, p: Place): Acted {
    match p
    case Start => Acted(h, if h.inited <= 0 then Tested else Returned)
    case Tested => Acted(h.(started := h.started + 1), if h.started + 1 == 0 then Winner else Late)
    case Winner => Acted(h.(created := true), Created)
    case Created => if h.created then Acted(h.(cs := t), Entered) else Acted(h, Aborted)
    case Entered => Acted(h.(inited := 0), Calling)
    case Calling => Acted(h.(calls := h.calls + 1), Running)
    case Running => Acted(h.(done := true), Finished)
    case Finished => Acted(h.(inited := 1), Leaving)
    case Leaving => Acted(h.(cs := 0), Returned)
    case Late => Acted(h.(started := h.started - 1), Spinning)
    case Spinning => Acted(h, if h.inited < 0 then Spinning else Checking)
    case Checking => Acted(h, if h.inited <= 0 then Taking else Returned)
    case Taking => if h.created then Acted(h.(cs := t), Holding) else Acted(h, Aborted)
    case Holding => Acted(h.(cs := 0), Last)
    case Last => Acted(h, if h.inited > 0 then Returned else Aborted)
    case Returned => Acted(h, Returned)
    case Aborted => Acted(h, Aborted)
  }

  /** Entering waits until the critical section is free. */
  predicate Enabled(h: Shared, p: Place) {
    p in {Created, Taking} && h.created ==> h.cs == 0
  }

  ghost predicate Step(s: State, s': State, t: Tid) {
    t in s.pc && Enabled(s.h, s.pc[t]) && var a := Act(s.h, t, s.pc[t]); s' == State(s.pc[t := a.place], a.h)
  }

  ghost predicate Init(s: State) {
    s.h == Shared(-1, -1, false, 0, 0, false) && forall t :: t in s.pc ==> s.pc[t] == Start
  }

  ghost predicate Next(s: State, s': State) {
    exists t :: Step(s, s', t)
  }

  // ------------------------------------------------------------------------
  // The invariant
  // ------------------------------------------------------------------------

  /** How far the thread that won the increment has come; 0 before there is one. */
  function Phase(p: Place): nat {
    match p
    case Winner => 1
    case Created => 2
    case Entered => 3
    case Calling => 4
    case Running => 5
    case Finished => 6
    case Leaving => 7
    case _ => 0
  }

  /** What the fields are in each phase; 8 is after the winner has left. late is the number of threads that are
      about to undo their increment. */
  ghost predicate InPhase(h: Shared, late: int, phase: nat, winner: int) {
    && phase <= 8 && (phase == 0 <==> winner == 0) && late >= 0
    && h.inited == (if phase <= 3 then -1 else if phase <= 6 then 0 else 1)
    && (h.created <==> phase >= 2)
    && h.calls == (if phase >= 5 then 1 else 0) && (h.done <==> phase >= 6)
    && (3 <= phase <= 7 ==> h.cs == winner)
    && (phase < 3 ==> h.cs == 0)
    && h.started == late - (if phase == 0 then 1 else 0)
    && (phase == 0 ==> late == 0)
  }

  /** What a thread at place p knows. */
  ghost predicate Local(phase: nat, winner: int, cs: int, t: Tid, p: Place) {
    && p != Aborted
    && (Phase(p) > 0 ==> winner == t && phase == Phase(p))
    && (p in {Late, Spinning} ==> phase >= 1)
    && (p in {Checking, Taking} ==> phase >= 4)
    && (p in {Holding, Last} ==> phase == 8)
    && (p == Returned ==> phase >= 7)
    && (winner == t && 1 <= phase <= 7 ==> phase == Phase(p))
    && (cs == t && phase == 8 ==> p == Holding)
  }

  function LateCount(s: State): nat {
    |At(s.pc, {Late})|
  }

  ghost predicate Explained(s: State, phase: nat, winner: int) {
    && InPhase(s.h, LateCount(s), phase, winner)
    && forall t :: t in s.pc ==> Local(phase, winner, s.h.cs, t, s.pc[t])
  }

  ghost predicate Inv(s: State) {
    exists phase: nat, winner: int :: Explained(s, phase, winner)
  }

  lemma InitInv(s: State)
    requires Init(s)
    ensures Inv(s)
  {
    assert At(s.pc, {Late}) == {};
    assert Explained(s, 0, 0);
  }

  /** The phase and the winner after the step of a thread at place p. */
  function NextPhase(h: Shared, p: Place, phase: nat): nat {
    if p == Tested && h.started == -1 then 1 else if Phase(p) > 0 then phase + 1 else phase
  }

  function NextWinner(h: Shared, t: Tid, p: Place, winner: int): int {
    if p == Tested && h.started == -1 then t else winner
  }

  function Lateness(p: Place): nat {
    if p == Late then 1 else 0
  }

  lemma ActInPhase(h: Shared, late: int, t: Tid, p: Place, phase: nat, winner: int)
    requires InPhase(h, late, phase, winner) && Local(phase, winner, h.cs, t, p) && Enabled(h, p) && late >= Lateness(p)
    ensures var a := Act(h, t, p);
            InPhase(a.h, late + Lateness(a.place) - Lateness(p), NextPhase(h, p, phase), NextWinner(h, t, p, winner))
  {
  }

  lemma ActLocal(h: Shared, late: int, t: Tid, p: Place, phase: nat, winner: int)
    requires InPhase(h, late, phase, winner) && Local(phase, winner, h.cs, t, p) && Enabled(h, p)
    ensures var a := Act(h, t, p);
            Local(NextPhase(h, p, phase), NextWinner(h, t, p, winner), a.h.cs, t, a.place)
  {
  }

  lemma OtherLocal(h: Shared, late: int, t: Tid, p: Place, phase: nat, winner: int, u: Tid, q: Place)
    requires InPhase(h, late, phase, winner) && Local(phase, winner, h.cs, t, p) && Enabled(h, p)
    requires u != t && Local(phase, winner, h.cs, u, q)
    ensures Local(NextPhase(h, p, phase), NextWinner(h, t, p, winner), Act(h, t, p).h.cs, u, q)
  {
  }

  lemma OneMoreOrLess(s: set<Tid>, t: Tid)
    ensures |s + {t}| == |s| + (if t in s then 0 else 1) && |s - {t}| == |s| - (if t in s then 1 else 0)
  {
    if t in s {
      assert s + {t} == s;
    } else {
      assert s - {t} == s;
    }
  }

  lemma LateMoves(s: State, s': State, t: Tid)
    requires Step(s, s', t)
    ensures LateCount(s') == LateCount(s) + Lateness(s'.pc[t]) - Lateness(s.pc[t]) && LateCount(s) >= Lateness(s.pc[t])
  {
    var late := At(s.pc, {Late});
    Moved(s.pc, t, s'.pc[t], {Late});
    Members(s.pc, {Late}, t);
    OneMoreOrLess(late, t);
  }

  lemma StepInv(s: State, s': State, t: Tid)
    requires Inv(s) && Step(s, s', t)
    ensures Inv(s')
  {
    var phase: nat, winner: int :| Explained(s, phase, winner);
    var p := s.pc[t];
    LateMoves(s, s', t);
    ActInPhase(s.h, LateCount(s), t, p, phase, winner);
    forall u | u in s'.pc
      ensures Local(NextPhase(s.h, p, phase), NextWinner(s.h, t, p, winner), s'.h.cs, u, s'.pc[u])
    {
      if u == t {
        ActLocal(s.h, LateCount(s), t, p, phase, winner);
      } else {
        OtherLocal(s.h, LateCount(s), t, p, phase, winner, u, s.pc[u]);
      }
    }
    assert Explained(s', NextPhase(s.h, p, phase), NextWinner(s.h, t, p, winner));
  }

  ghost predicate Run(states: seq<State>) {
    && states != [] && Init(states[0])
    && forall i :: 0 <= i < |states| - 1 ==> Next(states[i], states[i + 1])
  }

  lemma NextInv(s: State, s': State)
    requires Inv(s) && Next(s, s')
    ensures Inv(s')
  {
    var t :| Step(s, s', t);
    StepInv(s, s', t);
  }

  lemma {:induction false} ReachableInv(states: seq<State>)
    requires Run(states)
    ensures forall i :: 0 <= i < |states| ==> Inv(states[i])
  {
    if |states| == 1 {
      InitInv(states[0]);
    } else {
      var front := states[..|states| - 1];
      ReachableInv(front);
      assert states[|states| - 2] == front[|front| - 1];
      NextInv(states[|states| - 2], states[|states| - 1]);
    }
  }

  /** initfunction is called at most once, every caller that has returned sees it finished, and nothing aborts. */
  lemma ExactlyOnce(states: seq<State>, i: nat, t: Tid)
    requires Run(states) && i < |states| && t in states[i].pc
    ensures states[i].h.calls <= 1
    ensures states[i].pc[t] == Returned ==> states[i].h.calls == 1 && states[i].h.done
    ensures states[i].pc[t] != Aborted
  {
    ReachableInv(states);
    var phase: nat, winner: int :| Explained(states[i], phase, winner);
    assert Local(phase, winner, states[i].h.cs, t, states[i].pc[t]);
  }
}
