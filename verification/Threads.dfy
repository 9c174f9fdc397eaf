/** The program counters of any number of threads. */
module Threads {

  /** A thread identifier. 0 stands for no thread. */
  type Tid = t: int | t > 0 witness 1

  /** The threads at one of the given places. */
  function At<P>(pc: map<Tid, P>, places: set<P>): set<Tid> {
    set t | t in pc && pc[t] in places
  }

  /** A thread has moved to place q. */
  lemma Moved<P>(pc: map<Tid, P>, t: Tid, q: P, places: set<P>)
    requires t in pc
    ensures At(pc[t := q], places) == if q in places then At(pc, places) + {t} else At(pc, places) - {t}
  {
  }

  lemma Members<P>(pc: map<Tid, P>, places: set<P>, t: Tid)
    ensures t in At(pc, places) <==> t in pc && pc[t] in places
  {
  }

  lemma {:induction false} SubsetSize(a: set<Tid>, b: set<Tid>)
    requires a <= b
    ensures |a| <= |b|
    decreases |a|
  {
    if t :| t in a {
      SubsetSize(a - {t}, b - {t});
    }
  }

  /** A set of one element. */
  lemma Single(s: set<Tid>, t: Tid)
    requires |s| == 1 && t in s
    ensures s == {t}
  {
    forall u | u in s
      ensures u == t
    {
      SubsetSize({t, u}, s);
    }
  }
}
