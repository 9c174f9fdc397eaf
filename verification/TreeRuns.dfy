/** Every run of tsearch, tfind and tdelete behaves like the same run on a finite set. */
module TreeRuns {
  import opened TreeShape
  import opened TreeHeap
  import opened TreeHeight
  import opened TreeInsert
  import opened TreeDelete

  /** A call; granted says whether an allocation in it would succeed. */
  datatype Op = Search(key: int, granted: bool) | Find(key: int) | Delete(key: int)

  /** The set after a call. */
  function After1(s: set<int>, op: Op): set<int> {
    match op
    case Search(k, granted) => if granted then s + {k} else s
    case Find(_) => s
    case Delete(k) => s - {k}
  }

  /** Whether a call returns a node. */
  predicate Answer(s: set<int>, op: Op) {
    op.key in s || (op.Search? && op.granted)
  }

  function SetAfter(s: set<int>, ops: seq<Op>): set<int> {
    if ops == [] then s else After1(SetAfter(s, ops[..|ops| - 1]), ops[|ops| - 1])
  }

  function Answers(s: set<int>, ops: seq<Op>): seq<bool> {
    if ops == [] then [] else Answers(s, ops[..|ops| - 1]) + [Answer(SetAfter(s, ops[..|ops| - 1]), ops[|ops| - 1])]
  }

  /** Sorted keys are different keys. */
  lemma {:induction false} SortedSize(s: seq<int>)
    requires Sorted(s)
    ensures |SetOf(s)| == |s|
  {
    if s != [] {
      var front := s[..|s| - 1];
      SortedSize(front);
      assert s[|s| - 1] !in front;
      assert SetOf(s) == SetOf(front) + {s[|s| - 1]} by {
        assert s == front + [s[|s| - 1]];
      }
    }
  }

  lemma {:induction false} SizeAfter(s: set<int>, ops: seq<Op>)
    ensures |SetAfter(s, ops)| <= |s| + |ops|
  {
    if ops != [] {
      SizeAfter(s, ops[..|ops| - 1]);
    }
  }

  /** One call. */
  method Call(tree: Tree, op: Op) returns (answer: bool)
    requires tree.Valid() && (op.Delete? ==> |tree.Contents()| < Pow2(48))
    modifies tree, tree.nodes
    ensures tree.Valid() && fresh(tree.nodes - old(tree.nodes))
    ensures SetOf(tree.Contents()) == After1(SetOf(old(tree.Contents())), op)
    ensures answer == Answer(SetOf(old(tree.Contents())), op)
  {
    var q;
    match op {
      case Search(key, granted) => q := Tsearch(key, tree, granted);
      case Find(key) => q := Tfind(key, tree);
      case Delete(key) => q := Tdelete(key, tree);
    }
    answer := q != null;
  }

  /** Whenever a run comes to a deletion, the set has fewer than 2^48 elements. */
  ghost predicate Bounded(s: set<int>, ops: seq<Op>) {
    forall i :: 0 <= i < |ops| && ops[i].Delete? ==> |SetAfter(s, ops[..i])| < Pow2(48)
  }

  /** Runs that are short enough are bounded. */
  lemma ShortRunBounded(s: set<int>, ops: seq<Op>)
    requires |s| + |ops| <= Pow2(48)
    ensures Bounded(s, ops)
  {
    forall i | 0 <= i < |ops| && ops[i].Delete? ensures |SetAfter(s, ops[..i])| < Pow2(48) {
      SizeAfter(s, ops[..i]);
    }
  }

  /** A run of calls. The tree has fewer than 2^48 nodes whenever it comes to a deletion. */
  method Run(tree: Tree, ops: seq<Op>) returns (answers: seq<bool>)
    requires tree.Valid() && Bounded(SetOf(tree.Contents()), ops)
    modifies tree, tree.nodes
    ensures tree.Valid()
    ensures SetOf(tree.Contents()) == SetAfter(SetOf(old(tree.Contents())), ops)
    ensures answers == Answers(SetOf(old(tree.Contents())), ops)
  {
    ghost var s := SetOf(tree.Contents());
    answers := [];
    for i := 0 to |ops|
      invariant tree.Valid() && fresh(tree.nodes - old(tree.nodes))
      invariant SetOf(tree.Contents()) == SetAfter(s, ops[..i]) && answers == Answers(s, ops[..i])
    {
      SortedSize(tree.Contents());
      var answer := Call(tree, ops[i]);
      answers := answers + [answer];
      assert ops[..i + 1][..i] == ops[..i];
    }
    assert ops[..|ops|] == ops;
  }
}
