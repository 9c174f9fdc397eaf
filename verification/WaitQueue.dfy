/** The wait queues of the Win32 locks: circular arrays of events that grow by rotation. */
module WaitQueue {
  import opened Wrappers

  /** An event handle. */
  type Handle = int

  /** The i-th position after offset in a circular array of the given size. */
  function Wrap(offset: nat, i: nat, alloc: nat): nat {
    if offset + i >= alloc then offset + i - alloc else offset + i
  }

  /** The elements of a circular array, the first one at offset. */
  ghost function Circular(a: seq<Handle>, offset: nat, count: nat): (q: seq<Handle>)
    requires count <= |a| && (offset < |a| || offset == count == 0)
    ensures |q| == count
  {
    seq(count, i requires 0 <= i < count => a[Wrap(offset, i, |a|)])
  }

  class CircularQueue {
    var array_: array<Handle>
    var count: nat
    var alloc: nat
    var offset: nat

    ghost predicate Valid()
      reads this
    {
      alloc == array_.Length && count <= alloc && (offset < alloc || offset == alloc == 0)
    }

    /** The waiting events, the first one to be notified in front. */
    ghost function Contents(): seq<Handle>
      reads this, array_
      requires Valid()
    {
      Circular(array_[..], offset, count)
    }

    constructor ()
      ensures Valid() && Contents() == [] && fresh(array_)
    {
      array_ := new Handle[0];
      count, alloc, offset := 0, 0, 0;
    }

    /** Makes room for one more event and rotates the array so that its contents start at offset 0.
        granted says whether the reallocation succeeds. */
    method Grow(granted: bool) returns (ok: bool)
      requires Valid() && count == alloc
      modifies this, array_
      ensures Valid() && ok == granted && Contents() == old(Contents())
      ensures ok ==> count < alloc && offset == 0 && fresh(array_)
      ensures !ok ==> unchanged(this) && unchanged(array_)
    {
      var new_alloc := 2 * alloc + 1;
      if !granted {
        return false;
      }
      ghost var q := Contents();
      var new_array := Realloc(array_, new_alloc);
      if offset > 0 {
        if offset + count > alloc {
          CopyBehind(new_array, alloc, offset + count - alloc);
        }
        ShiftDown(new_array, offset, count, q);
        offset := 0;
      }
      array_, alloc := new_array, new_alloc;
      ok := true;
      assert Contents() == q;
    }

    /** The event that can be added: none if the array has to grow and there is no memory. */
    ghost function Made(granted: bool, created: Option<Handle>): Option<Handle>
      reads this
    {
      if count < alloc || granted then created else None
    }

    /** Adds an event at the end. created is the result of CreateEvent; None stands for INVALID_HANDLE_VALUE.
        A failure leaves the queue as it was. */
    method Add(granted: bool, created: Option<Handle>) returns (event: Option<Handle>)
      requires Valid()
      modifies this, array_
      ensures Valid() && (array_ == old(array_) || fresh(array_))
      ensures event == old(Made(granted, created))
      ensures Contents() == if event.Some? then old(Contents()) + [event.value] else old(Contents())
    {
      if count == alloc {
        var ok := Grow(granted);
        if !ok {
          return None;
        }
      }
      event := created;
      if event == None {
        return;
      }
      var index := offset + count;
      if index >= alloc {
        index := index - alloc;
      }
      ghost var a := array_[..];
      array_[index] := event.value;
      AppendCircular(a, offset, count, event.value);
      assert array_[..] == a[Wrap(offset, count, alloc) := event.value];
      count := count + 1;
    }

    /** Removes the first event, which is set. */
    method NotifyFirst() returns (event: Handle)
      requires Valid() && count > 0
      modifies this
      ensures Valid() && array_ == old(array_)
      ensures old(Contents()) == [event] + Contents()
    {
      event := array_[offset + 0];
      FirstCircular(array_[..], offset, count);
      offset := offset + 1;
      count := count - 1;
      if count == 0 || offset == alloc {
        offset := 0;
      }
    }

    /** Removes all events, which are set in order. */
    method NotifyAll() returns (events: seq<Handle>)
      requires Valid()
      modifies this
      ensures Valid() && array_ == old(array_) && Contents() == []
      ensures events == old(Contents())
    {
      events := [];
      for i := 0 to count
        invariant count <= alloc == array_.Length && |events| == i
        invariant forall k :: 0 <= k < i ==> events[k] == array_[Wrap(offset, k, alloc)]
      {
        var index := offset + i;
        if index >= alloc {
          index := index - alloc;
        }
        events := events + [array_[index]];
      }
      count, offset := 0, 0;
    }
  }

  /** A longer array that begins with the contents of a. */
  method Realloc(a: array<Handle>, n: nat) returns (b: array<Handle>)
    requires n >= a.Length
    ensures fresh(b) && b.Length == n && b[..a.Length] == a[..]
  {
    b := new Handle[n];
    for i := 0 to a.Length
      invariant forall k :: 0 <= k < i ==> b[k] == a[k]
    {
      b[i] := a[i];
    }
  }

  /** Copies the wrapped part behind the old end. */
  method CopyBehind(a: array<Handle>, old_alloc: nat, limit: nat)
    requires limit <= old_alloc && old_alloc + limit <= a.Length
    modifies a
    ensures forall k :: 0 <= k < old_alloc ==> a[k] == old(a[k])
    ensures forall k :: 0 <= k < limit ==> a[old_alloc + k] == old(a[k])
  {
    for i := 0 to limit
      invariant forall k :: 0 <= k < old_alloc ==> a[k] == old(a[k])
      invariant forall k :: 0 <= k < i ==> a[old_alloc + k] == old(a[k])
    {
      a[old_alloc + i] := a[i];
    }
  }

  /** Moves count elements from offset to the front. */
  method ShiftDown(a: array<Handle>, offset: nat, count: nat, ghost q: seq<Handle>)
    requires offset + count <= a.Length && offset > 0 && |q| == count
    requires forall k :: 0 <= k < count ==> a[offset + k] == q[k]
    modifies a
    ensures a[..count] == q
  {
    for i := 0 to count
      invariant forall k :: 0 <= k < i ==> a[k] == q[k]
      invariant forall k :: i <= k < count ==> a[offset + k] == q[k]
    {
      a[i] := a[offset + i];
    }
  }

  lemma AppendCircular(a: seq<Handle>, offset: nat, count: nat, event: Handle)
    requires count < |a| && offset < |a|
    ensures Circular(a[Wrap(offset, count, |a|) := event], offset, count + 1) == Circular(a, offset, count) + [event]
  {
  }

  lemma FirstCircular(a: seq<Handle>, offset: nat, count: nat)
    requires 0 < count <= |a| && offset < |a|
    ensures var next := if count == 1 || offset + 1 == |a| then 0 else offset + 1;
            Circular(a, offset, count) == [a[offset]] + Circular(a, next, count - 1)
  {
  }
}
