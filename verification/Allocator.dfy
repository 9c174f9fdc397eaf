/** Memory that may be refused. */
module Allocator {
  import opened Xsize

  /** An allocator: grants says which requests succeed. */
  class Memory {
    const grants: nat -> bool
    var calls: nat

    constructor (g: nat -> bool)
      ensures grants == g && calls == 0
    {
      grants, calls := g, 0;
    }

    method Allocate(size: Size) returns (ok: bool)
      modifies this
      ensures calls == old(calls) + 1 && ok == grants(old(calls))
    {
      ok := grants(calls);
      calls := calls + 1;
    }

    /** A request has been refused since there had been the given number of calls. */
    ghost predicate Refused(since: nat)
      reads this
    {
      exists k :: since <= k < calls && !grants(k)
    }
  }
}
