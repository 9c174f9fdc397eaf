/** The memory for converted strings: pieces are cut from the front of large blocks. */
module ConvertedStrings {
  import opened Wrappers

  const INITIAL_BLOCK_SIZE: nat := 4080

  /** sizeof (size_t) and alignof (size_t) */
  const WORD: nat := 8

  /** A converted string with the word in front of it that holds its length. */
  datatype Record = Record(block: nat, start: nat, len: nat)
  {
    function Limit(): nat {
      start + WORD + len
    }
  }

  /** The result of iconv with a given room: the length of the converted string, E2BIG, or another error. */
  datatype Step = Done(len: nat) | TooBig | Illegal

  type Iconv = nat -> Step

  /** iconv writes no more than there is room for, and some room is enough. */
  ghost predicate Sensible(iconv: Iconv, enough: nat) {
    forall room: nat :: (iconv(room).Done? ==> iconv(room).len <= room) && (room >= enough ==> !iconv(room).TooBig?)
  }

  datatype Outcome = Converted(record: Record) | Failed | NoMemory

  predicate Disjoint(r: Record, s: Record) {
    r.block != s.block || r.Limit() <= s.start || s.Limit() <= r.start
  }

  /** All records lie in blocks, at aligned addresses, and no two of them overlap. */
  ghost predicate Kept(records: seq<Record>, blocks: map<nat, nat>) {
    && (forall i :: 0 <= i < |records| ==>
          records[i].block in blocks && records[i].start % WORD == 0 && records[i].Limit() <= blocks[records[i].block])
    && (forall i, j :: 0 <= i < j < |records| ==> Disjoint(records[i], records[j]))
  }

  /** The rest of the block from start on is free. */
  ghost predicate Free(records: seq<Record>, block: nat, start: nat) {
    forall i :: 0 <= i < |records| && records[i].block == block ==> records[i].Limit() <= start
  }

  lemma OneMore(records: seq<Record>, blocks: map<nat, nat>, r: Record)
    requires Kept(records, blocks) && Free(records, r.block, r.start)
    requires r.block in blocks && r.start % WORD == 0 && r.Limit() <= blocks[r.block]
    ensures Kept(records + [r], blocks) && Free(records + [r], r.block, r.Limit())
  {
  }

  lemma FreeFurther(records: seq<Record>, block: nat, start: nat, start': nat)
    requires Free(records, block, start) && start <= start'
    ensures Free(records, block, start')
  {
  }

  /** A new block holds no record. */
  lemma NewBlock(records: seq<Record>, blocks: map<nat, nat>, b: nat, size: nat)
    requires Kept(records, blocks) && b !in blocks
    ensures Kept(records, blocks[b := size]) && Free(records, b, 0)
  {
  }

  /** A block without records may move, and change its size. */
  lemma MoveBlock(records: seq<Record>, blocks: map<nat, nat>, b: nat, b': nat, size: nat)
    requires Kept(records, blocks) && Free(records, b, 0) && b' !in blocks - {b}
    ensures Kept(records, (blocks - {b})[b' := size]) && Free(records, b', 0)
  {
    forall i | 0 <= i < |records| ensures records[i].block != b {
      assert records[i].Limit() > 0;
    }
    NewBlock(records, blocks - {b}, b', size);
  }

  /** The remainder of a block that ends at an aligned address is cut off at its front. */
  lemma StaysAligned(start: nat, size: nat)
    requires (start + size) % WORD == 0
    ensures var cut := size % WORD;
            (start + cut) % WORD == 0 && (size - cut) % WORD == 0 && (start + cut) + (size - cut) == start + size
  {
  }

  /** Block b, if there is one, has been allocated beside the others and enlarged until it had the size of count. */
  ghost predicate Grown(before: map<nat, nat>, after: map<nat, nat>, b: nat, count: nat) {
    if count == 0 then after == before else b !in before && after == before[b := count * INITIAL_BLOCK_SIZE]
  }

  /** The memory from start on is the aligned rest of block b and holds no record. */
  ghost predicate Rest(b: nat, start: nat, size: nat, blocks: map<nat, nat>, records: seq<Record>) {
    b in blocks && start + size == blocks[b] && start % WORD == 0 && size % WORD == 0 && Free(records, b, start)
  }

  /** What happens in a block enlarged count times, if there is a rest of a block in the beginning. */
  function Attempt(iconv: Iconv, rest: nat, count: nat): Step {
    var size := if count == 0 then rest else count * INITIAL_BLOCK_SIZE;
    if size < WORD then TooBig else iconv(size - WORD)
  }

  /** malloc and realloc: grants says which calls succeed, addresses where a block goes that lies apart from others. */
  class Heap {
    const grants: nat -> bool
    const addresses: (nat, set<nat>) -> nat
    var calls: nat
    var blocks: map<nat, nat>

    constructor (grants: nat -> bool, addresses: (nat, set<nat>) -> nat)
      ensures this.grants == grants && this.addresses == addresses && calls == 0 && blocks == map[]
    {
      this.grants, this.addresses, calls, blocks := grants, addresses, 0, map[];
    }

    ghost predicate Apart() {
      forall k: nat, others: set<nat> :: addresses(k, others) !in others
    }

    method Malloc(size: nat) returns (b: Option<nat>)
      modifies this
      ensures calls == old(calls) + 1
      ensures b == if grants(old(calls)) then Some(addresses(old(calls), old(blocks.Keys))) else None
      ensures blocks == if b.Some? then old(blocks)[b.value := size] else old(blocks)
    {
      b := if grants(calls) then Some(addresses(calls, blocks.Keys)) else None;
      if b.Some? {
        blocks := blocks[b.value := size];
      }
      calls := calls + 1;
    }

    /** The block may stay where it is; if there is no memory, it stays as it is. */
    method Realloc(block: nat, size: nat) returns (b: Option<nat>)
      requires block in blocks
      modifies this
      ensures calls == old(calls) + 1
      ensures b == if grants(old(calls)) then Some(addresses(old(calls), old(blocks.Keys) - {block})) else None
      ensures blocks == if b.Some? then (old(blocks) - {block})[b.value := size] else old(blocks)
    {
      b := if grants(calls) then Some(addresses(calls, blocks.Keys - {block})) else None;
      if b.Some? {
        blocks := (blocks - {block})[b.value := size];
      }
      calls := calls + 1;
    }
  }

  /** The static variables freemem and freemem_size; freemem is a position in a block. */
  class Store {
    const heap: Heap
    var block: nat
    var freemem: nat
    var freemem_size: nat
    ghost var records: seq<Record>

    constructor (heap: Heap)
      requires heap.Apart()
      ensures this.heap == heap && Valid() && records == []
    {
      this.heap, block, freemem, freemem_size, records := heap, 0, 0, 0, [];
    }

    ghost predicate Valid()
      reads this, heap
    {
      && heap.Apart()
      && Kept(records, heap.blocks)
      && (freemem_size > 0 ==> Rest(block, freemem, freemem_size, heap.blocks, records))
    }

    /** Replaces the rest of a used block by a new block, or a block that turned out too small by a larger one. */
    method Resize(malloc_count: nat, ghost before: map<nat, nat>) returns (ok: bool)
      requires Valid() && Grown(before, heap.blocks, block, malloc_count)
      requires malloc_count > 0 ==> Free(records, block, 0)
      modifies this, heap
      ensures Valid() && records == old(records)
      ensures heap.calls == old(heap.calls) + 1 && ok == heap.grants(old(heap.calls))
      ensures ok ==> Free(records, block, 0) && Grown(before, heap.blocks, block, malloc_count + 1)
      ensures ok ==> freemem == 0 && freemem_size == (malloc_count + 1) * INITIAL_BLOCK_SIZE
      ensures !ok ==> block == old(block) && heap.blocks == old(heap.blocks) && freemem_size == 0
    {
      var newmem;
      freemem, freemem_size := 0, (malloc_count + 1) * INITIAL_BLOCK_SIZE;
      assert freemem_size == (malloc_count + 1) * 510 * WORD;
      if malloc_count > 0 {
        newmem := heap.Realloc(block, freemem_size);
        if newmem.Some? {
          MoveBlock(records, old(heap.blocks), block, newmem.value, freemem_size);
        }
      } else {
        newmem := heap.Malloc(freemem_size);
        if newmem.Some? {
          NewBlock(records, old(heap.blocks), newmem.value, freemem_size);
        }
      }
      ok := newmem.Some?;
      if ok {
        block := newmem.value;
      } else {
        freemem_size := 0;
      }
    }

    /** Converts a string into memory of its own: in the rest of the current block, or else in a block that is enlarged
        until it has room. */
    method Convert(iconv: Iconv, ghost enough: nat) returns (out: Outcome, ghost count: nat)
      requires Valid() && Sensible(iconv, enough)
      modifies this, heap
      ensures Valid() && heap.calls == old(heap.calls) + count + if out.NoMemory? then 1 else 0
      ensures forall k :: old(heap.calls) <= k < heap.calls ==>
                            heap.grants(k) == (k < old(heap.calls) + count)
      ensures Grown(old(heap.blocks), heap.blocks, block, count)
      ensures records == if out.Converted? then old(records) + [out.record] else old(records)
      ensures forall k :: 0 <= k < count ==> Attempt(iconv, old(freemem_size), k).TooBig?
      ensures out == match Attempt(iconv, old(freemem_size), count)
                     case Done(len) => Converted(Record(block, if count == 0 then old(freemem) else 0, len))
                     case TooBig => NoMemory
                     case Illegal => Failed
    {
      count := 0;
      var malloc_count := 0;
      var len: nat;
      while true
        invariant Valid() && records == old(records) && count == malloc_count
        invariant heap.calls == old(heap.calls) + count
        invariant forall k :: old(heap.calls) <= k < heap.calls ==> heap.grants(k)
        invariant Grown(old(heap.blocks), heap.blocks, block, count)
        invariant forall k :: 0 <= k < count ==> Attempt(iconv, old(freemem_size), k).TooBig?
        invariant count == 0 ==> freemem == old(freemem) && freemem_size == old(freemem_size)
        invariant count > 0 ==>
                freemem_size == malloc_count * INITIAL_BLOCK_SIZE && Free(records, block, 0) && freemem == 0
        decreases enough + WORD + INITIAL_BLOCK_SIZE - malloc_count * INITIAL_BLOCK_SIZE
      {
        if freemem_size >= WORD {
          var step := iconv(freemem_size - WORD);
          if step.Illegal? {
            return Failed, count;
          }
          if step.Done? {
            len := step.len;
            break;
          }
        }
        var ok := Resize(malloc_count, old(heap.blocks));
        if !ok {
          return NoMemory, count;
        }
        malloc_count, count := malloc_count + 1, count + 1;
      }
      var record := Cut(len);
      out := Converted(record);
    }

    /** Cuts a record off the front of the free memory, and keeps the rest aligned. */
    method Cut(len: nat) returns (record: Record)
      requires Valid() && WORD + len <= freemem_size
      modifies this
      ensures Valid() && records == old(records) + [record] && record == Record(old(block), old(freemem), len)
                && block == old(block)
    {
      record := Record(block, freemem, len);
      OneMore(records, heap.blocks, record);
      records := records + [record];
      var outbuf := freemem + WORD + len;
      freemem_size := freemem_size - (outbuf - freemem);
      StaysAligned(outbuf, freemem_size);
      freemem := outbuf + freemem_size % WORD;
      freemem_size := freemem_size - freemem_size % WORD;
      FreeFurther(records, block, outbuf, freemem);
    }
  }
}
