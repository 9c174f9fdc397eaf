/** The growing buffer for the output of the formatting functions. */
module PrintfBuffer {
  import opened Xsize
  import opened Allocator

  class Accumulator {
    var result: array<char>
    var length: nat

    /** Starts with the buffer of the caller, which may be empty. */
    constructor (resultbuf: array<char>)
      requires resultbuf.Length < SIZE_MAX
      ensures Valid() && Text() == "" && result == resultbuf
    {
      result, length := resultbuf, 0;
    }

    ghost predicate Valid()
      reads this
    {
      length <= result.Length < SIZE_MAX
    }

    ghost function Text(): string
      requires Valid()
      reads this, result
    {
      result[..length]
    }

    /** Makes room for the needed number of characters, by doubling if that is enough. */
    method EnsureAllocation(mem: Memory, needed: Size) returns (ok: bool)
      requires Valid()
      modifies this`result, mem
      ensures Valid() && Text() == old(Text()) && (result == old(result) || fresh(result))
      ensures ok ==> needed <= result.Length
      ensures !ok ==> mem.Refused(old(mem.calls)) || 2 * needed >= SIZE_MAX
      ensures old(mem.calls) <= mem.calls
    {
      if needed <= result.Length {
        return true;
      }
      XtimesSaturates(result.Length, 2);
      var room := if result.Length > 0 then Xtimes(result.Length, 2) else 12;
      if needed > room {
        room := needed;
      }
      if room == SIZE_MAX {
        return false;
      }
      ok := mem.Allocate(room);
      if ok {
        var memory := new char[room](i requires 0 <= i < room reads this, result =>
          if i < result.Length then result[i] else '\0');
        result := memory;
      }
    }

    /** Appends a piece of text. */
    method Append(mem: Memory, piece: string) returns (ok: bool)
      requires Valid() && |piece| < SIZE_MAX
      modifies this, result, mem
      ensures Valid() && (result == old(result) || fresh(result)) && old(mem.calls) <= mem.calls
      ensures ok ==> Text() == old(Text()) + piece
      ensures !ok ==> mem.Refused(old(mem.calls)) || TooLong(|old(Text())| + |piece|)
    {
      XsumSaturates(length, |piece|);
      ok := EnsureAllocation(mem, Xsum(length, |piece|));
      if ok {
        Copy(piece);
      }
    }

    method Copy(piece: string)
      requires Valid() && length + |piece| <= result.Length
      modifies this`length, result
      ensures Valid() && Text() == old(Text()) + piece
    {
      ghost var text := Text();
      var n := 0;
      while n < |piece|
        invariant 0 <= n <= |piece| && length == |text| + n && length + (|piece| - n) <= result.Length
        invariant Valid() && Text() == text + piece[..n]
      {
        result[length] := piece[n];
        length := length + 1;
        n := n + 1;
        assert piece[..n] == piece[..n - 1] + [piece[n - 1]];
      }
      assert piece[..n] == piece;
    }

    /** Puts the NUL behind the text. */
    method Terminate(mem: Memory) returns (ok: bool)
      requires Valid()
      modifies this, result, mem
      ensures Valid() && (result == old(result) || fresh(result)) && old(mem.calls) <= mem.calls
      ensures ok ==> Text() == old(Text()) && length < result.Length && result[length] == '\0'
      ensures !ok ==> mem.Refused(old(mem.calls)) || TooLong(|old(Text())| + 1)
    {
      XsumSaturates(length, 1);
      ok := EnsureAllocation(mem, Xsum(length, 1));
      if ok {
        result[length] := '\0';
      }
    }
  }

  /** Twice this size overflows. */
  ghost predicate TooLong(n: nat) {
    2 * n >= SIZE_MAX
  }
}
