/** Text written into a buffer from the front. */
module TextBuffer {

  /** buf holds text in front of at. */
  ghost predicate Holds(buf: array<char>, at: nat, text: string)
    reads buf
  {
    at == |text| <= buf.Length && buf[..at] == text
  }

  /** Copies a piece of text behind the text in the buffer. */
  method PutText(buf: array<char>, at: nat, piece: string, ghost text: string) returns (at': nat)
    requires Holds(buf, at, text) && at + |piece| <= buf.Length
    modifies buf
    ensures Holds(buf, at', text + piece)
  {
    var i := 0;
    while i < |piece|
      invariant 0 <= i <= |piece| && Holds(buf, at + i, text + piece[..i])
    {
      buf[at + i] := piece[i];
      assert piece[..i + 1] == piece[..i] + [piece[i]];
      i := i + 1;
    }
    assert piece[..i] == piece;
    at' := at + i;
  }
}
