/** The byte cursor that every decoder on the parser reads through. */
module Cursor {
  import opened Common

  /** A position over one packet's immutable buffer. The buffer is a `const`,
      and every method's frame is `this`pos`: no operation can alter `b`. */
  class ByteReader {
    const b: seq<byte>
    var pos: nat

    constructor (b: seq<byte>)
      ensures this.b == b && pos == 0
    {
      this.b := b;
      pos := 0;
    }

    /** The current index; reading it changes nothing. */
    method Position() returns (i: nat)
      ensures i == pos
    {
      i := pos;
    }

    /** Moves the cursor to exactly `i`. */
    method Jump(i: nat)
      modifies this`pos
      ensures pos == i
    {
      pos := i;
    }

    /** Moves the cursor `n` bytes forward. */
    method Inc(n: nat)
      modifies this`pos
      ensures pos == old(pos) + n
    {
      pos := pos + n;
    }

    /** Moves the cursor `n` bytes back; after `Inc(n)` it restores the position. */
    method Dec(n: nat)
      requires n <= pos
      modifies this`pos
      ensures pos == old(pos) - n
    {
      pos := pos - n;
    }

    /** The byte under the cursor, advancing by one; OutOfBounds at the end of the buffer. */
    method ReadByte() returns (r: Result<byte>)
      modifies this`pos
      ensures old(pos) < |b| ==> r == Ok(b[old(pos)]) && pos == old(pos) + 1
      ensures |b| <= old(pos) ==> r == Err(OutOfBounds) && pos == old(pos)
    {
      if pos < |b| {
        r := Ok(b[pos]);
        pos := pos + 1;
      } else {
        r := Err(OutOfBounds);
      }
    }

    /** The next `n` bytes, advancing by `n`; OutOfBounds when fewer than `n` remain. */
    method ReadBytes(n: nat) returns (r: Result<seq<byte>>)
      modifies this`pos
      ensures r == ReadAt(b, old(pos), n)
      ensures old(pos) + n <= |b| ==> r.Ok? && |r.value| == n && pos == old(pos) + n
      ensures |b| < old(pos) + n ==> r.Err? && pos == old(pos)
    {
      if pos + n <= |b| {
        r := Ok(b[pos..pos + n]);
        pos := pos + n;
      } else {
        r := Err(OutOfBounds);
      }
    }
  }
}
