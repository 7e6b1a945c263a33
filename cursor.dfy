/**
 The in-memory reader the IDX parser works through (Rust's
 `std::io::Cursor` over the decompressed bytes): a fixed buffer and a
 position that every read advances.
 */
module Cursors {
  import opened BigEndian
  import opened Outcomes

  class Cursor {
    const buffer: seq<Byte>
    var pos: nat

    ghost predicate Valid()
      reads this
    {
      pos <= |buffer|
    }

    /** The bytes not read yet. */
    function Remaining(): (rest: seq<Byte>)
      reads this
      requires Valid()
      ensures buffer == buffer[..pos] + rest
    {
      buffer[pos..]
    }

    constructor (buffer: seq<Byte>)
      ensures Valid() && this.buffer == buffer && pos == 0
    {
      this.buffer := buffer;
      pos := 0;
    }

    /**
     `read_i32::<BigEndian>()`: four bytes at the position, decoded big-endian.
     With fewer than four bytes left it fails with an end-of-file error and
     leaves the position at the end of the buffer, as `read_exact` does.
     */
    method ReadI32() returns (r: Outcome<I32>)
      requires Valid()
      modifies this`pos
      ensures Valid()
      ensures old(pos) + 4 <= |buffer| ==>
                r == Ok(DecodeI32(buffer[old(pos)..old(pos) + 4])) && pos == old(pos) + 4
      ensures |buffer| < old(pos) + 4 ==> r == Err(UnexpectedEof) && pos == |buffer|
    {
      if |buffer| - pos < 4 {
        pos := |buffer|;
        return Err(UnexpectedEof);
      }
      r := Ok(DecodeI32(buffer[pos..pos + 4]));
      pos := pos + 4;
    }

    /** `read_to_end`: every byte not read yet, in order; the position moves to the end. */
    method ReadToEnd() returns (rest: seq<Byte>)
      requires Valid()
      modifies this`pos
      ensures Valid()
      ensures rest == old(Remaining()) && pos == |buffer|
    {
      rest := buffer[pos..];
      pos := |buffer|;
    }
  }
}
