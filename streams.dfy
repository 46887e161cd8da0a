/**
 * The byte streams the codecs read and write. A `Reader` is an input stream
 * with a cursor, read the way `io.ReadFull` reads it; a `Writer` is an output
 * sink that only appends. Files, buffering and `Flush` are not modelled.
 */
module Streams {
  import opened Machine

  class Reader {
    /** Every byte of the stream. */
    const data: seq<byte>
    /** How many bytes have been consumed. */
    var pos: nat

    ghost predicate Valid()
      reads this
    {
      pos <= |data|
    }

    /** The bytes not yet consumed. */
    ghost function Remaining(): seq<byte>
      reads this
      requires Valid()
    {
      data[pos..]
    }

    constructor (s: seq<byte>)
      ensures Valid() && data == s && pos == 0
    {
      data := s;
      pos := 0;
    }

    /**
     * `io.ReadFull(r, b)` with `len(b) == n`: either the next `n` bytes, or,
     * when fewer remain, an error after consuming all of them.
     */
    method ReadFull(n: nat) returns (b: seq<byte>, ok: bool)
      requires Valid()
      modifies this
      ensures Valid()
      ensures ok <==> n <= |old(Remaining())|
      ensures ok ==> b == old(Remaining())[..n] && pos == old(pos) + n
      ensures !ok ==> pos == |data|
    {
      if pos + n <= |data| {
        b, ok := data[pos..pos + n], true;
        pos := pos + n;
      } else {
        b, ok := data[pos..], false;
        pos := |data|;
      }
    }
  }

  class Writer {
    /** Everything written so far. */
    var written: seq<byte>

    constructor ()
      ensures written == []
    {
      written := [];
    }

    /** `w.Write(b)`, which is taken never to fail. */
    method Write(b: seq<byte>)
      modifies this
      ensures written == old(written) + b
    {
      written := written + b;
    }
  }
}
