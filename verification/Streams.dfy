/** The byte streams of nanopb over plain buffers (pb_ostream_t, pb_istream_t). */
module Streams {
  type Bytes = seq<bv8>

  /** An output stream over the first `maxSize` bytes of a buffer. */
  class OStream {
    const buf: array<bv8>
    const maxSize: nat
    var bytesWritten: nat

    ghost predicate Valid()
      reads this
    {
      bytesWritten <= maxSize <= buf.Length
    }

    function Output(): (s: Bytes)
      requires Valid()
      reads this, buf
    {
      buf[..bytesWritten]
    }

    constructor (buf: array<bv8>, maxSize: nat)
      requires maxSize <= buf.Length
      ensures Valid() && this.buf == buf && this.maxSize == maxSize && Output() == []
    {
      this.buf := buf;
      this.maxSize := maxSize;
      this.bytesWritten := 0;
    }

    /** pb_write: all the bytes, or none of them when they do not fit. */
    method Write(bytes: Bytes) returns (ok: bool)
      requires Valid()
      modifies this, buf
      ensures Valid()
      ensures ok == (old(bytesWritten) + |bytes| <= maxSize)
      ensures Output() == if ok then old(Output()) + bytes else old(Output())
    {
      if |bytes| > 0 && bytesWritten + |bytes| > maxSize {
        return false;
      }
      var i := 0;
      while i < |bytes|
        invariant 0 <= i <= |bytes| && bytesWritten == old(bytesWritten)
        invariant buf[..bytesWritten + i] == old(Output()) + bytes[..i]
      {
        buf[bytesWritten + i] := bytes[i];
        i := i + 1;
      }
      bytesWritten := bytesWritten + |bytes|;
      return true;
    }
  }

  /** An input stream over a buffer that does not change. */
  class IStream {
    const data: Bytes
    var pos: nat

    ghost predicate Valid()
      reads this
    {
      pos <= |data|
    }

    function BytesLeft(): nat
      requires Valid()
      reads this
    {
      |data| - pos
    }

    function Rest(): (s: Bytes)
      requires Valid()
      reads this
      ensures |s| == BytesLeft()
    {
      data[pos..]
    }

    constructor (data: Bytes)
      ensures Valid() && Rest() == data && fresh(this)
    {
      this.data := data;
      this.pos := 0;
    }

    /** pb_readbyte. */
    method ReadByte() returns (ok: bool, b: bv8)
      requires Valid()
      modifies this
      ensures Valid()
      ensures ok == (old(Rest()) != [])
      ensures if ok then [b] + Rest() == old(Rest()) else Rest() == old(Rest())
    {
      if pos == |data| {
        return false, 0;
      }
      b := data[pos];
      pos := pos + 1;
      return true, b;
    }

    /** pb_read: the next `count` bytes, or a failure when fewer are left. */
    method Read(count: nat) returns (ok: bool, bytes: Bytes)
      requires Valid()
      modifies this
      ensures Valid()
      ensures ok == (count <= |old(Rest())|)
      ensures if ok then |bytes| == count && bytes + Rest() == old(Rest()) else Rest() == old(Rest())
    {
      if count > BytesLeft() {
        return false, [];
      }
      bytes := data[pos..pos + count];
      pos := pos + count;
      return true, bytes;
    }
  }
}
