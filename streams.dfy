/**
 * The two stream endpoints the codec talks to, reduced to their byte contents:
 * a `DataOutputStream` as the bytes written so far, a `DataInputStream` as the bytes not yet read.
 */
module Streams {
  import opened JavaArith
  import opened BigIntBytes

  /** An output stream that collects what is written to it. */
  class OutputSink {
    var written: seq<Byte>

    constructor ()
      ensures written == []
    {
      written := [];
    }

    /** `write(b, off, len)`: appends b[off..off+len]. */
    method Write(data: seq<Byte>, off: int, len: int)
      requires 0 <= off && 0 <= len && off + len <= |data|
      modifies this
      ensures written == old(written) + data[off..off + len]
    {
      written := written + data[off..off + len];
    }

    /** `write(b)`: appends all of b. */
    method WriteAll(data: seq<Byte>)
      modifies this
      ensures written == old(written) + data
    {
      Write(data, 0, |data|);
      assert data[0..|data|] == data;
    }
  }

  /** An input stream over a fixed sequence of bytes. */
  class InputSource {
    var remaining: seq<Byte>

    constructor (bytes: seq<Byte>)
      ensures remaining == bytes
    {
      remaining := bytes;
    }

    /**
     * `read(buf, off, len)`: copies the next min(len, available) bytes into buf[off..] and
     * returns how many it copied, or -1 at the end of the stream. The rest of buf is untouched.
     */
    method Read(buf: array<Byte>, off: int, len: int) returns (n: int)
      requires 0 <= off && 0 <= len && off + len <= buf.Length
      modifies this, buf
      ensures var k := Min(len, |old(remaining)|);
        && remaining == old(remaining)[k..]
        && buf[..] == old(buf[..off]) + old(remaining)[..k] + old(buf[off + k..])
        && n == (if len == 0 then 0 else if k == 0 then -1 else k)
    {
      var k := Min(len, |remaining|);
      var i := 0;
      while i < k
        invariant 0 <= i <= k
        invariant remaining == old(remaining)
        invariant forall j :: 0 <= j < buf.Length ==>
          buf[j] == (if off <= j < off + i then remaining[j - off] else old(buf[j]))
      {
        buf[off + i] := remaining[i];
        i := i + 1;
      }
      ghost var was := old(buf[..]);
      assert buf[..] == was[..off] + remaining[..k] + was[off + k..];
      remaining := remaining[k..];
      n := if len == 0 then 0 else if k == 0 then -1 else k;
    }
  }
}
