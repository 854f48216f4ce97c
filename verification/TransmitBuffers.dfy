/** A buffer waiting to be sent, always looked at from some offset. */
module TransmitBuffers {
  import opened Bytes

  datatype TransmitBuffer = TransmitBuffer(bytes: seq<uint8>) {
    function Size(offset: nat): nat
      requires offset <= |bytes|
    {
      |bytes| - offset
    }

    /** The vector handed to the operating system. */
    function ToIovec(offset: nat): seq<uint8>
      requires offset <= |bytes|
    {
      bytes[offset..]
    }

    /** Moves the offset by up to `n` bytes and returns how many did not fit in this buffer. Moved and left
        over make up `n`, and something is left over only at the end of the buffer. */
    method Consume(n: nat, offset: nat) returns (left: nat, newOffset: nat)
      requires offset <= |bytes|
      ensures offset <= newOffset <= |bytes| && newOffset - offset + left == n
      ensures left > 0 ==> newOffset == |bytes|
    {
      var available := Size(offset);
      if n <= available {
        return 0, offset + n;
      } else {
        return n - available, offset + available;
      }
    }
  }

  function Raw(buffers: seq<TransmitBuffer>): (s: seq<seq<uint8>>)
    ensures |s| == |buffers|
  {
    seq(|buffers|, i requires 0 <= i < |buffers| => buffers[i].bytes)
  }
}
