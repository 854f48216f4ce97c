/** A stream socket over two first-in-first-out wires. Which bytes move, and when, is the operating system's
    decision and is given with each call. */
module Sockets {
  import opened Bytes
  import opened Basics
  import opened Streams

  class Wire {
    var bytes: seq<uint8>

    constructor ()
      ensures bytes == []
    {
      bytes := [];
    }
  }

  class Socket {
    const outgoing: Wire
    const incoming: Wire
    var wouldBlock: bool  // whether the last failed call failed only because it would have blocked

    constructor (outgoing: Wire, incoming: Wire)
      ensures this.outgoing == outgoing && this.incoming == incoming
    {
      this.outgoing, this.incoming, wouldBlock := outgoing, incoming, false;
    }

    /** A vectored write. A negative answer is a failure; a call without any vector is one. */
    method Sendv(views: seq<seq<uint8>>, outcome: SendOutcome) returns (r: int)
      modifies this, outgoing
      ensures views == [] || !outcome.Accepted? ==>
                r == -1 && wouldBlock == outcome.SendWouldBlock? && outgoing.bytes == old(outgoing.bytes)
      ensures views != [] && outcome.Accepted? ==>
                && r == Min(outcome.n, |Concat(views)|)
                && outgoing.bytes == old(outgoing.bytes) + Concat(views)[..r]
    {
      if views == [] || !outcome.Accepted? {
        wouldBlock := outcome.SendWouldBlock?;
        return -1;
      }
      var m := Min(outcome.n, |Concat(views)|);
      outgoing.bytes := outgoing.bytes + Concat(views)[..m];
      r := m;
    }

    /** A read into a buffer of `room` bytes. Zero means that the peer has closed. */
    method Recv(room: nat, outcome: RecvOutcome) returns (r: int, chunk: seq<uint8>)
      modifies this, incoming
      ensures chunk == Arrived(old(incoming.bytes), outcome, room)
      ensures outcome.Chunk? ==> |chunk| == Min(outcome.n, Min(room, old(|incoming.bytes|)))
      ensures incoming.bytes == old(incoming.bytes)[|chunk|..]
      ensures chunk != [] ==> r == |chunk|
      ensures chunk == [] && outcome.PeerClosed? ==> r == 0
      ensures chunk == [] && !outcome.PeerClosed? ==> r == -1 && wouldBlock == !outcome.RecvFailed?
    {
      chunk := Arrived(incoming.bytes, outcome, room);
      incoming.bytes := incoming.bytes[|chunk|..];
      if chunk != [] {
        r := |chunk|;
      } else if outcome.PeerClosed? {
        r := 0;
      } else {
        wouldBlock := !outcome.RecvFailed?;
        r := -1;
      }
    }
  }
}
