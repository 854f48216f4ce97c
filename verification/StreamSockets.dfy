/** The stream socket object, and two of them joined by two wires. */
module StreamSockets {
  import opened Bytes
  import opened Streams
  import opened Sockets
  import opened TransmitBuffers
  import opened Framing
  import opened StreamSocketCore
  import Links

  class StreamSocket {
    const socket: Socket
    const receiveState: ReceiveState
    const sendState: SendState

    ghost predicate Valid()
      reads sendState
    {
      sendState.Valid() && socket.incoming != socket.outgoing
    }

    constructor (socket: Socket)
      requires socket.incoming != socket.outgoing
      ensures Valid() && this.socket == socket
      ensures fresh(receiveState) && fresh(receiveState.receiveBuffer) && fresh(sendState)
      ensures receiveState.receiveBuffer.bytes == [] && sendState.outBuffers == [] && sendState.offset == 0
    {
      this.socket := socket;
      receiveState := new ReceiveState();
      sendState := new SendState();
    }

    method Enqueue(data: seq<uint8>)
      requires Valid()
      modifies sendState
      ensures Valid() && sendState.offset == old(sendState.offset)
      ensures Raw(sendState.outBuffers) == old(Raw(sendState.outBuffers)) + [data]
    {
      StreamSocketCore.Enqueue(sendState, data);
    }

    /** Receives if asked to and then flushes if asked to; a receive that reports a failure ends the tick. A tick
        asked to do neither does nothing, and its result is any value, as nothing sets it. */
    method Tick(readable: bool, writable: bool, script: seq<RecvOutcome>, outcome: SendOutcome)
      returns (newData: nat, result: RequestResult)
      requires Valid()
      modifies socket, socket.incoming, socket.outgoing, receiveState.receiveBuffer, sendState
      ensures Valid()
      ensures var decisions := if readable then script else [];
              var r := Receive([], old(socket.incoming.bytes), decisions, GROUP_BYTE_LIMIT, GROUP_BYTE_LIMIT);
              && receiveState.receiveBuffer.bytes == old(receiveState.receiveBuffer.bytes) + r.appended
              && socket.incoming.bytes == r.wire && newData == |r.appended|
              && (r.result != Ok || !writable ==>
                    && (readable ==> result == r.result) && socket.outgoing.bytes == old(socket.outgoing.bytes)
                    && sendState.outBuffers == old(sendState.outBuffers) && sendState.offset == old(sendState.offset))
              && (r.result == Ok && writable ==>
                    var f := Flush(old(Raw(sendState.outBuffers)), old(sendState.offset), outcome);
                    && result == f.result && socket.outgoing.bytes == old(socket.outgoing.bytes) + f.written
                    && Raw(sendState.outBuffers) == f.queue && sendState.offset == f.offset)
      ensures var last := LastDecision([], old(socket.incoming.bytes), script, GROUP_BYTE_LIMIT, GROUP_BYTE_LIMIT);
              && (readable && last == PeerClosed ==> result == GracefulClose)
              && (readable && last == RecvFailed ==> result == Error)
              && (readable && (last == PeerClosed || last == RecvFailed) ==>
                    socket.outgoing.bytes == old(socket.outgoing.bytes)
                    && sendState.outBuffers == old(sendState.outBuffers) && sendState.offset == old(sendState.offset))
              && (!(readable && (last == PeerClosed || last == RecvFailed)) && (readable || writable) ==>
                    (result == Ok <==> writable ==> FlushIsOk(old(Raw(sendState.outBuffers)), outcome)))
    {
      newData := 0;
      result := *;
      if readable {
        newData, result := ReceiveInto(socket, receiveState, script, GROUP_BYTE_LIMIT);
        if result != Ok {
          return;
        }
      }
      if writable {
        var _, flushed := FlushOutBuffer(socket, sendState, outcome);
        result := flushed;
      }
    }
  }

  // ---------------------------------------------------------------------------------------------
  // A connection and its runs
  // ---------------------------------------------------------------------------------------------

  /** Two stream sockets, each sending on the wire that the other receives from. */
  class Connection {
    const a: StreamSocket
    const b: StreamSocket
    const toB: Wire
    const toA: Wire
    var packetsAtA: seq<seq<uint8>>
    var packetsAtB: seq<seq<uint8>>

    ghost predicate Wired() {
      && a.socket != b.socket && toA != toB
      && a.socket.outgoing == toB && b.socket.incoming == toB
      && b.socket.outgoing == toA && a.socket.incoming == toA
      && a.sendState != b.sendState
      && a.receiveState.receiveBuffer != b.receiveState.receiveBuffer
    }

    ghost predicate Valid()
      reads a.sendState, b.sendState
    {
      Wired() && a.Valid() && b.Valid()
    }

    /** The connection is in the state that the run of events reaches. */
    ghost predicate Shows(link: Links.Link)
      requires Wired()
      reads this, a.sendState, b.sendState, a.receiveState.receiveBuffer, b.receiveState.receiveBuffer, toA, toB
    {
      && ShowsLane(link.ab, a.sendState, toB, b.receiveState.receiveBuffer, packetsAtB)
      && ShowsLane(link.ba, b.sendState, toA, a.receiveState.receiveBuffer, packetsAtA)
    }

    static ghost predicate ShowsLane(l: Links.Lane, from: SendState, wire: Wire, inbox: ByteStream,
                                     packets: seq<seq<uint8>>)
      reads from, wire, inbox
    {
      && Raw(from.outBuffers) == l.queue && from.offset == l.offset
      && wire.bytes == l.wire && inbox.bytes == l.inbox && packets == l.delivered
    }

    constructor ()
      ensures Valid() && Shows(Links.Link(Links.EMPTY, Links.EMPTY))
      ensures fresh(a) && fresh(b) && fresh(toA) && fresh(toB) && fresh(a.socket) && fresh(b.socket)
      ensures fresh(a.sendState) && fresh(b.sendState)
      ensures fresh(a.receiveState.receiveBuffer) && fresh(b.receiveState.receiveBuffer)
    {
      var wireToB := new Wire();
      var wireToA := new Wire();
      var socketA := new Socket(wireToB, wireToA);
      var socketB := new Socket(wireToA, wireToB);
      a := new StreamSocket(socketA);
      b := new StreamSocket(socketB);
      toA, toB := wireToA, wireToB;
      packetsAtA, packetsAtB := [], [];
    }

    /** One event, carried out on the objects, is one step of the run. */
    method Perform(e: Links.Event, ghost link: Links.Link)
      requires Valid() && link.Ok() && Shows(link)
      modifies this, a.socket, b.socket, toA, toB, a.sendState, b.sendState
      modifies a.receiveState.receiveBuffer, b.receiveState.receiveBuffer
      ensures Valid() && Links.Step(link, e).Ok() && Shows(Links.Step(link, e))
    {
      match e
      case Enqueue(side, data) =>
        Put(side, data, link);
      case Send(side, packet) =>
        var stream := new ByteStream();
        SerializeInto(packet, stream);
        assert stream.bytes == Frame(packet);
        Put(side, stream.bytes, link);
      case Tick(_, _, _, _, _) =>
        TickSide(e, link);
      case Deliver(side) =>
        DeliverAt(side, link);
    }

    method TickSide(e: Links.Event, ghost link: Links.Link)
      requires Valid() && link.Ok() && Shows(link) && e.Tick?
      modifies a.socket, b.socket, toA, toB, a.sendState, b.sendState
      modifies a.receiveState.receiveBuffer, b.receiveState.receiveBuffer
      ensures Valid() && Links.TickLink(link, e).Ok() && Shows(Links.TickLink(link, e))
    {
      if e.side == Links.A {
        var _, _ := a.Tick(e.readable, e.writable, e.script, e.outcome);
      } else {
        var _, _ := b.Tick(e.readable, e.writable, e.script, e.outcome);
      }
    }

    method DeliverAt(side: Links.Side, ghost link: Links.Link)
      requires Valid() && link.Ok() && Shows(link)
      modifies this, a.receiveState.receiveBuffer, b.receiveState.receiveBuffer
      ensures Valid() && Shows(link.WithIn(side, link.In(side).Deliver()))
    {
      if side == Links.A {
        var packets := DeserializeAll(a.receiveState.receiveBuffer);
        packetsAtA := packetsAtA + packets;
      } else {
        var packets := DeserializeAll(b.receiveState.receiveBuffer);
        packetsAtB := packetsAtB + packets;
      }
    }

    method Put(side: Links.Side, data: seq<uint8>, ghost link: Links.Link)
      requires Valid() && link.Ok() && Shows(link)
      modifies a.sendState, b.sendState
      ensures Valid() && Shows(link.WithOut(side, link.Out(side).Enqueue(data)))
    {
      if side == Links.A {
        a.Enqueue(data);
      } else {
        b.Enqueue(data);
      }
    }
  }

  /** Carrying out a run on a fresh connection delivers the packets that the run delivers. */
  method Converse(events: seq<Links.Event>) returns (packetsAtA: seq<seq<uint8>>, packetsAtB: seq<seq<uint8>>)
    ensures packetsAtA == Links.Run(events).ba.delivered && packetsAtB == Links.Run(events).ab.delivered
  {
    var c := new Connection();
    for i := 0 to |events|
      invariant fresh(c) && fresh(c.a.socket) && fresh(c.b.socket) && fresh(c.toA) && fresh(c.toB)
      invariant fresh(c.a.sendState) && fresh(c.b.sendState)
      invariant fresh(c.a.receiveState.receiveBuffer) && fresh(c.b.receiveState.receiveBuffer)
      invariant c.Valid() && c.Shows(Links.Run(events[..i]))
    {
      assert events[..i + 1][..i] == events[..i];
      c.Perform(events[i], Links.Run(events[..i]));
    }
    assert events[..|events|] == events;
    return c.packetsAtA, c.packetsAtB;
  }
}
