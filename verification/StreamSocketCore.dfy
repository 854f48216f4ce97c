/** The two halves of a stream socket: the queue of outgoing buffers and the buffer of received bytes. */
module StreamSocketCore {
  import opened Bytes
  import opened Basics
  import opened Streams
  import opened Sockets
  import opened TransmitBuffers
  import opened Framing

  class ReceiveState {
    const receiveBuffer: ByteStream

    constructor ()
      ensures fresh(receiveBuffer) && receiveBuffer.bytes == []
    {
      receiveBuffer := new ByteStream();
    }
  }

  class SendState {
    var outBuffers: seq<TransmitBuffer>
    var offset: nat

    constructor ()
      ensures outBuffers == [] && offset == 0
    {
      outBuffers, offset := [], 0;
    }

    ghost predicate Valid()
      reads this
    {
      QueueOk(Raw(outBuffers), offset)
    }
  }

  method Enqueue(state: SendState, data: seq<uint8>)
    requires state.Valid()
    modifies state
    ensures state.Valid() && state.offset == old(state.offset)
    ensures Raw(state.outBuffers) == old(Raw(state.outBuffers)) + [data]
  {
    state.outBuffers := state.outBuffers + [TransmitBuffer(data)];
    assert Raw(state.outBuffers) == old(Raw(state.outBuffers)) + [data];
  }

  /** The state just after a read from `wire` under the given decision. */
  ghost predicate CallEnded(socket: Socket, wire: seq<uint8>, outcome: RecvOutcome, bytes: int, chunk: seq<uint8>)
    reads socket, socket.incoming
  {
    && chunk == Arrived(wire, outcome, GROUP_BYTE_LIMIT) && socket.incoming.bytes == wire[|chunk|..]
    && (chunk != [] ==> bytes == |chunk|)
    && (chunk == [] && outcome.PeerClosed? ==> bytes == 0)
    && (chunk == [] && !outcome.PeerClosed? ==> bytes == -1 && socket.wouldBlock == !outcome.RecvFailed?)
  }

  method AppendChunk(state: ReceiveState, ghost appended: seq<uint8>, chunk: seq<uint8>, ghost start: seq<uint8>)
    requires state.receiveBuffer.bytes == start + appended
    modifies state.receiveBuffer
    ensures state.receiveBuffer.bytes == start + (appended + chunk)
  {
    state.receiveBuffer.bytes := state.receiveBuffer.bytes + chunk;
    assert (start + appended) + chunk == start + (appended + chunk);
  }

  /** Reads into the receive buffer until a read hands over nothing or the byte limit was reached; `script`
      holds the system's decisions for the calls. */
  method ReceiveInto(socket: Socket, state: ReceiveState, script: seq<RecvOutcome>, byteLimit: nat)
    returns (bytesReceived: nat, result: RequestResult)
    modifies socket, socket.incoming, state.receiveBuffer
    ensures var r := Receive([], old(socket.incoming.bytes), script, byteLimit, GROUP_BYTE_LIMIT);
            && state.receiveBuffer.bytes == old(state.receiveBuffer.bytes) + r.appended
            && socket.incoming.bytes == r.wire
            && bytesReceived == |r.appended| && result == r.result
    ensures var last := LastDecision([], old(socket.incoming.bytes), script, byteLimit, GROUP_BYTE_LIMIT);
            (result == GracefulClose <==> last == PeerClosed) && (result == Error <==> last == RecvFailed)
  {
    ReceiveReports([], socket.incoming.bytes, script, byteLimit, GROUP_BYTE_LIMIT);
    ghost var appended, wire, outcome;
    var bytes;
    bytesReceived, bytes, appended, wire, outcome := ReceiveLoop(socket, state, script, byteLimit);
    result := Ok;
    if bytes < 0 {
      if socket.wouldBlock {
        return;
      }
      result := Error;
    }
    if bytes == 0 {
      result := GracefulClose;
    }
  }

  /** The loop of a receive. Besides the count and the last read's answer it yields, for reasoning only, the
      bytes appended, the wire before the last read and the decision about that read. */
  method ReceiveLoop(socket: Socket, state: ReceiveState, script: seq<RecvOutcome>, byteLimit: nat)
    returns (bytesReceived: nat, bytes: int, ghost appended: seq<uint8>, ghost wire: seq<uint8>,
             ghost outcome: RecvOutcome)
    modifies socket, socket.incoming, state.receiveBuffer
    ensures bytesReceived == |appended| && state.receiveBuffer.bytes == old(state.receiveBuffer.bytes) + appended
    ensures var chunk := Arrived(wire, outcome, GROUP_BYTE_LIMIT);
            && CallEnded(socket, wire, outcome, bytes, chunk)
            && Receive([], old(socket.incoming.bytes), script, byteLimit, GROUP_BYTE_LIMIT)
               == Received(appended, chunk, wire[|chunk|..], EndResult(chunk, outcome))
  {
    appended, wire := [], socket.incoming.bytes;
    bytesReceived := 0;
    var left, chunk := script, [];
    bytes, chunk := socket.Recv(GROUP_BYTE_LIMIT, Next(left));
    while bytes > 0 && bytesReceived < byteLimit
      invariant bytesReceived == |appended|
      invariant state.receiveBuffer.bytes == old(state.receiveBuffer.bytes) + appended
      invariant CallEnded(socket, wire, Next(left), bytes, chunk)
      invariant Receive(appended, wire, left, byteLimit, GROUP_BYTE_LIMIT)
             == Receive([], old(socket.incoming.bytes), script, byteLimit, GROUP_BYTE_LIMIT)
      decreases |left|
    {
      bytesReceived := bytesReceived + |chunk|;
      AppendChunk(state, appended, chunk, old(state.receiveBuffer.bytes));
      appended, wire, left := appended + chunk, socket.incoming.bytes, left[1..];
      bytes, chunk := socket.Recv(GROUP_BYTE_LIMIT, Next(left));
    }
    outcome := Next(left);
  }

  /** Hands the whole queue to one vectored write and takes what was written off its front. */
  method FlushOutBuffer(socket: Socket, state: SendState, outcome: SendOutcome)
    returns (buffersSent: nat, result: RequestResult)
    requires state.Valid()
    modifies socket, socket.outgoing, state
    ensures var f := Flush(old(Raw(state.outBuffers)), old(state.offset), outcome);
            && state.Valid() && Raw(state.outBuffers) == f.queue && state.offset == f.offset
            && socket.outgoing.bytes == old(socket.outgoing.bytes) + f.written
            && buffersSent == f.popped && result == f.result
    ensures result == Ok <==> FlushIsOk(old(Raw(state.outBuffers)), outcome)
    ensures result == Error <==> old(Raw(state.outBuffers)) != [] && outcome.SendFailed?
    ensures outcome.SendWouldBlock? ==>
              && buffersSent == 0 && socket.outgoing.bytes == old(socket.outgoing.bytes)
              && Raw(state.outBuffers) == old(Raw(state.outBuffers)) && state.offset == old(state.offset)
  {
    ghost var queue, start := Raw(state.outBuffers), state.offset;
    FlushConserves(queue, start, outcome);
    FlushReports(queue, start, outcome);
    if state.outBuffers == [] {
      return 0, Ok;
    }
    var ioVecs := GatherIovecs(state);
    var bytes := socket.Sendv(ioVecs, outcome);
    if bytes < 0 {
      if socket.wouldBlock {
        return 0, Ok;
      }
      state.outBuffers := [];
      state.offset := 0;
      return 0, Error;
    }
    result := Ok;
    if bytes == 0 {
      state.outBuffers := [];
      state.offset := 0;
      result := GracefulClose;
    }
    buffersSent := PopWritten(state, bytes);
  }

  method GatherIovecs(state: SendState) returns (ioVecs: seq<seq<uint8>>)
    requires state.Valid() && state.outBuffers != []
    ensures ioVecs != [] && Concat(ioVecs) == Pending(Raw(state.outBuffers), state.offset)
  {
    ghost var queue := Raw(state.outBuffers);
    ioVecs := [state.outBuffers[0].ToIovec(state.offset)];
    for i := 1 to |state.outBuffers|
      invariant ioVecs == [queue[0][state.offset..]] + queue[1..i]
    {
      ioVecs := ioVecs + [state.outBuffers[i].ToIovec(0)];
      assert queue[1..i + 1] == queue[1..i] + [queue[i]];
    }
    assert ioVecs[1..] == queue[1..];
    assert Concat(ioVecs) == queue[0][state.offset..] + Concat(queue[1..]);
  }

  /** The accounting loop of a flush; its measure is the queue length and then the bytes left to account for. */
  method PopWritten(state: SendState, bytes: nat) returns (buffersSent: nat)
    requires state.Valid()
    modifies state
    ensures var p := Advance(old(Raw(state.outBuffers)), old(state.offset), bytes);
            Raw(state.outBuffers) == p.queue && state.offset == p.offset && buffersSent == p.popped
  {
    var remaining := bytes;
    buffersSent := 0;
    while remaining > 0 && state.outBuffers != []
      invariant remaining >= 0 && state.Valid()
      invariant var rest := Advance(Raw(state.outBuffers), state.offset, remaining);
                Progress(rest.queue, rest.offset, buffersSent + rest.popped)
                == Advance(old(Raw(state.outBuffers)), old(state.offset), bytes)
      decreases |state.outBuffers|, remaining
    {
      ghost var queue := Raw(state.outBuffers);
      var buf := state.outBuffers[0];
      var available := buf.Size(state.offset);
      var consumed := Min(available, remaining);
      state.offset := state.offset + consumed;
      remaining := remaining - consumed;
      if state.offset >= buf.Size(0) {
        state.outBuffers := state.outBuffers[1..];
        state.offset := 0;
        buffersSent := buffersSent + 1;
        assert Raw(state.outBuffers) == queue[1..];
      }
    }
  }
}
