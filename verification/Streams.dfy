/** Sending and receiving on a byte stream, as functions of the queue, the wire and the operating system's
    decisions. */
module Streams {
  import opened Basics
  import opened Bytes

  /** The default byte limit of a receive, which is also the size of its read buffer. */
  const GROUP_BYTE_LIMIT: nat := 1024 * 16

  /** What an operation reports to its caller. */
  datatype RequestResult = Ok | GracefulClose | Error

  /** What the operating system decides about one vectored write: how many bytes it would take (it cannot take
      more than it is offered), or no bytes now, or failure. */
  datatype SendOutcome = Accepted(n: nat) | SendWouldBlock | SendFailed

  /** What the operating system decides about one read: how many bytes it would hand over (bounded by the
      caller's buffer and by what has arrived; none means that the read would block), or an end of some kind. */
  datatype RecvOutcome = Chunk(n: nat) | RecvWouldBlock | RecvFailed | PeerClosed

  // ---------------------------------------------------------------------------------------------
  // The queue of buffers and the offset into its head
  // ---------------------------------------------------------------------------------------------

  /** The offset is zero, or strictly inside the head buffer. */
  predicate QueueOk(queue: seq<seq<uint8>>, offset: nat) {
    offset == 0 || (queue != [] && offset < |queue[0]|)
  }

  /** The bytes still to be sent. */
  function Pending(queue: seq<seq<uint8>>, offset: nat): seq<uint8>
    requires QueueOk(queue, offset)
  {
    Concat(queue)[offset..]
  }

  datatype Progress = Progress(queue: seq<seq<uint8>>, offset: nat, popped: nat)

  /** Accounting for `n` written bytes: whole buffers leave the queue, the rest moves the offset. */
  function Advance(queue: seq<seq<uint8>>, offset: nat, n: nat): Progress
    requires QueueOk(queue, offset)
    decreases |queue|
  {
    if n == 0 || queue == [] then Progress(queue, offset, 0)
    else
      var consumed := Min(|queue[0]| - offset, n);
      if offset + consumed >= |queue[0]| then
        var p := Advance(queue[1..], 0, n - consumed);
        p.(popped := p.popped + 1)
      else Progress(queue, offset + consumed, 0)
  }

  /** Exactly the first `n` pending bytes are dropped, and the buffers popped are those in front. */
  lemma {:induction false} AdvanceDrops(queue: seq<seq<uint8>>, offset: nat, n: nat)
    requires QueueOk(queue, offset) && n <= |Pending(queue, offset)|
    ensures var p := Advance(queue, offset, n);
            && QueueOk(p.queue, p.offset) && Pending(p.queue, p.offset) == Pending(queue, offset)[n..]
            && p.popped <= |queue| && p.queue == queue[p.popped..]
    decreases |queue|
  {
    if n > 0 && queue != [] {
      var consumed := Min(|queue[0]| - offset, n);
      PendingOfTail(queue, offset);
      if offset + consumed >= |queue[0]| {
        AdvanceDrops(queue[1..], 0, n - consumed);
        DropTwice(Pending(queue, offset), consumed, n);
      } else {
        DropTwice(Concat(queue), offset, offset + n);
      }
    }
  }

  lemma PendingOfTail(queue: seq<seq<uint8>>, offset: nat)
    requires QueueOk(queue, offset) && queue != []
    ensures |Pending(queue, offset)| >= |queue[0]| - offset
    ensures Pending(queue, offset)[|queue[0]| - offset..] == Pending(queue[1..], 0)
  {
  }

  lemma DropTwice(s: seq<uint8>, m: nat, n: nat)
    requires m <= n <= |s|
    ensures s[m..][n - m..] == s[n..]
  {
  }

  // ---------------------------------------------------------------------------------------------
  // One flush
  // ---------------------------------------------------------------------------------------------

  datatype Flushed = Flushed(queue: seq<seq<uint8>>, offset: nat, written: seq<uint8>, popped: nat,
                             result: RequestResult)

  /** One flush of the queue under the given decision. An error or a write of nothing throws the queue away. */
  function Flush(queue: seq<seq<uint8>>, offset: nat, outcome: SendOutcome): Flushed
    requires QueueOk(queue, offset)
  {
    if queue == [] then Flushed(queue, offset, [], 0, Ok)
    else
      match outcome
      case SendWouldBlock => Flushed(queue, offset, [], 0, Ok)
      case SendFailed => Flushed([], 0, [], 0, Error)
      case Accepted(n) =>
        var m := Min(n, |Pending(queue, offset)|);
        if m == 0 then Flushed([], 0, [], 0, GracefulClose)
        else
          var p := Advance(queue, offset, m);
          Flushed(p.queue, p.offset, Pending(queue, offset)[..m], p.popped, Ok)
  }

  /** Unless the flush reports a failure, what was written and what is pending afterwards are what was pending
      before; a reported failure leaves nothing pending and has written nothing. */
  lemma FlushConserves(queue: seq<seq<uint8>>, offset: nat, outcome: SendOutcome)
    requires QueueOk(queue, offset)
    ensures var f := Flush(queue, offset, outcome);
            && QueueOk(f.queue, f.offset)
            && (f.result == Ok ==> f.written + Pending(f.queue, f.offset) == Pending(queue, offset))
            && (f.result != Ok ==> f.written == [] && f.queue == [] && f.offset == 0)
            && f.popped <= |queue| && (f.result == Ok ==> f.queue == queue[f.popped..])
  {
    if outcome.Accepted? && queue != [] {
      var all := Pending(queue, offset);
      var m := Min(outcome.n, |all|);
      AdvanceDrops(queue, offset, m);
      assert all == all[..m] + all[m..];
    }
  }

  /** Nothing is pending exactly when every queued buffer is empty. */
  lemma {:induction false} NothingPendingIff(queue: seq<seq<uint8>>, offset: nat)
    requires QueueOk(queue, offset)
    ensures Pending(queue, offset) == [] <==> forall b :: b in queue ==> b == []
    decreases |queue|
  {
    if queue != [] {
      NothingPendingIff(queue[1..], 0);
      assert queue == [queue[0]] + queue[1..];
      AllEmptyIff(queue);
      assert |Pending(queue, offset)| == |queue[0]| - offset + |Pending(queue[1..], 0)|;
    }
  }

  lemma AllEmptyIff(queue: seq<seq<uint8>>)
    requires queue != []
    ensures (forall b :: b in queue ==> b == []) <==> |queue[0]| == 0 && forall b :: b in queue[1..] ==> b == []
  {
    assert queue[0] in queue;
    assert forall b :: b in queue[1..] ==> b in queue;
    assert forall b :: b in queue ==> b == queue[0] || b in queue[1..];
  }

  /** A flush of queued buffers that the system does not refuse closes the connection whatever the system would
      take exactly when all the buffers are empty; otherwise it closes only if the system takes nothing. */
  lemma FlushClosesIff(queue: seq<seq<uint8>>, offset: nat)
    requires QueueOk(queue, offset) && queue != []
    ensures (forall n: nat :: Flush(queue, offset, Accepted(n)).result == GracefulClose)
       <==> forall b :: b in queue ==> b == []
    ensures forall n: nat :: Flush(queue, offset, Accepted(n)).result == GracefulClose
                        <==> n == 0 || forall b :: b in queue ==> b == []
  {
    NothingPendingIff(queue, offset);
    assert Flush(queue, offset, Accepted(1)).result == GracefulClose <==> Pending(queue, offset) == [];
  }

  /** The system's decision lets a flush report that all is well: there is nothing queued, or the write would
      block, or it takes something of what there is. */
  ghost predicate FlushIsOk(queue: seq<seq<uint8>>, outcome: SendOutcome) {
    || queue == [] || outcome.SendWouldBlock?
    || (outcome.Accepted? && outcome.n > 0 && exists b :: b in queue && b != [])
  }

  /** What a flush reports in every case, and how much it writes. Nothing at all happens when there is nothing
      queued or the write would block. */
  lemma FlushReports(queue: seq<seq<uint8>>, offset: nat, outcome: SendOutcome)
    requires QueueOk(queue, offset)
    ensures var f := Flush(queue, offset, outcome);
            && (f.result == Ok <==> FlushIsOk(queue, outcome))
            && (f.result == Error <==> queue != [] && outcome.SendFailed?)
            && (f.result == GracefulClose <==>
                  queue != [] && outcome.Accepted? && (outcome.n == 0 || forall b :: b in queue ==> b == []))
            && (queue == [] || outcome.SendWouldBlock? ==> f == Flushed(queue, offset, [], 0, Ok))
            && (f.result != Ok ==> f == Flushed([], 0, [], 0, f.result))
            && (outcome.Accepted? ==> |f.written| == Min(outcome.n, |Pending(queue, offset)|))
  {
    NothingPendingIff(queue, offset);
  }

  // ---------------------------------------------------------------------------------------------
  // One receive
  // ---------------------------------------------------------------------------------------------

  /** What one read hands over. */
  function Arrived(wire: seq<uint8>, outcome: RecvOutcome, room: nat): (chunk: seq<uint8>)
    ensures chunk <= wire && |chunk| == if outcome.Chunk? then Min(outcome.n, Min(room, |wire|)) else 0
  {
    if outcome.Chunk? then wire[..Min(outcome.n, Min(room, |wire|))] else []
  }

  /** The decision about the next read; an exhausted script would block. */
  function Next(script: seq<RecvOutcome>): RecvOutcome {
    if script == [] then RecvWouldBlock else script[0]
  }

  datatype Received = Received(appended: seq<uint8>, dropped: seq<uint8>, wire: seq<uint8>, result: RequestResult) {
    /** All bytes in their original order. */
    function Restored(): seq<uint8> {
      appended + (dropped + wire)
    }
  }

  /** What the receive loop reports, given its last read. */
  function EndResult(chunk: seq<uint8>, outcome: RecvOutcome): RequestResult {
    if chunk != [] then Ok
    else if outcome.RecvFailed? then Error
    else if outcome.PeerClosed? then GracefulClose
    else Ok
  }

  /** The receive loop once it has appended the bytes in `got`: reads until one hands over nothing, or until one
      more read after `limit` bytes were reached, whose bytes are dropped. `script` holds the system's decisions
      and `room` the size of the read buffer. */
  function Receive(got: seq<uint8>, wire: seq<uint8>, script: seq<RecvOutcome>, limit: nat, room: nat): Received
    decreases |script|
  {
    var outcome := Next(script);
    var chunk := Arrived(wire, outcome, room);
    if chunk != [] && |got| < limit then Receive(got + chunk, wire[|chunk|..], script[1..], limit, room)
    else Received(got, chunk, wire[|chunk|..], EndResult(chunk, outcome))
  }

  /** What came off the wire was appended, except what the last read dropped. */
  lemma {:induction false} ReceiveConserves(got: seq<uint8>, wire: seq<uint8>, script: seq<RecvOutcome>,
                                                limit: nat, room: nat)
    ensures Receive(got, wire, script, limit, room).Restored() == got + wire
    decreases |script|
  {
    var chunk := Arrived(wire, Next(script), room);
    assert chunk + wire[|chunk|..] == wire;
    if chunk != [] && |got| < limit {
      ReceiveConserves(got + chunk, wire[|chunk|..], script[1..], limit, room);
      Associative(got, chunk, wire[|chunk|..]);
    }
  }

  /** The system's decision about the last read of the loop. */
  function LastDecision(got: seq<uint8>, wire: seq<uint8>, script: seq<RecvOutcome>, limit: nat, room: nat): RecvOutcome
    decreases |script|
  {
    var chunk := Arrived(wire, Next(script), room);
    if chunk == [] || |got| >= limit then Next(script)
    else LastDecision(got + chunk, wire[|chunk|..], script[1..], limit, room)
  }

  /** A receive reports a close exactly when its last read met the end of the stream, and an error exactly when
      its last read failed. */
  lemma {:induction false} ReceiveReports(got: seq<uint8>, wire: seq<uint8>, script: seq<RecvOutcome>, limit: nat,
                                          room: nat)
    ensures var result, last := Receive(got, wire, script, limit, room).result,
                                LastDecision(got, wire, script, limit, room);
            && (result == GracefulClose <==> last == PeerClosed) && (result == Error <==> last == RecvFailed)
    decreases |script|
  {
    var chunk := Arrived(wire, Next(script), room);
    if chunk != [] && |got| < limit {
      ReceiveReports(got + chunk, wire[|chunk|..], script[1..], limit, room);
    }
  }

  /** The receive loop ends on a read that hands over nothing. */
  predicate EndsOnEmptyRead(got: seq<uint8>, wire: seq<uint8>, script: seq<RecvOutcome>, limit: nat, room: nat)
    decreases |script|
  {
    var chunk := Arrived(wire, Next(script), room);
    chunk == [] || (|got| < limit && EndsOnEmptyRead(got + chunk, wire[|chunk|..], script[1..], limit, room))
  }

  /** A receive drops nothing exactly when it ends on a read that hands over nothing. */
  lemma {:induction false} KeepsAllIffEndsEmpty(got: seq<uint8>, wire: seq<uint8>, script: seq<RecvOutcome>,
                                                limit: nat, room: nat)
    ensures Receive(got, wire, script, limit, room).dropped == [] <==> EndsOnEmptyRead(got, wire, script, limit, room)
    decreases |script|
  {
    var chunk := Arrived(wire, Next(script), room);
    if chunk != [] && |got| < limit {
      KeepsAllIffEndsEmpty(got + chunk, wire[|chunk|..], script[1..], limit, room);
    }
  }

  /** A receive that starts with no more than the limit on the wire drops nothing. */
  lemma {:induction false} ShortWireIsKept(got: seq<uint8>, wire: seq<uint8>, script: seq<RecvOutcome>,
                                               limit: nat, room: nat)
    requires |got| + |wire| <= limit
    ensures Receive(got, wire, script, limit, room).dropped == []
    decreases |script|
  {
    var chunk := Arrived(wire, Next(script), room);
    if chunk != [] {
      ShortWireIsKept(got + chunk, wire[|chunk|..], script[1..], limit, room);
    }
  }

  function OneByOne(k: nat): seq<RecvOutcome> {
    seq(k, _ => Chunk(1))
  }

  /** Bytes that trickle in one by one reach the limit exactly; the next one is dropped. */
  lemma {:induction false} TrickleDrops(got: seq<uint8>, wire: seq<uint8>, limit: nat, room: nat)
    requires |got| <= limit < |got| + |wire| && room > 0
    ensures Receive(got, wire, OneByOne(limit - |got| + 1), limit, room).dropped != []
    decreases limit - |got|
  {
    var script := OneByOne(limit - |got| + 1);
    assert Arrived(wire, Next(script), room) == wire[..1];
    if |got| < limit {
      assert script[1..] == OneByOne(limit - (|got| + 1) + 1);
      TrickleDrops(got + wire[..1], wire[1..], limit, room);
    }
  }

  /** A receive keeps everything it takes off the wire, whatever the system decides, exactly when no more than
      the byte limit is on the wire at the start. */
  lemma ReceiveKeepsAllIff(wire: seq<uint8>, limit: nat, room: nat)
    requires room > 0
    ensures (forall script :: Receive([], wire, script, limit, room).dropped == []) <==> |wire| <= limit
  {
    if |wire| <= limit {
      forall script
        ensures Receive([], wire, script, limit, room).dropped == []
      {
        ShortWireIsKept([], wire, script, limit, room);
      }
    } else {
      TrickleDrops([], wire, limit, room);
    }
  }
}
