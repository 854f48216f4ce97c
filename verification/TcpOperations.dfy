/** The write wrappers: mapping the socket's answer to a result, and accounting for a partial vectored write. */
module TcpOperations {
  import opened Bytes
  import opened Basics
  import opened Streams
  import opened Sockets

  function Lengths(views: seq<seq<uint8>>): (lens: seq<nat>)
    ensures |lens| == |views|
  {
    seq(|views|, i requires 0 <= i < |views| => |views[i]|)
  }

  /** Where a write ended: `popped` whole buffers and `offset` bytes of the next one. */
  ghost predicate EndsAt(lens: seq<nat>, popped: nat, offset: nat, position: nat) {
    && popped <= |lens| && Sum(lens[..popped]) + offset == position
    && (offset == 0 || (popped < |lens| && offset < lens[popped]))
  }

  function Sum(ns: seq<nat>): nat {
    if ns == [] then 0 else Sum(ns[..|ns| - 1]) + ns[|ns| - 1]
  }

  datatype Position = Position(sent: nat, partial: nat)

  /** The accounting loop over vectors of the given lengths, from vector `sent` on. */
  function Account(lens: seq<nat>, sent: nat, remaining: nat): Position
    requires sent <= |lens|
    decreases |lens| - sent
  {
    if remaining == 0 || sent == |lens| then Position(sent, 0)
    else if remaining >= lens[sent] then Account(lens, sent + 1, remaining - lens[sent])
    else Position(sent, remaining)
  }

  /** The vectors counted as sent and the partial offset add up to the number of bytes, and the partial offset
      lies strictly inside the next vector unless it is zero. No vector is counted before it is needed. */
  lemma {:induction false} AccountEndsAt(lens: seq<nat>, sent: nat, remaining: nat)
    requires sent <= |lens| && Sum(lens[..sent]) + remaining <= Sum(lens)
    ensures var p := Account(lens, sent, remaining);
            && EndsAt(lens, p.sent, p.partial, Sum(lens[..sent]) + remaining)
            && (p.sent > sent ==> Sum(lens[..p.sent - 1]) < Sum(lens[..sent]) + remaining)
    decreases |lens| - sent
  {
    if sent == |lens| {
      assert lens[..sent] == lens;
    } else if remaining > 0 && remaining >= lens[sent] {
      assert lens[..sent + 1][..sent] == lens[..sent];
      AccountEndsAt(lens, sent + 1, remaining - lens[sent]);
    }
  }

  lemma {:induction false} SumIsConcat(views: seq<seq<uint8>>)
    ensures Sum(Lengths(views)) == |Concat(views)|
  {
    if views != [] {
      var last := |views| - 1;
      SumIsConcat(views[..last]);
      ConcatAppend(views[..last], views[last]);
      assert views[..last] + [views[last]] == views;
      assert Lengths(views)[..last] == Lengths(views[..last]);
    }
  }

  /** Started at the front, the accounting loop finds what the flush loop finds from offset zero. */
  lemma {:induction false} AccountIsAdvance(queue: seq<seq<uint8>>, sent: nat, n: nat)
    requires sent <= |queue|
    ensures var p := Advance(queue[sent..], 0, n);
            n <= |Concat(queue[sent..])| ==> Account(Lengths(queue), sent, n) == Position(sent + p.popped, p.offset)
    decreases |queue| - sent
  {
    if n > 0 && sent < |queue| {
      assert queue[sent..][1..] == queue[sent + 1..];
      if n >= |queue[sent]| {
        AccountIsAdvance(queue, sent + 1, n - |queue[sent]|);
      }
    }
  }

  datatype AutoResult = AutoResult(sent: nat, partial: nat, result: RequestResult)

  /** The partial offset does not exceed the first vector. */
  predicate OffsetFits(views: seq<seq<uint8>>, offset: nat) {
    views == [] || offset <= |views[0]|
  }

  /** The bytes offered to the system: all vectors, the first from the partial offset on. */
  function Offered(views: seq<seq<uint8>>, offset: nat): seq<uint8>
    requires OffsetFits(views, offset)
  {
    if views == [] then [] else Concat(views)[offset..]
  }

  /** What the automatic wrapper answers for buffers of which the first was already sent up to `offset`. */
  function Auto(views: seq<seq<uint8>>, offset: nat, outcome: SendOutcome): AutoResult
    requires OffsetFits(views, offset)
  {
    if views == [] || !outcome.Accepted? then
      if outcome.SendWouldBlock? then AutoResult(0, 0, Ok) else AutoResult(0, offset, Error)
    else
      var n := Min(outcome.n, |Offered(views, offset)|);
      if n == 0 then AutoResult(0, offset, GracefulClose)
      else
        var p := Account(Lengths(views), 0, n);
        AutoResult(p.sent, p.partial, Ok)
  }

  /** What the wrapper reports, in terms of the system's decision. A refused write without any vector is an error
      too. Nothing was sent, and the partial offset stays, unless it reports that all is well. */
  lemma AutoReports(views: seq<seq<uint8>>, offset: nat, outcome: SendOutcome)
    requires OffsetFits(views, offset)
    ensures var a, nothing := Auto(views, offset, outcome), Offered(views, offset) == [];
            && (a.result == Ok <==> outcome.SendWouldBlock? || (outcome.Accepted? && outcome.n > 0 && !nothing))
            && (a.result == Error <==> outcome.SendFailed? || (views == [] && outcome.Accepted?))
            && (a.result == GracefulClose <==> views != [] && outcome.Accepted? && (outcome.n == 0 || nothing))
            && (a.result != Ok ==> a.sent == 0 && a.partial == offset)
            && (outcome.SendWouldBlock? ==> a.sent == 0 && a.partial == 0)
  {
  }

  /** Of queued buffers, the wrapper and the flush report the same under every decision. */
  lemma AutoReportsAsFlush(views: seq<seq<uint8>>, offset: nat, outcome: SendOutcome)
    requires QueueOk(views, offset) && views != []
    ensures Auto(views, offset, outcome).result == Flush(views, offset, outcome).result
  {
  }

  /** When the write was accepted or would block, the wrapper's answer is the place that the flush of the same
      buffers under the same decision reaches, exactly when it was entered with a partial offset of zero. */
  lemma AutoAgreesWithFlushIff(views: seq<seq<uint8>>, offset: nat, outcome: SendOutcome)
    requires QueueOk(views, offset) && views != [] && Auto(views, offset, outcome).result == Ok
    ensures var a, f := Auto(views, offset, outcome), Flush(views, offset, outcome);
            a.sent == f.popped && a.partial == f.offset <==> offset == 0
  {
    if outcome.Accepted? {
      var n := Min(outcome.n, |Pending(views, offset)|);
      assert views[0..] == views;
      SumIsConcat(views);
      if offset == 0 {
        AccountIsAdvance(views, 0, n);
      } else {
        AccountEndsAt(Lengths(views), 0, n);
        AdvanceEndsAt(views, offset, n);
      }
    }
  }

  /** The flush loop ends at the position it started from plus the bytes written. */
  lemma {:induction false} AdvanceEndsAt(queue: seq<seq<uint8>>, offset: nat, n: nat)
    requires QueueOk(queue, offset) && n <= |Pending(queue, offset)|
    ensures var p := Advance(queue, offset, n);
            EndsAt(Lengths(queue), p.popped, p.offset, offset + n)
    decreases |queue|
  {
    var lens := Lengths(queue);
    if n > 0 && queue != [] {
      var consumed := Min(|queue[0]| - offset, n);
      if offset + consumed >= |queue[0]| {
        assert n - consumed <= |Pending(queue[1..], 0)| by {
          PendingOfTail(queue, offset);
        }
        AdvanceEndsAt(queue[1..], 0, n - consumed);
        LengthsOfTail(queue);
        var p := Advance(queue[1..], 0, n - consumed);
        EndsBehindHead(lens, p.popped, p.offset, offset + n);
      }
    }
  }

  lemma LengthsOfTail(queue: seq<seq<uint8>>)
    requires queue != []
    ensures Lengths(queue)[1..] == Lengths(queue[1..])
  {
  }

  lemma EndsBehindHead(lens: seq<nat>, popped: nat, offset: nat, position: nat)
    requires lens != [] && position >= lens[0] && EndsAt(lens[1..], popped, offset, position - lens[0])
    ensures EndsAt(lens, popped + 1, offset, position)
  {
    SumFromFront(lens, popped + 1);
  }

  /** It pops no buffer that it need not. */
  lemma {:induction false} AdvancePopsNoMore(queue: seq<seq<uint8>>, offset: nat, n: nat)
    requires QueueOk(queue, offset) && n <= |Pending(queue, offset)|
    ensures var p := Advance(queue, offset, n);
            0 < p.popped <= |queue| ==> Sum(Lengths(queue)[..p.popped - 1]) < offset + n
    decreases |queue|
  {
    var lens := Lengths(queue);
    if n > 0 && queue != [] {
      var consumed := Min(|queue[0]| - offset, n);
      if offset + consumed >= |queue[0]| {
        AdvancePopsNoMore(queue[1..], 0, n - consumed);
        var p := Advance(queue[1..], 0, n - consumed);
        assert Lengths(queue[1..]) == lens[1..];
        if 0 < p.popped < |lens| {
          SumFromFront(lens, p.popped);
        }
      }
    }
  }

  lemma {:induction false} SumFromFront(ns: seq<nat>, k: nat)
    requires 1 <= k <= |ns|
    ensures Sum(ns[..k]) == ns[0] + Sum(ns[1..][..k - 1])
  {
    assert ns[..k][..k - 1] == ns[..k - 1];
    if k > 1 {
      SumFromFront(ns, k - 1);
      assert ns[1..][..k - 1][..k - 2] == ns[1..][..k - 2];
    }
  }

  // ---------------------------------------------------------------------------------------------
  // The operations
  // ---------------------------------------------------------------------------------------------

  /** One vectored write, its answer mapped to a result and a byte count. */
  method RequestWriteVectorized(socket: Socket, data: seq<seq<uint8>>, outcome: SendOutcome)
    returns (bytes: nat, result: RequestResult)
    modifies socket, socket.outgoing
    ensures var accepted := data != [] && outcome.Accepted?;
            && (result == Ok && bytes > 0 <==> accepted && outcome.n > 0 && Concat(data) != [])
            && (result == Error <==> !accepted && !outcome.SendWouldBlock?)
            && (result == GracefulClose <==> accepted && (outcome.n == 0 || Concat(data) == []))
            && bytes == (if accepted then Min(outcome.n, |Concat(data)|) else 0)
            && bytes <= |Concat(data)|
    ensures socket.outgoing.bytes == old(socket.outgoing.bytes) + Concat(data)[..bytes]
  {
    var r := socket.Sendv(data, outcome);
    if r < 0 {
      result := Error;
      if socket.wouldBlock {
        result := Ok;
      }
      return 0, result;
    }
    if r == 0 {
      return 0, GracefulClose;
    }
    return r, Ok;
  }

  /** The automatic wrapper: trims the first vector by the partial offset for the write, restores it, and
      accounts for the bytes written. */
  method RequestWriteVectorizedAuto(socket: Socket, data: array<seq<uint8>>, partialOffset: nat, outcome: SendOutcome)
    returns (sent: nat, partial: nat, result: RequestResult)
    requires OffsetFits(data[..], partialOffset)
    modifies socket, socket.outgoing, data
    ensures AutoResult(sent, partial, result) == Auto(old(data[..]), partialOffset, outcome)
    ensures var offered := Offered(old(data[..]), partialOffset);
            && (result == Ok <==> outcome.SendWouldBlock? || (outcome.Accepted? && outcome.n > 0 && offered != []))
            && (result == Error <==> outcome.SendFailed? || (data.Length == 0 && outcome.Accepted?))
            && (result != Ok ==> sent == 0 && partial == partialOffset)
    ensures data[..] == old(data[..])
    ensures var offered := Offered(data[..], partialOffset);
            var written := if data.Length > 0 && outcome.Accepted? then Min(outcome.n, |offered|) else 0;
            socket.outgoing.bytes == old(socket.outgoing.bytes) + offered[..written]
  {
    ghost var views := data[..];
    AutoReports(views, partialOffset, outcome);
    var sourceHead: seq<uint8> := [];
    if data.Length > 0 && partialOffset != 0 {
      sourceHead := data[0];
      data[0] := data[0][partialOffset..];
    }
    ghost var trimmed := data[..];
    assert Concat(trimmed) == Offered(views, partialOffset) by {
      if views != [] {
        assert trimmed[1..] == views[1..];
        assert trimmed[0] == views[0][partialOffset..];
      }
    }
    var bytes, r := RequestWriteVectorized(socket, data[..], outcome);
    if data.Length > 0 && partialOffset != 0 {
      data[0] := sourceHead;
    }
    assert data[..] == views;
    if r != Ok {
      return 0, partialOffset, r;
    }
    sent, partial := AccountWritten(data, bytes);
    result := Ok;
  }

  /** The loop over the vectors that a write has sent. */
  method AccountWritten(data: array<seq<uint8>>, bytes: nat) returns (sent: nat, partial: nat)
    ensures Position(sent, partial) == Account(Lengths(data[..]), 0, bytes)
  {
    var remaining: nat := bytes;
    sent := 0;
    while remaining > 0 && sent < data.Length
      invariant sent <= data.Length
      invariant Account(Lengths(data[..]), sent, remaining) == Account(Lengths(data[..]), 0, bytes)
    {
      var available := |data[sent]|;
      if remaining >= available {
        remaining := remaining - available;
        sent := sent + 1;
      } else {
        return sent, remaining;
      }
    }
    partial := 0;
  }
}
