/** Two stream sockets joined by two wires, over whole runs of enqueues, ticks and deliveries. */
module Links {
  import opened Basics
  import opened Bytes
  import opened Streams
  import opened Framing

  /** One direction of a connection: the sender's queue and offset, the bytes in flight, the receiver's buffer
      and the packets taken from it. The other fields keep account: everything ever enqueued, everything ever
      appended to the receive buffer, how many bytes a receive dropped and how many a failed flush threw
      away. */
  datatype Lane = Lane(queue: seq<seq<uint8>>, offset: nat, wire: seq<uint8>, inbox: seq<uint8>,
                       delivered: seq<seq<uint8>>, enqueued: seq<uint8>, received: seq<uint8>,
                       dropped: nat, cleared: nat)
  {
    predicate Ok() {
      QueueOk(queue, offset)
    }

    function ToSend(): seq<uint8>
      requires Ok()
    {
      Pending(queue, offset)
    }

    function Enqueue(data: seq<uint8>): (after: Lane)
      ensures Ok() ==> after.Ok()
    {
      this.(queue := queue + [data], enqueued := enqueued + data)
    }

    function Flush(outcome: SendOutcome): (after: Lane)
      requires Ok()
      ensures after.Ok()
    {
      FlushConserves(queue, offset, outcome);
      var f := Streams.Flush(queue, offset, outcome);
      this.(queue := f.queue, offset := f.offset, wire := wire + f.written,
            cleared := if f.result == RequestResult.Ok then cleared else cleared + |ToSend()|)
    }

    function Receive(script: seq<RecvOutcome>): Lane {
      var r := Streams.Receive([], wire, script, GROUP_BYTE_LIMIT, GROUP_BYTE_LIMIT);
      this.(wire := r.wire, inbox := inbox + r.appended, received := received + r.appended,
            dropped := dropped + |r.dropped|)
    }

    function Deliver(): Lane {
      this.(delivered := delivered + Drain(inbox).packets, inbox := Drain(inbox).rest)
    }

    /** Every byte is accounted for; and as long as none was dropped or thrown away, the bytes received, in
        flight and still to be sent are those enqueued, in order. */
    ghost predicate Balanced() {
      && Ok()
      && |enqueued| == |received| + |wire| + |ToSend()| + dropped + cleared
      && (dropped == 0 && cleared == 0 ==> enqueued == received + wire + ToSend())
    }

    /** The packets delivered, with those complete in the receive buffer, are the ones that parsing all received
        bytes at once would give. */
    ghost predicate Parsed() {
      Drain(received) == Drained(delivered + Drain(inbox).packets, Drain(inbox).rest)
    }

    ghost predicate Accounted() {
      Balanced() && Parsed()
    }
  }

  const EMPTY: Lane := Lane([], 0, [], [], [], [], [], 0, 0)

  lemma ConcatSnoc(queue: seq<seq<uint8>>, offset: nat, data: seq<uint8>)
    requires QueueOk(queue, offset)
    ensures QueueOk(queue + [data], offset) && Pending(queue + [data], offset) == Pending(queue, offset) + data
  {
    ConcatAppend(queue, data);
    HeadFits(queue, offset);
  }

  lemma HeadFits(queue: seq<seq<uint8>>, offset: nat)
    requires QueueOk(queue, offset)
    ensures offset <= |Concat(queue)|
  {
  }

  lemma EnqueueBalances(l: Lane, data: seq<uint8>)
    requires l.Balanced()
    ensures l.Enqueue(data).Balanced()
  {
    ConcatSnoc(l.queue, l.offset, data);
    assert l.received + l.wire + (l.ToSend() + data) == l.received + l.wire + l.ToSend() + data;
  }

  lemma FlushBalances(l: Lane, outcome: SendOutcome)
    requires l.Balanced()
    ensures l.Flush(outcome).Balanced()
  {
    var f := Streams.Flush(l.queue, l.offset, outcome);
    FlushConserves(l.queue, l.offset, outcome);
    var left := Pending(f.queue, f.offset);
    if f.result == RequestResult.Ok {
      Handover(l.received, l.wire, f.written, left, l.ToSend());
    } else {
      assert l.wire + f.written == l.wire && left == [];
      assert |l.ToSend()| == 0 ==> l.ToSend() == [];
    }
  }

  lemma Handover(received: seq<uint8>, wire: seq<uint8>, written: seq<uint8>, left: seq<uint8>, toSend: seq<uint8>)
    requires written + left == toSend
    ensures received + wire + toSend == received + (wire + written) + left
    ensures |wire + written| + |left| == |wire| + |toSend|
  {
    assert received + wire + (written + left) == received + (wire + written) + left;
  }

  lemma ReceiveBalances(l: Lane, script: seq<RecvOutcome>)
    requires l.Balanced()
    ensures l.Receive(script).Balanced()
  {
    var r := Streams.Receive([], l.wire, script, GROUP_BYTE_LIMIT, GROUP_BYTE_LIMIT);
    ReceiveConserves([], l.wire, script, GROUP_BYTE_LIMIT, GROUP_BYTE_LIMIT);
    assert [] + l.wire == l.wire;
    Arrival(l.received, l.wire, l.ToSend(), r);
  }

  lemma Arrival(received: seq<uint8>, wire: seq<uint8>, toSend: seq<uint8>, r: Received)
    requires r.Restored() == wire
    ensures |wire| == |r.appended| + |r.dropped| + |r.wire|
    ensures r.dropped == [] ==> received + wire + toSend == (received + r.appended) + r.wire + toSend
  {
    if r.dropped == [] {
      assert r.dropped + r.wire == r.wire;
      assert received + (r.appended + r.wire) == (received + r.appended) + r.wire;
    }
  }

  lemma DeliverKeepsParsing(l: Lane)
    requires l.Parsed()
    ensures l.Deliver().Parsed() && Drain(l.Deliver().inbox) == Drained([], l.Deliver().inbox)
  {
    DrainLeavesNoPacket(l.inbox);
    var d := Drain(l.inbox);
    assert Drain(d.rest) == Drained([], d.rest);
    assert (l.delivered + d.packets) + [] == l.delivered + d.packets;
  }

  lemma EnqueueAccounts(l: Lane, data: seq<uint8>)
    requires l.Accounted()
    ensures l.Enqueue(data).Accounted()
  {
    EnqueueBalances(l, data);
  }

  lemma FlushAccounts(l: Lane, outcome: SendOutcome)
    requires l.Accounted()
    ensures l.Flush(outcome).Accounted()
  {
    FlushBalances(l, outcome);
  }

  lemma ReceiveAccounts(l: Lane, script: seq<RecvOutcome>)
    requires l.Accounted()
    ensures l.Receive(script).Accounted()
  {
    ReceiveBalances(l, script);
    var r := Streams.Receive([], l.wire, script, GROUP_BYTE_LIMIT, GROUP_BYTE_LIMIT);
    ParsingGoesOn(l.received, l.delivered, l.inbox, r.appended);
  }

  lemma DeliverAccounts(l: Lane)
    requires l.Accounted()
    ensures l.Deliver().Accounted()
  {
    DeliverKeepsParsing(l);
  }

  // ---------------------------------------------------------------------------------------------
  // Two lanes and their runs
  // ---------------------------------------------------------------------------------------------

  datatype Side = A | B

  /** `ab` carries what side A sends, `ba` what side B sends. */
  datatype Link = Link(ab: Lane, ba: Lane) {
    function Out(side: Side): Lane {
      if side == A then ab else ba
    }

    function In(side: Side): Lane {
      if side == A then ba else ab
    }

    function WithOut(side: Side, l: Lane): Link {
      if side == A then this.(ab := l) else this.(ba := l)
    }

    function WithIn(side: Side, l: Lane): Link {
      if side == A then this.(ba := l) else this.(ab := l)
    }

    predicate Ok() {
      ab.Ok() && ba.Ok()
    }
  }

  /** A side enqueues bytes, or a framed packet, or is ticked, or parses what it has received. */
  datatype Event =
    | Enqueue(side: Side, data: seq<uint8>)
    | Send(side: Side, packet: seq<uint8>)
    | Tick(side: Side, readable: bool, writable: bool, script: seq<RecvOutcome>, outcome: SendOutcome)
    | Deliver(side: Side)

  function TickReceiveResult(wire: seq<uint8>, readable: bool, script: seq<RecvOutcome>): RequestResult {
    if readable then Streams.Receive([], wire, script, GROUP_BYTE_LIMIT, GROUP_BYTE_LIMIT).result else RequestResult.Ok
  }

  /** A tick receives if asked to, and then flushes if asked to, unless the receive reported a failure. */
  function TickLink(link: Link, e: Event): (after: Link)
    requires link.Ok() && e.Tick?
    ensures after.Ok()
  {
    var went := TickReceiveResult(link.In(e.side).wire, e.readable, e.script) == RequestResult.Ok;
    var mid := if e.readable then link.WithIn(e.side, link.In(e.side).Receive(e.script)) else link;
    if went && e.writable then mid.WithOut(e.side, mid.Out(e.side).Flush(e.outcome)) else mid
  }

  function Step(link: Link, e: Event): (after: Link)
    requires link.Ok()
    ensures after.Ok()
  {
    match e
    case Enqueue(side, data) => link.WithOut(side, link.Out(side).Enqueue(data))
    case Send(side, packet) => link.WithOut(side, link.Out(side).Enqueue(Frame(packet)))
    case Tick(_, _, _, _, _) => TickLink(link, e)
    case Deliver(side) => link.WithIn(side, link.In(side).Deliver())
  }

  ghost predicate LinkAccounted(link: Link) {
    link.ab.Accounted() && link.ba.Accounted()
  }

  lemma TickAccounts(link: Link, e: Event)
    requires LinkAccounted(link) && e.Tick?
    ensures LinkAccounted(TickLink(link, e))
  {
    ReceiveAccounts(link.In(e.side), e.script);
    FlushAccounts(link.Out(e.side), e.outcome);
  }

  lemma StepAccounts(link: Link, e: Event)
    requires LinkAccounted(link)
    ensures LinkAccounted(Step(link, e))
  {
    match e
    case Enqueue(side, data) =>
      EnqueueAccounts(link.Out(side), data);
    case Send(side, packet) =>
      EnqueueAccounts(link.Out(side), Frame(packet));
    case Tick(_, _, _, _, _) =>
      TickAccounts(link, e);
    case Deliver(side) =>
      DeliverAccounts(link.In(side));
  }

  /** The connection after a run of events. */
  function Run(events: seq<Event>): (link: Link)
    ensures link.Ok()
  {
    if events == [] then Link(EMPTY, EMPTY) else Step(Run(events[..|events| - 1]), events[|events| - 1])
  }

  /** Every run keeps both directions accounted for. */
  lemma {:induction false} RunAccounts(events: seq<Event>)
    ensures LinkAccounted(Run(events))
  {
    if events != [] {
      RunAccounts(events[..|events| - 1]);
      StepAccounts(Run(events[..|events| - 1]), events[|events| - 1]);
    }
  }

  /** The event costs the bytes sent by `side` nothing: a receive on the other side ends on a read that hands
      over nothing, and the write of a flush on this side, if the tick comes to one, would block, or takes
      something, or has nothing pending. */
  ghost predicate Careful(link: Link, e: Event, side: Side)
    requires link.Ok()
  {
    var l := link.Out(side);
    e.Tick? ==>
      && (e.side != side && e.readable ==>
            EndsOnEmptyRead([], l.wire, e.script, GROUP_BYTE_LIMIT, GROUP_BYTE_LIMIT))
      && (e.side == side && e.writable && (e.readable ==> !StopsTick(link.In(side).wire, e.script)) ==>
            e.outcome.SendWouldBlock? || (e.outcome.Accepted? && e.outcome.n > 0) || l.ToSend() == [])
  }

  /** The last read of the tick's receive fails or meets the end of the stream. */
  predicate StopsTick(wire: seq<uint8>, script: seq<RecvOutcome>) {
    var last := LastDecision([], wire, script, GROUP_BYTE_LIMIT, GROUP_BYTE_LIMIT);
    last == RecvFailed || last == PeerClosed
  }

  ghost predicate CarefulRun(events: seq<Event>, side: Side) {
    events == [] ||
    (CarefulRun(events[..|events| - 1], side) && Careful(Run(events[..|events| - 1]), events[|events| - 1], side))
  }

  lemma CarefulStepIff(link: Link, e: Event, side: Side)
    requires link.Ok()
    ensures var l, after := link.Out(side), Step(link, e).Out(side);
            && after.dropped >= l.dropped && after.cleared >= l.cleared
            && (after.dropped == l.dropped && after.cleared == l.cleared <==> Careful(link, e, side))
  {
    if e.Tick? && e.side != side {
      KeepsAllIffEndsEmpty([], link.Out(side).wire, e.script, GROUP_BYTE_LIMIT, GROUP_BYTE_LIMIT);
    } else if e.Tick? {
      var l := link.Out(side);
      ReceiveReports([], link.In(side).wire, e.script, GROUP_BYTE_LIMIT, GROUP_BYTE_LIMIT);
      FlushReports(l.queue, l.offset, e.outcome);
      NothingPendingIff(l.queue, l.offset);
    }
  }

  lemma {:induction false} CarefulRunIff(events: seq<Event>, side: Side)
    ensures Run(events).Out(side).dropped == 0 && Run(events).Out(side).cleared == 0 <==> CarefulRun(events, side)
  {
    if events != [] {
      CarefulRunIff(events[..|events| - 1], side);
      CarefulStepIff(Run(events[..|events| - 1]), events[|events| - 1], side);
    }
  }

  /** In every run, in either direction: what was enqueued is what was received, then what is in flight, then
      what is still to be sent, exactly when every event of the run is careful. */
  lemma BytesConservedIff(events: seq<Event>, side: Side)
    ensures var l := Run(events).Out(side);
            l.enqueued == l.received + l.wire + l.ToSend() <==> CarefulRun(events, side)
  {
    var l := Run(events).Out(side);
    RunAccounts(events);
    CarefulRunIff(events, side);
    assert |l.received + l.wire + l.ToSend()| == |l.received| + |l.wire| + |l.ToSend()|;
  }

  /** A tick is gentle when its receive starts with no more than the byte limit in flight, and the write of its
      flush finds nothing queued, or would block, or takes something of what there is. */
  ghost predicate Gentle(link: Link, e: Event)
    requires link.Ok()
  {
    e.Tick? ==>
      && (e.readable ==> |link.In(e.side).wire| <= 16384)
      && (e.writable ==> FlushIsOk(link.Out(e.side).queue, e.outcome))
  }

  ghost predicate GentleRun(events: seq<Event>) {
    events == [] ||
    (GentleRun(events[..|events| - 1]) && Gentle(Run(events[..|events| - 1]), events[|events| - 1]))
  }

  /** A gentle run is careful in both directions, so it loses nothing. */
  lemma {:induction false} GentleRunIsCareful(events: seq<Event>, side: Side)
    requires GentleRun(events)
    ensures CarefulRun(events, side)
  {
    if events != [] {
      GentleRunIsCareful(events[..|events| - 1], side);
      GentleStepIsCareful(Run(events[..|events| - 1]), events[|events| - 1], side);
    }
  }

  lemma GentleStepIsCareful(link: Link, e: Event, side: Side)
    requires link.Ok() && Gentle(link, e)
    ensures Careful(link, e, side)
  {
    NothingPendingIff(link.Out(side).queue, link.Out(side).offset);
    if e.Tick? && e.side != side && e.readable {
      ShortWireIsKept([], link.Out(side).wire, e.script, GROUP_BYTE_LIMIT, GROUP_BYTE_LIMIT);
      KeepsAllIffEndsEmpty([], link.Out(side).wire, e.script, GROUP_BYTE_LIMIT, GROUP_BYTE_LIMIT);
    }
  }

  // ---------------------------------------------------------------------------------------------
  // Packets over a link
  // ---------------------------------------------------------------------------------------------

  /** The packets that a side sent in a run. */
  function Sent(events: seq<Event>, side: Side): seq<seq<uint8>> {
    if events == [] then []
    else
      var last := events[|events| - 1];
      Sent(events[..|events| - 1], side) + if last.Send? && last.side == side then [last.packet] else []
  }

  /** The side enqueues nothing but framed packets. */
  ghost predicate OnlyPackets(events: seq<Event>, side: Side) {
    forall i :: 0 <= i < |events| && events[i].Enqueue? ==> events[i].side != side
  }

  lemma {:induction false} FrameAllSnoc(packets: seq<seq<uint8>>, last: seq<uint8>)
    ensures FrameAll(packets + [last]) == FrameAll(packets) + Frame(last)
  {
    var all := packets + [last];
    if packets == [] {
      assert all == [last] && all[1..] == [];
      assert Frame(last) + [] == [] + Frame(last);
    } else {
      assert all[0] == packets[0] && all[1..] == packets[1..] + [last];
      FrameAllSnoc(packets[1..], last);
      Associative(Frame(packets[0]), FrameAll(packets[1..]), Frame(last));
    }
  }

  lemma StepEnqueues(link: Link, e: Event, side: Side)
    requires link.Ok() && (e.Enqueue? ==> e.side != side)
    ensures Step(link, e).Out(side).enqueued
         == link.Out(side).enqueued + if e.Send? && e.side == side then Frame(e.packet) else []
  {
    assert link.Out(side).enqueued + [] == link.Out(side).enqueued;
  }

  lemma {:induction false} EnqueuedIsFramed(events: seq<Event>, side: Side)
    requires OnlyPackets(events, side)
    ensures Run(events).Out(side).enqueued == FrameAll(Sent(events, side))
  {
    if events != [] {
      var before, last := events[..|events| - 1], events[|events| - 1];
      EnqueuedIsFramed(before, side);
      FrameAllSnoc(Sent(before, side), if last.Send? then last.packet else []);
      assert Sent(before, side) + [] == Sent(before, side);
      StepEnqueues(Run(before), last, side);
    }
  }

  /** In every careful run, the packets delivered so far, with those that lie complete in the
      receive buffer, are the first of those sent, in order. Once nothing is in flight or waiting to be sent
      they are all of them, and nothing is left over. */
  lemma PacketsArriveInOrder(events: seq<Event>, side: Side)
    requires OnlyPackets(events, side) && forall p :: p in Sent(events, side) ==> Sendable(p)
    requires CarefulRun(events, side)
    ensures var l := Run(events).Out(side);
            && l.delivered + Drain(l.inbox).packets <= Sent(events, side)
            && (l.wire == [] && l.ToSend() == [] ==>
                  l.delivered + Drain(l.inbox).packets == Sent(events, side) && Drain(l.inbox).rest == [])
  {
    RunAccounts(events);
    CarefulRunIff(events, side);
    EnqueuedIsFramed(events, side);
    FramesArriveInOrder(Run(events).Out(side), Sent(events, side));
  }

  lemma FramesArriveInOrder(l: Lane, packets: seq<seq<uint8>>)
    requires l.Accounted() && l.dropped == 0 && l.cleared == 0
    requires l.enqueued == FrameAll(packets) && forall p :: p in packets ==> Sendable(p)
    ensures l.delivered + Drain(l.inbox).packets <= packets
    ensures l.wire == [] && l.ToSend() == [] ==>
              l.delivered + Drain(l.inbox).packets == packets && Drain(l.inbox).rest == []
  {
    ArrivedPacketsArePrefix(packets, l.received);
    if l.wire == [] && l.ToSend() == [] {
      assert l.received == FrameAll(packets);
      FramesRoundTripIff(packets);
    }
  }

  /** In a careful run that ends with the receiver parsing its buffer after everything has arrived, the packets
      delivered are exactly those sent. */
  lemma DrainedLinkDeliversAll(events: seq<Event>, receiver: Side, sender: Side)
    requires sender != receiver && CarefulRun(events, sender)
    requires OnlyPackets(events, sender) && forall p :: p in Sent(events, sender) ==> Sendable(p)
    requires Run(events).Out(sender).wire == [] && Run(events).Out(sender).ToSend() == []
    ensures Run(events + [Deliver(receiver)]).In(receiver).delivered == Sent(events, sender)
    ensures Run(events + [Deliver(receiver)]).In(receiver).inbox == []
  {
    var l := Run(events).Out(sender);
    assert l.delivered + Drain(l.inbox).packets == Sent(events, sender) && Drain(l.inbox).rest == [] by {
      PacketsArriveInOrder(events, sender);
    }
    assert Run(events + [Deliver(receiver)]).In(receiver) == l.Deliver() by {
      RunOneMore(events, Deliver(receiver));
      DeliverIsAtReceiver(Run(events), receiver, sender);
    }
  }

  lemma DeliverIsAtReceiver(link: Link, receiver: Side, sender: Side)
    requires sender != receiver && link.Ok()
    ensures Step(link, Deliver(receiver)).In(receiver) == link.Out(sender).Deliver()
  {
  }

  lemma RunOneMore(events: seq<Event>, e: Event)
    ensures Run(events + [e]) == Step(Run(events), e)
  {
    var longer := events + [e];
    assert longer[..|longer| - 1] == events && longer[|longer| - 1] == e;
  }
}
