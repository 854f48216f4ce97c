/** Length-prefixed packets on a byte stream: four bytes of length in network order, then the data. */
module Framing {
  import opened Basics
  import opened Bytes

  datatype Unframed = Unframed(packet: seq<uint8>, rest: seq<uint8>)
  datatype Drained = Drained(packets: seq<seq<uint8>>, rest: seq<uint8>)

  const HEADER: nat := 4

  /** A packet with its header. The length is cut to 32 bits. */
  function Frame(packet: seq<uint8>): seq<uint8> {
    BigEndian(|packet| % U32_COUNT) + packet
  }

  /** One attempt to take a packet off the front of a stream. */
  function Unframe(stream: seq<uint8>): Option<Unframed> {
    if |stream| < HEADER then None
    else
      var size := FromBigEndian(stream[..HEADER]);
      if size == 0 || |stream| < size + HEADER then None
      else Some(Unframed(stream[HEADER..HEADER + size], stream[HEADER + size..]))
  }

  /** Repeating the attempt until it fails. */
  function Drain(stream: seq<uint8>): Drained
    decreases |stream|
  {
    match Unframe(stream)
    case None => Drained([], stream)
    case Some(u) => Drained([u.packet] + Drain(u.rest).packets, Drain(u.rest).rest)
  }

  function FrameAll(packets: seq<seq<uint8>>): seq<uint8> {
    if packets == [] then [] else Frame(packets[0]) + FrameAll(packets[1..])
  }

  predicate Sendable(packet: seq<uint8>) {
    1 <= |packet| < U32_COUNT
  }

  // ---------------------------------------------------------------------------------------------
  // One packet
  // ---------------------------------------------------------------------------------------------

  lemma HeaderOfFrame(packet: seq<uint8>, rest: seq<uint8>)
    ensures (Frame(packet) + rest)[..HEADER] == BigEndian(|packet| % U32_COUNT)
    ensures FromBigEndian((Frame(packet) + rest)[..HEADER]) == |packet| % U32_COUNT
  {
    assert (Frame(packet) + rest)[..HEADER] == BigEndian(|packet| % U32_COUNT);
    BigEndianRoundTrip(|packet| % U32_COUNT);
  }

  /** A packet comes back with the bytes behind it exactly when it has between 1 and 2^32 - 1 bytes. */
  lemma FrameRoundTripIff(packet: seq<uint8>, rest: seq<uint8>)
    ensures Unframe(Frame(packet) + rest) == Some(Unframed(packet, rest)) <==> Sendable(packet)
  {
    var stream := Frame(packet) + rest;
    HeaderOfFrame(packet, rest);
    if Sendable(packet) {
      assert stream[HEADER..HEADER + |packet|] == packet && stream[HEADER + |packet|..] == rest;
    }
  }

  /** An empty packet is never taken off the stream, and nothing behind it is ever delivered. */
  lemma EmptyPacketBlocksStream(rest: seq<uint8>)
    ensures Drain(Frame([]) + rest) == Drained([], Frame([]) + rest)
  {
    HeaderOfFrame([], rest);
  }

  // ---------------------------------------------------------------------------------------------
  // Incremental parsing
  // ---------------------------------------------------------------------------------------------

  lemma UnframeMore(a: seq<uint8>, b: seq<uint8>)
    requires Unframe(a).Some?
    ensures Unframe(a + b) == Some(Unframed(Unframe(a).value.packet, Unframe(a).value.rest + b))
  {
    var size := FromBigEndian(a[..HEADER]);
    assert (a + b)[..HEADER] == a[..HEADER];
    assert (a + b)[HEADER..HEADER + size] == a[HEADER..HEADER + size];
    assert (a + b)[HEADER + size..] == a[HEADER + size..] + b;
  }

  /** Draining does not depend on how the bytes were cut into arrivals. */
  lemma {:induction false} DrainIsIncremental(a: seq<uint8>, b: seq<uint8>)
    ensures var t := Drain(Drain(a).rest + b);
            Drain(a + b) == Drained(Drain(a).packets + t.packets, t.rest)
    decreases |a|
  {
    if Unframe(a).Some? {
      var u := Unframe(a).value;
      UnframeMore(a, b);
      DrainIsIncremental(u.rest, b);
      Associative([u.packet], Drain(u.rest).packets, Drain(Drain(u.rest).rest + b).packets);
    } else {
      assert [] + Drain(a + b).packets == Drain(a + b).packets;
    }
  }

  /** Parsing arrivals as they come gives what parsing everything at once gives: `delivered` packets taken
      before and an `inbox` of bytes kept stand for all bytes `received`. */
  lemma ParsingGoesOn(received: seq<uint8>, delivered: seq<seq<uint8>>, inbox: seq<uint8>, more: seq<uint8>)
    requires Drain(received) == Drained(delivered + Drain(inbox).packets, Drain(inbox).rest)
    ensures Drain(received + more) == Drained(delivered + Drain(inbox + more).packets, Drain(inbox + more).rest)
  {
    var i := Drain(inbox);
    var t := Drain(i.rest + more);
    assert Drain(received + more) == Drained((delivered + i.packets) + t.packets, t.rest) by {
      DrainIsIncremental(received, more);
    }
    assert Drain(inbox + more) == Drained(i.packets + t.packets, t.rest) by {
      DrainIsIncremental(inbox, more);
    }
    Associative(delivered, i.packets, t.packets);
  }

  /** What is left after draining holds no complete packet. */
  lemma {:induction false} DrainLeavesNoPacket(stream: seq<uint8>)
    ensures Unframe(Drain(stream).rest) == None
    decreases |stream|
  {
    if Unframe(stream).Some? {
      DrainLeavesNoPacket(Unframe(stream).value.rest);
    }
  }

  // ---------------------------------------------------------------------------------------------
  // Sequences of packets
  // ---------------------------------------------------------------------------------------------

  lemma DrainFirst(first: seq<uint8>, rest: seq<uint8>)
    requires Sendable(first)
    ensures Drain(Frame(first) + rest) == Drained([first] + Drain(rest).packets, Drain(rest).rest)
  {
    FrameRoundTripIff(first, rest);
  }

  lemma FirstFrame(packets: seq<seq<uint8>>, rest: seq<uint8>)
    requires packets != []
    ensures FrameAll(packets) + rest == Frame(packets[0]) + (FrameAll(packets[1..]) + rest)
  {
    Associative(Frame(packets[0]), FrameAll(packets[1..]), rest);
  }

  lemma FirstInFront<T>(s: seq<T>, rest: seq<T>)
    requires s != []
    ensures [s[0]] + (s[1..] + rest) == s + rest
  {
  }

  lemma {:induction false} FramesDrain(packets: seq<seq<uint8>>, rest: seq<uint8>)
    requires forall p :: p in packets ==> Sendable(p)
    ensures Drain(FrameAll(packets) + rest) == Drained(packets + Drain(rest).packets, Drain(rest).rest)
  {
    var d := Drain(rest);
    if packets == [] {
      assert FrameAll(packets) + rest == rest && packets + d.packets == d.packets;
    } else {
      var first, others := packets[0], packets[1..];
      var stream := FrameAll(others) + rest;
      FirstFrame(packets, rest);
      FirstInFront(packets, d.packets);
      assert Drain(stream) == Drained(others + d.packets, d.rest) by {
        FramesDrain(others, rest);
      }
      DrainFirst(first, stream);
    }
  }

  /** A sequence of packets comes back whole, leaving nothing, exactly when each packet is sendable. */
  lemma {:induction false} FramesRoundTripIff(packets: seq<seq<uint8>>)
    ensures Drain(FrameAll(packets)) == Drained(packets, []) <==> forall p :: p in packets ==> Sendable(p)
  {
    if packets != [] {
      var first, others := packets[0], packets[1..];
      var rest := FrameAll(others);
      assert packets == [first] + others;
      if Sendable(first) {
        FramesRoundTripIff(others);
        DrainFirst(first, rest);
        assert ([first] + Drain(rest).packets)[1..] == Drain(rest).packets;
      } else {
        HeaderOfFrame(first, rest);
        assert Drain(Frame(first) + rest) != Drained(packets, []);
      }
    }
  }

  /** Whatever part of the stream has arrived, the packets taken from it are the first of those sent. */
  lemma ArrivedPacketsArePrefix(packets: seq<seq<uint8>>, arrived: seq<uint8>)
    requires forall p :: p in packets ==> Sendable(p)
    requires arrived <= FrameAll(packets)
    ensures Drain(arrived).packets <= packets
  {
    var missing := FrameAll(packets)[|arrived|..];
    assert FrameAll(packets) == arrived + missing;
    DrainIsIncremental(arrived, missing);
    assert FrameAll(packets) + [] == FrameAll(packets);
    FramesDrain(packets, []);
    assert packets + Drain([]).packets == packets;
  }

  // ---------------------------------------------------------------------------------------------
  // The stream as the source holds it
  // ---------------------------------------------------------------------------------------------

  /** A growable byte vector that others hold references to. */
  class ByteStream {
    var bytes: seq<uint8>

    constructor ()
      ensures bytes == []
    {
      bytes := [];
    }
  }

  method DeserializeHeader(stream: ByteStream) returns (size: nat)
    ensures size == if |stream.bytes| < HEADER then 0 else FromBigEndian(stream.bytes[..HEADER])
  {
    if |stream.bytes| < HEADER {
      return 0;
    }
    size := FromBigEndian(stream.bytes[..HEADER]);
  }

  /** Takes one packet off the stream; an empty (invalid) packet is returned, and the stream left alone, when
      there is none. */
  method Deserialize(stream: ByteStream) returns (packet: seq<uint8>)
    modifies stream
    ensures match old(Unframe(stream.bytes))
            case None => packet == [] && stream.bytes == old(stream.bytes)
            case Some(u) => packet == u.packet && packet != [] && stream.bytes == u.rest
  {
    var size := DeserializeHeader(stream);
    if size == 0 {
      return [];
    }
    if |stream.bytes| < size + HEADER {
      return [];
    }
    packet := stream.bytes[HEADER..HEADER + size];
    stream.bytes := stream.bytes[HEADER + size..];
  }

  method SerializeInto(packet: seq<uint8>, stream: ByteStream)
    modifies stream
    ensures stream.bytes == old(stream.bytes) + Frame(packet)
  {
    var size := |packet| % U32_COUNT;
    stream.bytes := stream.bytes + BigEndian(size);
    stream.bytes := stream.bytes + packet;
  }

  /** Deserializing until an invalid packet comes back drains the stream. */
  method DeserializeAll(stream: ByteStream) returns (packets: seq<seq<uint8>>)
    modifies stream
    ensures Drained(packets, stream.bytes) == old(Drain(stream.bytes))
  {
    packets := [];
    while true
      invariant Drained(packets + Drain(stream.bytes).packets, Drain(stream.bytes).rest) == old(Drain(stream.bytes))
      decreases |stream.bytes|
    {
      ghost var before := stream.bytes;
      var packet := Deserialize(stream);
      if packet == [] {
        return;
      }
      assert packets + ([packet] + Drain(stream.bytes).packets) == (packets + [packet]) + Drain(stream.bytes).packets;
      packets := packets + [packet];
    }
  }
}
