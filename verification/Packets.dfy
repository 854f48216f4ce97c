/** The packet object: a byte vector that writes append to, with a cursor that reads move. */
module Packets {
  import opened Bytes
  import opened PacketCodec
  import opened PacketLaws
  import opened Framing

  /** A read returns a value with the caller's flag, or, if the caller gave no flag, may end the program. */
  datatype Outcome = Terminated | Got(value: Val, valid: bool)

  class Packet {
    var data: seq<uint8>
    var readOffset: nat

    constructor (bytes: seq<uint8>)
      ensures data == bytes && readOffset == 0
    {
      data, readOffset := bytes, 0;
    }

    /** Writes a trivially copyable value byte by byte. */
    method WriteFixed(raw: seq<uint8>)
      modifies this`data
      ensures data == old(data) + raw
    {
      for b := 0 to |raw|
        invariant data == old(data) + raw[..b]
      {
        data := data + [raw[b]];
        assert raw[..b + 1] == raw[..b] + [raw[b]];
      }
      assert raw[..|raw|] == raw;
    }

    method WriteLength(n: nat)
      modifies this`data
      ensures data == old(data) + LittleEndian(n % U32_COUNT)
    {
      WriteFixed(LittleEndian(n % U32_COUNT));
    }

    /** The write overloads: a length and the bytes, or a length and each element in turn. */
    method Write(v: Val)
      modifies this`data
      ensures data == old(data) + Encode(v)
      decreases v
    {
      match v
      case FixedVal(bytes) =>
        WriteFixed(bytes);
      case StrVal(text) =>
        WriteLength(|text|);
        data := data + text;
      case PktVal(d) =>
        WriteLength(|d|);
        data := data + d;
      case VecVal(es) =>
        WriteLength(|es|);
        ghost var head := data;
        for i := 0 to |es|
          invariant data == head + EncodeAll(es[..i])
        {
          Write(es[i]);
          assert es[..i + 1][..i] == es[..i];
        }
        assert es[..|es|] == es;
    }

    method CanReadCheck(size: nat) returns (ok: bool)
      ensures ok == CanRead(data, readOffset, size)
    {
      ok := !(readOffset + size > |data|);
    }

    /** The part of every read that gets the length in front. */
    method ReadLength(checked: bool) returns (terminated: bool, len: nat, valid: bool)
      modifies this`readOffset
      ensures terminated <==> !checked && !old(CanRead(data, readOffset, 4))
      ensures valid == old(CanRead(data, readOffset, 4)) && len == Length(data, old(readOffset))
      ensures readOffset == if valid then old(readOffset) + 4 else old(readOffset)
    {
      var ok := CanReadCheck(4);
      if !ok {
        return !checked, 0, false;
      }
      len := FromLittleEndian(data[readOffset..readOffset + 4]);
      readOffset := readOffset + 4;
      return false, len, true;
    }

    /** Reads a value of the given type at the cursor. With a flag the read always returns; without one the
        program ends exactly when a size check fails. */
    method Read(ty: Ty, checked: bool) returns (r: Outcome)
      modifies this`readOffset
      ensures var s := PacketCodec.Read(ty, data, old(readOffset));
              if checked || s.clean then r == Got(s.value, s.valid) && readOffset == s.offset else r == Terminated
      decreases ty, 0
    {
      ReadStaysInside(ty, data, readOffset);
      if ty.Fixed? {
        var ok := CanReadCheck(ty.size);
        if !ok {
          return if checked then Got(FixedVal(Zeros(ty.size)), false) else Terminated;
        }
        var value := data[readOffset..readOffset + ty.size];
        readOffset := readOffset + ty.size;
        return Got(FixedVal(value), true);
      }
      if ty.Vec? {
        CleanVectorHasLength(ty.elem, data, readOffset);
      }
      var stop, len, valid := ReadLength(checked);
      if stop {
        return Terminated;
      }
      var ok := CanReadCheck(len);
      if !ok {
        var none := if ty.Str? then StrVal([]) else if ty.Pkt? then PktVal([]) else VecVal([]);
        return if checked then Got(none, false) else Terminated;
      }
      match ty
      case Str =>
        r := Got(StrVal(data[readOffset..readOffset + len]), valid);
        readOffset := readOffset + len;
      case Pkt =>
        r := Got(PktVal(data[readOffset..readOffset + len]), valid);
      case Vec(elem) =>
        r := ReadVector(elem, len, valid, checked);
    }

    method ReadVector(elem: Ty, len: nat, flag: bool, checked: bool) returns (r: Outcome)
      requires checked || flag
      modifies this`readOffset
      ensures var s := ReadElems(elem, len, data, old(readOffset), flag);
              if checked || s.clean then r == Got(VecVal(s.values), s.valid) && readOffset == s.offset
              else r == Terminated
      decreases elem, 1
    {
      var vec: seq<Val> := [];
      var valid := flag;
      ghost var start := readOffset;
      for i := 0 to len
        invariant Readings(vec, readOffset, valid, ReadElems(elem, i, data, start, flag).clean)
               == ReadElems(elem, i, data, start, flag)
        invariant checked || ReadElems(elem, i, data, start, flag).clean
      {
        var e := Read(elem, checked);
        if e.Terminated? {
          UncleanStaysUnclean(elem, i + 1, len, data, start, flag);
          return Terminated;
        }
        vec, valid := vec + [e.value], e.valid;
      }
      r := Got(VecVal(vec), valid);
    }

    /** Empties the packet. The cursor stays where it is. */
    method Clear()
      modifies this`data
      ensures data == []
    {
      data := [];
    }

    method IsValid() returns (valid: bool)
      ensures valid <==> data != []
    {
      valid := data != [];
    }

    method SerializeIntoStream(stream: ByteStream)
      modifies stream
      ensures stream.bytes == old(stream.bytes) + Frame(data)
    {
      SerializeInto(data, stream);
    }
  }

  lemma CleanVectorHasLength(elem: Ty, data: seq<uint8>, offset: nat)
    ensures PacketCodec.Read(Vec(elem), data, offset).clean ==> CanRead(data, offset, 4)
  {
    if PacketCodec.Read(Vec(elem), data, offset).clean {
      var len := CleanVectorHead(elem, data, offset);
    }
  }

  lemma {:induction false} UncleanStaysUnclean(ty: Ty, i: nat, n: nat, data: seq<uint8>, offset: nat, flag: bool)
    requires i <= n && !ReadElems(ty, i, data, offset, flag).clean
    ensures !ReadElems(ty, n, data, offset, flag).clean
  {
    if i < n {
      UncleanStaysUnclean(ty, i, n - 1, data, offset, flag);
    }
  }

  /** The whole way of a list of values: written into a packet, framed behind other traffic's remains, taken
      off the stream and read by type. */
  method SendValues(vs: seq<Val>, tys: seq<Ty>) returns (got: seq<Val>, allValid: bool)
    requires Matches(vs, tys) && Sendable(EncodeAll(vs)) && Listable(tys)
    ensures got == vs && allValid
  {
    var outgoing := new Packet([]);
    for i := 0 to |vs|
      invariant fresh(outgoing) && outgoing.data == EncodeAll(vs[..i])
    {
      outgoing.Write(vs[i]);
      assert vs[..i + 1][..i] == vs[..i];
    }
    assert vs[..|vs|] == vs;
    var stream := new ByteStream();
    outgoing.SerializeIntoStream(stream);
    FrameRoundTripIff(outgoing.data, []);
    assert Frame(outgoing.data) + [] == stream.bytes;
    var bytes := Deserialize(stream);
    var incoming := new Packet(bytes);
    allValid := incoming.IsValid();
    got := [];
    for i := 0 to |tys|
      invariant fresh(incoming) && incoming.data == bytes
      invariant var r := ReadList(tys[..i], bytes, 0);
                got == r.values && incoming.readOffset == r.offset && allValid == r.valid
    {
      var r := incoming.Read(tys[i], true);
      assert tys[..i + 1][..i] == tys[..i];
      got, allValid := got + [r.value], allValid && r.valid;
    }
    assert tys[..|tys|] == tys;
    ListReadsBack(vs, tys, bytes, 0);
  }
}
