/** How far the codec's promises reach: which values round-trip, when the caller's flag tells the truth, and
    how lists of values share one packet. */
module PacketLaws {
  import opened Bytes
  import opened PacketCodec

  // ---------------------------------------------------------------------------------------------
  // Which values round-trip
  // ---------------------------------------------------------------------------------------------

  /** A value of a type with no packet inside a vector is read back, all flags true. */
  lemma AnyReadsBack(v: Val, ty: Ty, data: seq<uint8>, offset: nat)
    requires HasType(v, ty) && Small(v) && (Advancing(ty) || ty.Pkt?) && BytesAt(Encode(v), data, offset)
    ensures Read(ty, data, offset) == Reading(v, offset + if ty.Pkt? then 4 else |Encode(v)|, true, true)
  {
    if ty.Pkt? {
      PacketReadsBack(v, data, offset);
    } else {
      ReadsBack(v, ty, data, offset);
    }
  }

  /** A written value met at the cursor is read back, with no failed check, exactly when it is spelled there. If
      its type has no packet inside a vector, it is read back exactly when all its lengths fit 32 bits. */
  lemma RoundTripIff(v: Val, ty: Ty, data: seq<uint8>, offset: nat)
    requires HasType(v, ty) && BytesAt(Encode(v), data, offset)
    ensures Read(ty, data, offset).value == v && Read(ty, data, offset).clean <==> Spelled(v, data, offset)
    ensures Advancing(ty) || ty.Pkt? ==> (Read(ty, data, offset).value == v <==> Small(v))
  {
    ReadsIffSpelled(v, ty, data, offset);
    if !(Advancing(ty) || ty.Pkt?) {
      return;
    }
    if !Small(v) {
      LongValueMisreads(v, ty, data, offset);
    } else {
      AnyReadsBack(v, ty, data, offset);
    }
  }

  lemma {:induction false} LongValueMisreads(v: Val, ty: Ty, data: seq<uint8>, offset: nat)
    requires HasType(v, ty) && (Advancing(ty) || ty.Pkt?) && BytesAt(Encode(v), data, offset) && !Small(v)
    ensures Read(ty, data, offset).value != v
    decreases v, 1
  {
    match v
    case FixedVal(_) =>
    case StrVal(text) =>
      LengthReadsBack(|text|, text, data, offset);
    case PktVal(d) =>
      LengthReadsBack(|d|, d, data, offset);
    case VecVal(es) =>
      if |es| < U32_COUNT {
        VectorHeadReadsBack(es, ty.elem, data, offset);
        LongElementMisreads(es, ty.elem, data, offset + 4);
      } else {
        LengthReadsBack(|es|, EncodeAll(es), data, offset);
        ReadElemsStayInside(ty.elem, Length(data, offset), data, offset + 4, true);
      }
  }

  lemma {:induction false} LongElementMisreads(vs: seq<Val>, ty: Ty, data: seq<uint8>, offset: nat)
    requires AllHaveType(vs, ty) && !AllSmall(vs)
    requires Advancing(ty) && BytesAt(EncodeAll(vs), data, offset)
    ensures ReadElems(ty, |vs|, data, offset, true).values != vs
    decreases vs, 0
  {
    var before, last := vs[..|vs| - 1], vs[|vs| - 1];
    SplitBytesAt(EncodeAll(before), Encode(last), data, offset);
    var r := ReadElems(ty, |before|, data, offset, true);
    var end := Read(ty, data, r.offset);
    assert r.values != before || end.value != last by {
      if !AllSmall(before) {
        LongElementMisreads(before, ty, data, offset);
      } else {
        LongLastMisreads(before, last, ty, data, offset);
      }
    }
    assert |r.values| == |before| by {
      ReadElemsStayInside(ty, |before|, data, offset, true);
    }
    LastDiffers(vs, r.values, end.value);
  }

  lemma {:induction false} LongLastMisreads(before: seq<Val>, last: Val, ty: Ty, data: seq<uint8>, offset: nat)
    requires AllHaveType(before, ty) && AllSmall(before) && HasType(last, ty) && !Small(last) && Advancing(ty)
    requires BytesAt(EncodeAll(before), data, offset) && BytesAt(Encode(last), data, offset + |EncodeAll(before)|)
    ensures Read(ty, data, ReadElems(ty, |before|, data, offset, true).offset).value != last
    decreases last, 2
  {
    var at := ReadElems(ty, |before|, data, offset, true).offset;
    assert at == offset + |EncodeAll(before)| by {
      ElemsReadBack(before, ty, data, offset);
    }
    LongValueMisreads(last, ty, data, at);
  }

  lemma LastDiffers(vs: seq<Val>, before: seq<Val>, last: Val)
    requires |vs| == |before| + 1 && (vs[..|before|] != before || vs[|before|] != last)
    ensures before + [last] != vs
  {
    assert (before + [last])[..|before|] == before;
  }

  // ---------------------------------------------------------------------------------------------
  // When the flag tells the truth
  // ---------------------------------------------------------------------------------------------

  /** Reading this type, the flag is true exactly when a complete encoding was there. */
  ghost predicate FlagIsExact(ty: Ty) {
    forall data, offset: nat :: Read(ty, data, offset).valid <==> Complete(ty, data, offset)
  }

  /** The flag tells the truth for everything but vectors of anything other than fixed-size elements, where a
      later element that reads well hides an earlier one that did not. */
  lemma FlagIsExactIff(ty: Ty)
    ensures FlagIsExact(ty) <==> (ty.Vec? ==> ty.elem.Fixed?)
  {
    if ty.Vec? && !ty.elem.Fixed? {
      HiddenFailure(ty.elem);
    } else {
      forall data, offset: nat
        ensures Read(ty, data, offset).valid <==> Complete(ty, data, offset)
      {
        CleanIffComplete(ty, data, offset);
        if ty.Vec? && CanRead(data, offset, 4) {
          FixedElemsFlag(ty.elem.size, Length(data, offset), data, offset + 4);
        }
      }
    }
  }

  /** Once a fixed-size element is missing, so are all that follow. */
  lemma {:induction false} FixedElemsFlag(size: pos, n: nat, data: seq<uint8>, offset: nat)
    ensures var r := ReadElems(Fixed(size), n, data, offset, true);
            (r.valid <==> r.clean) && (!r.valid ==> r.offset + size > |data|)
  {
    if n > 0 {
      FixedElemsFlag(size, n - 1, data, offset);
    }
  }

  /** Two elements are announced. The first announces five bytes (or elements) that are not there; the second
      is empty. */
  function HiddenFailureBytes(): seq<uint8> {
    LittleEndian(2) + LittleEndian(5) + LittleEndian(0)
  }

  lemma HiddenFailure(elem: Ty)
    requires !elem.Fixed?
    ensures Read(Vec(elem), HiddenFailureBytes(), 0).valid
    ensures !Complete(Vec(elem), HiddenFailureBytes(), 0)
  {
    LengthsOfHiddenFailure();
    HiddenFailureReadsAsValid(elem, HiddenFailureBytes());
    forall v | HasType(v, Vec(elem)) && Small(v)
      ensures !BytesAt(Encode(v), HiddenFailureBytes(), 0)
    {
      HiddenFailureIsIncomplete(elem, v, HiddenFailureBytes());
    }
  }

  lemma LengthsOfHiddenFailure()
    ensures var d := HiddenFailureBytes();
            |d| == 12 && Length(d, 0) == 2 && Length(d, 4) == 5 && Length(d, 8) == 0
  {
    var d := HiddenFailureBytes();
    assert d[0..4] == LittleEndian(2) && d[4..8] == LittleEndian(5) && d[8..12] == LittleEndian(0);
    LittleEndianRoundTrip(2);
    LittleEndianRoundTrip(5);
    LittleEndianRoundTrip(0);
  }

  lemma TwoElems(ty: Ty, data: seq<uint8>, offset: nat)
    ensures var first := Read(ty, data, offset);
            var second := Read(ty, data, first.offset);
            ReadElems(ty, 2, data, offset, true)
            == Readings([first.value, second.value], second.offset, second.valid, first.clean && second.clean)
  {
    var none := ReadElems(ty, 0, data, offset, true);
    var one := ReadElems(ty, 1, data, offset, true);
    assert none == Readings([], offset, true, true);
    assert one.values == [Read(ty, data, offset).value];
  }

  lemma HiddenFailureReadsAsValid(elem: Ty, d: seq<uint8>)
    requires !elem.Fixed? && |d| == 12 && Length(d, 0) == 2 && Length(d, 4) == 5 && Length(d, 8) == 0
    ensures Read(Vec(elem), d, 0).valid
  {
    assert Read(elem, d, 4).offset == 8;
    assert Read(elem, d, 8).valid by {
      if elem.Vec? {
        assert ReadElems(elem.elem, 0, d, 12, true).valid;
      }
    }
    TwoElems(elem, d, 4);
  }

  /** An encoding is at least as long as the length at its start announces. */
  lemma AnnouncedSize(v: Val, ty: Ty, data: seq<uint8>, offset: nat)
    requires !ty.Fixed? && HasType(v, ty) && Small(v) && BytesAt(Encode(v), data, offset)
    ensures |Encode(v)| >= 4 + Length(data, offset)
  {
    match v
    case StrVal(text) =>
      AnnouncedBody(|text|, text, data, offset);
    case PktVal(d) =>
      AnnouncedBody(|d|, d, data, offset);
    case VecVal(es) =>
      EncodingsAreNotEmpty(es, ty.elem);
      AnnouncedBody(|es|, EncodeAll(es), data, offset);
  }

  lemma AnnouncedBody(n: nat, body: seq<uint8>, data: seq<uint8>, offset: nat)
    requires n < U32_COUNT && n <= |body| && BytesAt(LittleEndian(n % U32_COUNT) + body, data, offset)
    ensures |LittleEndian(n % U32_COUNT) + body| >= 4 + Length(data, offset)
  {
    LengthReadsBack(n, body, data, offset);
  }

  lemma EncodeTwo(a: Val, b: Val)
    ensures EncodeAll([a, b]) == Encode(a) + Encode(b)
  {
    assert [a, b][..1] == [a] && [a][..0] == [];
    assert EncodeAll([a]) == EncodeAll([]) + Encode(a);
  }

  /** Twelve bytes that announce two elements, the first of them of length five, encode no such vector. */
  lemma HiddenFailureIsIncomplete(elem: Ty, v: Val, d: seq<uint8>)
    requires !elem.Fixed? && HasType(v, Vec(elem)) && Small(v)
    requires |d| == 12 && Length(d, 0) == 2 && Length(d, 4) == 5
    ensures !BytesAt(Encode(v), d, 0)
  {
    if BytesAt(Encode(v), d, 0) {
      LengthReadsBack(|v.elems|, EncodeAll(v.elems), d, 0);
      var first, second := v.elems[0], v.elems[1];
      EncodeTwo(first, second);
      assert v.elems == [first, second];
      SplitBytesAt(Encode(first), Encode(second), d, 4);
      AnnouncedSize(first, elem, d, 4);
    }
  }

  // ---------------------------------------------------------------------------------------------
  // What a failed read leaves
  // ---------------------------------------------------------------------------------------------

  /** The default value of a type. */
  function Default(ty: Ty): Val {
    match ty
    case Fixed(n) => FixedVal(seq(n, _ => 0))
    case Str => StrVal([])
    case Vec(_) => VecVal([])
    case Pkt => PktVal([])
  }

  /** What a read yields whose own size check fails: the type's default value, a false flag, and the cursor where it
      was, or behind the length if there is one. A value of fixed size needs its bytes, anything else four bytes
      of length and then as many bytes as that length says. */
  lemma FailedRead(ty: Ty, data: seq<uint8>, offset: nat)
    ensures ty.Fixed? && offset + ty.size > |data| ==>
              Read(ty, data, offset) == Reading(Default(ty), offset, false, false)
    ensures !ty.Fixed? && offset + 4 > |data| ==> Read(ty, data, offset) == Reading(Default(ty), offset, false, false)
    ensures !ty.Fixed? && offset + 4 <= |data|
            && FromLittleEndian(data[offset..offset + 4]) > |data| - offset - 4 ==>
              Read(ty, data, offset) == Reading(Default(ty), offset + 4, false, false)
  {
    if offset <= |data| < offset + 4 {
      assert data[offset..offset] == [];
    }
  }

  // ---------------------------------------------------------------------------------------------
  // Several values in one packet
  // ---------------------------------------------------------------------------------------------

  /** Reading the listed types one after the other, each with its own flag. */
  function ReadList(tys: seq<Ty>, data: seq<uint8>, offset: nat): (r: Readings)
    ensures |r.values| == |tys|
  {
    if tys == [] then Readings([], offset, true, true)
    else
      var before := ReadList(tys[..|tys| - 1], data, offset);
      var last := Read(tys[|tys| - 1], data, before.offset);
      Readings(before.values + [last.value], last.offset, before.valid && last.valid, before.clean && last.clean)
  }

  ghost predicate Matches(vs: seq<Val>, tys: seq<Ty>) {
    |vs| == |tys| && forall i :: 0 <= i < |vs| ==> HasType(vs[i], tys[i]) && Small(vs[i])
  }

  /** A packet at most in the last place, and none inside a vector. */
  predicate Listable(tys: seq<Ty>) {
    && (forall i :: 0 <= i < |tys| - 1 ==> Advancing(tys[i]))
    && (tys != [] ==> Advancing(tys[|tys| - 1]) || tys[|tys| - 1].Pkt?)
  }

  /** Values written one after the other are read back by their types in the same order, all flags true, if a
      packet is embedded at most in the last place. */
  lemma {:induction false} ListReadsBack(vs: seq<Val>, tys: seq<Ty>, data: seq<uint8>, offset: nat)
    requires Matches(vs, tys) && BytesAt(EncodeAll(vs), data, offset) && Listable(tys)
    ensures var r := ReadList(tys, data, offset);
            && r.values == vs && r.valid && r.clean
            && (tys == [] || !tys[|tys| - 1].Pkt? ==> r.offset == offset + |EncodeAll(vs)|)
  {
    if vs != [] {
      var last := |vs| - 1;
      var before, at := vs[..last], offset + |EncodeAll(vs[..last])|;
      SplitBytesAt(EncodeAll(before), Encode(vs[last]), data, offset);
      assert ReadList(tys[..last], data, offset) == Readings(before, at, true, true) by {
        ListReadsBack(before, tys[..last], data, offset);
      }
      assert before + [vs[last]] == vs;
      AnyReadsBack(vs[last], tys[last], data, at);
    }
  }

  // ---------------------------------------------------------------------------------------------
  // Which types come back
  // ---------------------------------------------------------------------------------------------

  /** Two one-byte packets. */
  const ONE: Val := PktVal([1])
  const TWO: Val := PktVal([2])

  /** At any cursor, a vector of two one-byte packets does not come back: the second is looked for inside the
      first, where its length reads as 257 or more. */
  lemma PacketVectorMisreads(data: seq<uint8>, offset: nat)
    requires BytesAt(Encode(VecVal([ONE, TWO])), data, offset)
    ensures HasType(VecVal([ONE, TWO]), Vec(Pkt)) && Small(VecVal([ONE, TWO]))
    ensures Read(Vec(Pkt), data, offset).value != VecVal([ONE, TWO])
  {
    var at := offset + 4;
    VectorHeadReadsBack([ONE, TWO], Pkt, data, offset);
    assert BytesAt(Encode(ONE), data, at) && BytesAt(Encode(TWO), data, at + 5) by {
      EncodeTwo(ONE, TWO);
      SplitBytesAt(Encode(ONE), Encode(TWO), data, at);
    }
    assert Read(Pkt, data, at).offset == at + 4 by {
      PacketReadsBack(ONE, data, at);
    }
    assert Read(Pkt, data, at + 4).value != TWO by {
      SecondLengthIsWrong(data, at);
    }
    TwoElems(Pkt, data, at);
  }

  lemma SecondLengthIsWrong(d: seq<uint8>, at: nat)
    requires BytesAt(LittleEndian(1) + [1], d, at) && BytesAt(LittleEndian(1) + [2], d, at + 5)
    ensures CanRead(d, at + 4, 4) && Length(d, at + 4) >= 257
  {
    var field := d[at + 4..at + 8];
    assert field[0] == d[at..at + 5][4] == 1;
    assert field[1] == d[at + 5..at + 10][0] == LittleEndian(1)[0] == 1;
    assert Length(d, at + 4) == FromDigits(field) == field[0] as int + 256 * FromDigits(field[1..]);
    assert FromDigits(field[1..]) == field[1] as int + 256 * FromDigits(field[1..][1..]);
  }

  /** Two packets in a vector, inside as many one-element vectors as the type asks for. */
  function Wrapped(ty: Ty): Val {
    if ty.Vec? && ty.elem.Vec? then VecVal([Wrapped(ty.elem)]) else VecVal([ONE, TWO])
  }

  lemma {:induction false} WrappedMisreads(ty: Ty, data: seq<uint8>, offset: nat)
    requires !Advancing(ty) && !ty.Pkt? && BytesAt(Encode(Wrapped(ty)), data, offset)
    ensures Read(ty, data, offset).value != Wrapped(ty)
    decreases ty
  {
    WrappedIsSmall(ty);
    if ty.elem.Vec? {
      var w := Wrapped(ty.elem);
      assert [w][..0] == [] && EncodeAll([w]) == EncodeAll([]) + Encode(w) == Encode(w);
      VectorHeadReadsBack([w], ty.elem, data, offset);
      WrappedMisreads(ty.elem, data, offset + 4);
      var none := ReadElems(ty.elem, 0, data, offset + 4, true);
      assert ReadElems(ty.elem, 1, data, offset + 4, true).values == [Read(ty.elem, data, offset + 4).value];
    } else {
      PacketVectorMisreads(data, offset);
    }
  }

  lemma {:induction false} WrappedIsSmall(ty: Ty)
    requires !Advancing(ty) && !ty.Pkt?
    ensures HasType(Wrapped(ty), ty) && Small(Wrapped(ty))
  {
    if ty.elem.Vec? {
      WrappedIsSmall(ty.elem);
    }
  }

  /** All values of a type with lengths below 2^32 are read back, wherever they are met. */
  ghost predicate TypeRoundTrips(ty: Ty) {
    forall v, data, offset: nat :: HasType(v, ty) && Small(v) && BytesAt(Encode(v), data, offset) ==>
      Read(ty, data, offset).value == v
  }

  /** They are exactly when the type holds no packet inside a vector. */
  lemma TypeRoundTripsIff(ty: Ty)
    ensures TypeRoundTrips(ty) <==> Advancing(ty) || ty.Pkt?
  {
    if Advancing(ty) || ty.Pkt? {
      forall v, data, offset: nat | HasType(v, ty) && Small(v) && BytesAt(Encode(v), data, offset)
        ensures Read(ty, data, offset).value == v
      {
        RoundTripIff(v, ty, data, offset);
      }
    } else {
      var v := Wrapped(ty);
      WrappedIsSmall(ty);
      assert BytesAt(Encode(v), Encode(v), 0);
      WrappedMisreads(ty, Encode(v), 0);
    }
  }

  // ---------------------------------------------------------------------------------------------
  // Which values come back where, packets inside vectors included
  // ---------------------------------------------------------------------------------------------

  /** The bytes that the cursor passes in a value: of an embedded packet, its length alone. */
  function Passed(v: Val): nat
    decreases v, 1
  {
    match v
    case FixedVal(bytes) => |bytes|
    case StrVal(text) => 4 + |text|
    case VecVal(es) => 4 + PassedAll(es)
    case PktVal(_) => 4
  }

  function PassedAll(vs: seq<Val>): nat
    decreases vs, 0
  {
    if vs == [] then 0 else PassedAll(vs[..|vs| - 1]) + Passed(vs[|vs| - 1])
  }

  /** The parts of the value are spelled where the cursor meets them: a vector's length, then its elements, each
      behind what the cursor passes in those before it. So an element overlaps the packet in front of it. */
  ghost predicate Spelled(v: Val, data: seq<uint8>, offset: nat)
    decreases v, 1
  {
    match v
    case VecVal(es) =>
      && |es| < U32_COUNT && BytesAt(LittleEndian(|es|), data, offset) && CanRead(data, offset + 4, |es|)
      && AllSpelled(es, data, offset + 4)
    case _ => Small(v) && BytesAt(Encode(v), data, offset)
  }

  ghost predicate AllSpelled(vs: seq<Val>, data: seq<uint8>, offset: nat)
    decreases vs, 0
  {
    vs == [] ||
    var before, last := vs[..|vs| - 1], vs[|vs| - 1];
    AllSpelled(before, data, offset) && Spelled(last, data, offset + PassedAll(before))
  }

  /** For every type, every value of it and any bytes: the value is read with no failed check exactly when it is
      spelled there. */
  lemma {:induction false} ReadsIffSpelled(v: Val, ty: Ty, data: seq<uint8>, offset: nat)
    requires HasType(v, ty)
    ensures var r := Read(ty, data, offset);
            && (r.value == v && r.clean <==> Spelled(v, data, offset))
            && (r.value == v && r.clean ==> r.offset == offset + Passed(v))
    decreases v, 1
  {
    if v.VecVal? {
      VectorReadsIffSpelled(v.elems, ty.elem, data, offset);
    } else {
      if Read(ty, data, offset).clean {
        CleanIsEncoded(ty, data, offset);
      }
      if Spelled(v, data, offset) {
        AnyReadsBack(v, ty, data, offset);
      }
    }
  }

  lemma {:induction false} VectorReadsIffSpelled(es: seq<Val>, ty: Ty, data: seq<uint8>, offset: nat)
    requires AllHaveType(es, ty)
    ensures var r := Read(Vec(ty), data, offset);
            && (r.value == VecVal(es) && r.clean <==> Spelled(VecVal(es), data, offset))
            && (r.value == VecVal(es) && r.clean ==> r.offset == offset + Passed(VecVal(es)))
    decreases es, 1
  {
    ElemsReadIffSpelled(es, ty, data, offset + 4);
    if Read(Vec(ty), data, offset).clean {
      var len := CleanVectorHead(ty, data, offset);
      assert |ReadElems(ty, len, data, offset + 4, true).values| == len by {
        ReadElemsStayInside(ty, len, data, offset + 4, true);
      }
      assert BytesAt(LittleEndian(len), data, offset) by {
        LittleEndianIsOnto(data[offset..offset + 4]);
      }
    }
    if Spelled(VecVal(es), data, offset) {
      LittleEndianRoundTrip(|es|);
    }
  }

  lemma {:induction false} ElemsReadIffSpelled(vs: seq<Val>, ty: Ty, data: seq<uint8>, offset: nat)
    requires AllHaveType(vs, ty)
    ensures AllReadIffSpelled(ReadElems(ty, |vs|, data, offset, true), vs, data, offset)
    decreases vs, 0
  {
    if vs != [] {
      var before, last := vs[..|vs| - 1], vs[|vs| - 1];
      var r := ReadElems(ty, |before|, data, offset, true);
      assert |r.values| == |before| by {
        ReadElemsStayInside(ty, |before|, data, offset, true);
      }
      ElemsReadIffSpelled(before, ty, data, offset);
      ReadsIffSpelled(last, ty, data, r.offset);
      OneMoreReadIffSpelled(r, Read(ty, data, r.offset), vs, data, offset);
    }
  }

  /** The values are what was read, with no failed check, exactly when they are spelled at the offset. */
  ghost predicate AllReadIffSpelled(r: Readings, vs: seq<Val>, data: seq<uint8>, offset: nat) {
    && (r.values == vs && r.clean <==> AllSpelled(vs, data, offset))
    && (r.values == vs && r.clean ==> r.offset == offset + PassedAll(vs))
  }

  lemma OneMoreReadIffSpelled(r: Readings, end: Reading, vs: seq<Val>, data: seq<uint8>, offset: nat)
    requires |vs| == |r.values| + 1 && AllReadIffSpelled(r, vs[..|r.values|], data, offset)
    requires end.value == vs[|r.values|] && end.clean <==> Spelled(vs[|r.values|], data, r.offset)
    requires end.value == vs[|r.values|] && end.clean ==> end.offset == r.offset + Passed(vs[|r.values|])
    ensures var all := Readings(r.values + [end.value], end.offset, end.valid, r.clean && end.clean);
            AllReadIffSpelled(all, vs, data, offset)
  {
    assert vs == vs[..|r.values|] + [vs[|r.values|]];
    assert r.values + [end.value] == vs <==> r.values == vs[..|r.values|] && end.value == vs[|r.values|];
  }

  /** Every packet is spelled four bytes behind the one before it. */
  ghost predicate Overlaid(ps: seq<Val>, data: seq<uint8>, offset: nat) {
    forall k :: 0 <= k < |ps| ==> BytesAt(Encode(ps[k]), data, offset + 4 * k)
  }

  /** A written vector of packets is read back with no failed check exactly when the packets overlay each other:
      the data of each must begin with the encoding of the next. */
  lemma PacketVectorReadsBackIff(ps: seq<Val>, data: seq<uint8>, offset: nat)
    requires HasType(VecVal(ps), Vec(Pkt)) && Small(VecVal(ps)) && BytesAt(Encode(VecVal(ps)), data, offset)
    ensures var r := Read(Vec(Pkt), data, offset);
            r.value == VecVal(ps) && r.clean <==> Overlaid(ps, data, offset + 4)
  {
    VectorHeadReadsBack(ps, Pkt, data, offset);
    ElemsReadIffSpelled(ps, Pkt, data, offset + 4);
    OverlaidIsSpelled(ps, data, offset + 4);
  }

  lemma {:induction false} OverlaidIsSpelled(ps: seq<Val>, data: seq<uint8>, offset: nat)
    requires AllHaveType(ps, Pkt) && AllSmall(ps)
    ensures PassedAll(ps) == 4 * |ps|
    ensures AllSpelled(ps, data, offset) <==> Overlaid(ps, data, offset)
  {
    if ps != [] {
      OverlaidIsSpelled(ps[..|ps| - 1], data, offset);
    }
  }

  // ---------------------------------------------------------------------------------------------
  // Which lists of types come back
  // ---------------------------------------------------------------------------------------------

  /** All values that match the types are read back from the packet they were written into. */
  ghost predicate ListRoundTrips(tys: seq<Ty>) {
    forall vs :: Matches(vs, tys) ==> ReadList(tys, EncodeAll(vs), 0).values == vs
  }

  /** A value that is not what an unexpected length of zero, or a byte 1 in front, makes of the type. */
  function Odd(ty: Ty): Val {
    match ty
    case Fixed(n) => FixedVal(Zeros(n))
    case Str => StrVal([7])
    case Vec(e) => VecVal([Default(e)])
    case Pkt => PktVal([7])
  }

  lemma OddMatches(ty: Ty)
    ensures HasType(Default(ty), ty) && Small(Default(ty)) && HasType(Odd(ty), ty) && Small(Odd(ty))
  {
    if ty.Vec? {
      assert HasType(Default(ty.elem), ty.elem) && Small(Default(ty.elem));
    }
  }

  /** Packet data in which a read of the given type goes astray. */
  function Lure(next: Ty): seq<uint8> {
    if next.Fixed? then [1] else LittleEndian(0)
  }

  lemma LureMisleads(next: Ty, data: seq<uint8>, offset: nat)
    requires BytesAt(Lure(next), data, offset)
    requires offset + |Lure(next)| + |Encode(Odd(next))| <= |data|
    ensures Read(next, data, offset).value != Odd(next)
  {
    var lure := Lure(next);
    if next.Fixed? {
      assert data[offset] == data[offset..offset + 1][0] == 1;
    } else {
      assert data[offset..offset + 4] == lure;
      LittleEndianRoundTrip(0);
      assert Length(data, offset) == 0;
      if next.Vec? {
        ReadElemsStayInside(next.elem, 0, data, offset + 4, true);
      }
    }
  }

  /** What is written first is at the front. */
  lemma {:induction false} WrittenFirst(vs: seq<Val>, k: nat)
    requires k <= |vs|
    ensures EncodeAll(vs[..k]) <= EncodeAll(vs)
  {
    if k < |vs| {
      WrittenFirst(vs[..|vs| - 1], k);
      assert vs[..|vs| - 1][..k] == vs[..k];
    } else {
      assert vs[..k] == vs;
    }
  }

  lemma WrittenAt(vs: seq<Val>, k: nat)
    requires k < |vs|
    ensures BytesAt(Encode(vs[k]), EncodeAll(vs), |EncodeAll(vs[..k])|)
    ensures |EncodeAll(vs[..k + 1])| == |EncodeAll(vs[..k])| + |Encode(vs[k])|
  {
    WrittenFirst(vs, k + 1);
    assert vs[..k + 1][..k] == vs[..k];
    SplitBytesAt(EncodeAll(vs[..k]), Encode(vs[k]), EncodeAll(vs), 0);
  }

  lemma {:induction false} ReadFirst(tys: seq<Ty>, k: nat, data: seq<uint8>)
    requires k < |tys|
    ensures ReadList(tys, data, 0).values[k] == Read(tys[k], data, ReadList(tys[..k], data, 0).offset).value
  {
    if k < |tys| - 1 {
      ReadFirst(tys[..|tys| - 1], k, data);
      assert tys[..|tys| - 1][..k] == tys[..k];
    }
  }

  /** Default values, but for `v` at position `k` and, behind it, the odd value of its type. */
  function Spoiled(tys: seq<Ty>, k: nat, v: Val): (vs: seq<Val>)
    ensures |vs| == |tys|
  {
    seq(|tys|, i requires 0 <= i < |tys| => if i == k then v else if i == k + 1 then Odd(tys[i]) else Default(tys[i]))
  }

  lemma SpoiledMatches(tys: seq<Ty>, k: nat, v: Val)
    requires k < |tys| && HasType(v, tys[k]) && Small(v)
    ensures Matches(Spoiled(tys, k, v), tys)
  {
    forall i | 0 <= i < |tys|
      ensures HasType(Spoiled(tys, k, v)[i], tys[i]) && Small(Spoiled(tys, k, v)[i])
    {
      OddMatches(tys[i]);
    }
  }

  /** The values in front of position `k` are read back, so the read of position `k` starts where it should. */
  lemma ReachesPosition(vs: seq<Val>, tys: seq<Ty>, k: nat)
    requires Matches(vs, tys) && k <= |tys| && forall i :: 0 <= i < k ==> Advancing(tys[i])
    ensures ReadList(tys[..k], EncodeAll(vs), 0).offset == |EncodeAll(vs[..k])|
  {
    WrittenFirst(vs, k);
    ListReadsBack(vs[..k], tys[..k], EncodeAll(vs), 0);
  }

  /** A type that does not advance the cursor, first in its list, spoils the list if it is no packet, or if
      anything follows it. */
  lemma FirstBadTypeSpoils(tys: seq<Ty>, k: nat)
    requires k < |tys| && !Advancing(tys[k]) && (forall i :: 0 <= i < k ==> Advancing(tys[i]))
    requires tys[k].Pkt? ==> k + 1 < |tys|
    ensures !ListRoundTrips(tys)
  {
    var v := if tys[k].Pkt? then PktVal(Lure(tys[k + 1])) else Wrapped(tys[k]);
    if !tys[k].Pkt? {
      WrappedIsSmall(tys[k]);
    }
    var vs := Spoiled(tys, k, v);
    var data := EncodeAll(vs);
    SpoiledMatches(tys, k, v);
    WrittenAt(vs, k);
    ReachesPosition(vs, tys, k);
    if tys[k].Pkt? {
      PacketSpoilsNext(vs, tys, k);
    } else {
      WrappedMisreads(tys[k], data, |EncodeAll(vs[..k])|);
      ReadFirst(tys, k, data);
      assert ReadList(tys, data, 0).values[k] != vs[k];
    }
  }

  lemma PacketSpoilsNext(vs: seq<Val>, tys: seq<Ty>, k: nat)
    requires Matches(vs, tys) && k + 1 < |tys| && tys[k].Pkt? && (forall i :: 0 <= i < k ==> Advancing(tys[i]))
    requires vs[k] == PktVal(Lure(tys[k + 1])) && vs[k + 1] == Odd(tys[k + 1])
    ensures ReadList(tys, EncodeAll(vs), 0).values != vs
  {
    var data, at := EncodeAll(vs), |EncodeAll(vs[..k])|;
    LureIsWritten(vs, k, tys[k + 1]);
    assert ReadList(tys[..k], data, 0).offset == at by {
      ReachesPosition(vs, tys, k);
    }
    ReadListStep(tys, k, data);
    ReadFirst(tys, k + 1, data);
  }

  lemma ReadListStep(tys: seq<Ty>, k: nat, data: seq<uint8>)
    requires k < |tys|
    ensures ReadList(tys[..k + 1], data, 0).offset == Read(tys[k], data, ReadList(tys[..k], data, 0).offset).offset
  {
    assert tys[..k + 1][..k] == tys[..k];
  }

  lemma LureIsWritten(vs: seq<Val>, k: nat, next: Ty)
    requires k + 1 < |vs| && vs[k] == PktVal(Lure(next)) && vs[k + 1] == Odd(next)
    ensures var data, at := EncodeAll(vs), |EncodeAll(vs[..k])|;
            Read(Pkt, data, at).offset == at + 4 && Read(next, data, at + 4).value != vs[k + 1]
  {
    WrittenAt(vs, k);
    WrittenAt(vs, k + 1);
    LureSpoils(next, EncodeAll(vs), |EncodeAll(vs[..k])|);
  }

  lemma LureSpoils(next: Ty, data: seq<uint8>, at: nat)
    requires var packet := Encode(PktVal(Lure(next)));
             BytesAt(packet, data, at) && BytesAt(Encode(Odd(next)), data, at + |packet|)
    ensures Read(Pkt, data, at).offset == at + 4 && Read(next, data, at + 4).value != Odd(next)
  {
    var lure := Lure(next);
    PacketReadsBack(PktVal(lure), data, at);
    SplitBytesAt(LittleEndian(|lure| % U32_COUNT), lure, data, at);
    LureMisleads(next, data, at + 4);
  }

  /** A list of types comes back for all values that match it exactly when a packet stands at most in the last
      place and none stands inside a vector. */
  lemma ListReadsBackIff(tys: seq<Ty>)
    ensures ListRoundTrips(tys) <==> Listable(tys)
  {
    if Listable(tys) {
      forall vs | Matches(vs, tys)
        ensures ReadList(tys, EncodeAll(vs), 0).values == vs
      {
        ListReadsBack(vs, tys, EncodeAll(vs), 0);
      }
    } else {
      var k := FirstBadType(tys);
      FirstBadTypeSpoils(tys, k);
    }
  }

  lemma FirstBadType(tys: seq<Ty>) returns (k: nat)
    requires !Listable(tys)
    ensures k < |tys| && !Advancing(tys[k]) && (forall i :: 0 <= i < k ==> Advancing(tys[i]))
    ensures tys[k].Pkt? ==> k + 1 < |tys|
  {
    k := 0;
    while k < |tys| && Advancing(tys[k])
      invariant k <= |tys| && forall i :: 0 <= i < k ==> Advancing(tys[i])
    {
      k := k + 1;
    }
  }

  /** Clearing a packet leaves its cursor where it was. A value written afterwards is read back exactly when
      the cursor was still at the start. */
  lemma ReuseAfterClearIff(v: Val, ty: Ty, cursor: nat)
    requires HasType(v, ty) && Small(v) && (Advancing(ty) || ty.Pkt?)
    ensures var r := Read(ty, Encode(v), cursor);
            r.value == v && r.clean <==> cursor == 0
  {
    if cursor == 0 {
      AnyReadsBack(v, ty, Encode(v), 0);
    } else if Read(ty, Encode(v), cursor).clean {
      CleanIsEncoded(ty, Encode(v), cursor);
    }
  }
}
