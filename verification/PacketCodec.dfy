/** The typed encoding inside a packet, as functions: what writing a value appends, and what reading a type at
    a cursor yields for any bytes whatever. */
module PacketCodec {
  import opened Bytes

  type pos = n: nat | n >= 1 witness 1

  /** The types that can be read: a trivially copyable type of `size` bytes, a string, a vector, a packet. */
  datatype Ty = Fixed(size: pos) | Str | Vec(elem: Ty) | Pkt

  datatype Val =
    | FixedVal(bytes: seq<uint8>)
    | StrVal(text: seq<uint8>)
    | VecVal(elems: seq<Val>)
    | PktVal(data: seq<uint8>)

  ghost predicate HasType(v: Val, ty: Ty)
    decreases ty, 0
  {
    match (v, ty)
    case (FixedVal(b), Fixed(n)) => |b| == n
    case (StrVal(_), Str) => true
    case (VecVal(es), Vec(e)) => AllHaveType(es, e)
    case (PktVal(_), Pkt) => true
    case _ => false
  }

  ghost predicate AllHaveType(vs: seq<Val>, ty: Ty)
    decreases ty, 1
  {
    forall i :: 0 <= i < |vs| ==> HasType(vs[i], ty)
  }

  /** Every length inside the value fits 32 bits. */
  ghost predicate Small(v: Val)
    decreases v, 1
  {
    match v
    case FixedVal(_) => true
    case StrVal(text) => |text| < U32_COUNT
    case VecVal(es) => |es| < U32_COUNT && AllSmall(es)
    case PktVal(data) => |data| < U32_COUNT
  }

  ghost predicate AllSmall(vs: seq<Val>)
    decreases vs, 0
  {
    forall i :: 0 <= i < |vs| ==> Small(vs[i])
  }

  /** Reading the type moves the cursor past everything it read: no packet inside. */
  predicate Advancing(ty: Ty) {
    match ty
    case Pkt => false
    case Vec(e) => Advancing(e)
    case _ => true
  }

  // ---------------------------------------------------------------------------------------------
  // Writing
  // ---------------------------------------------------------------------------------------------

  /** The bytes that writing `v` appends. Lengths are cut to 32 bits. */
  function Encode(v: Val): seq<uint8>
    decreases v, 1
  {
    match v
    case FixedVal(bytes) => bytes
    case StrVal(text) => LittleEndian(|text| % U32_COUNT) + text
    case VecVal(es) => LittleEndian(|es| % U32_COUNT) + EncodeAll(es)
    case PktVal(data) => LittleEndian(|data| % U32_COUNT) + data
  }

  function EncodeAll(vs: seq<Val>): seq<uint8>
    decreases vs, 0
  {
    if vs == [] then [] else EncodeAll(vs[..|vs| - 1]) + Encode(vs[|vs| - 1])
  }

  // ---------------------------------------------------------------------------------------------
  // Reading
  // ---------------------------------------------------------------------------------------------

  /** What a read yields: the value, the new cursor, the caller's flag, and whether no size check failed on
      the way. Without a flag to report to, a failed check ends the program. */
  datatype Reading = Reading(value: Val, offset: nat, valid: bool, clean: bool)
  datatype Readings = Readings(values: seq<Val>, offset: nat, valid: bool, clean: bool)

  function Zeros(n: nat): (s: seq<uint8>)
    ensures |s| == n
  {
    seq(n, _ => 0)
  }

  function CanRead(data: seq<uint8>, offset: nat, size: nat): bool {
    offset + size <= |data|
  }

  /** A length: four bytes, or zero if they are not there. */
  function Length(data: seq<uint8>, offset: nat): (n: nat)
    ensures n < U32_COUNT
  {
    if CanRead(data, offset, 4) then FromLittleEndian(data[offset..offset + 4]) else 0
  }

  function Read(ty: Ty, data: seq<uint8>, offset: nat): Reading
    decreases ty, 0
  {
    var gotLength := CanRead(data, offset, 4);
    var len := Length(data, offset);
    var body := if gotLength then offset + 4 else offset;
    match ty
    case Fixed(n) =>
      if CanRead(data, offset, n) then Reading(FixedVal(data[offset..offset + n]), offset + n, true, true)
      else Reading(FixedVal(Zeros(n)), offset, false, false)
    case Str =>
      if CanRead(data, body, len) then Reading(StrVal(data[body..body + len]), body + len, gotLength, gotLength)
      else Reading(StrVal([]), body, false, false)
    case Vec(e) =>
      if CanRead(data, body, len) then
        var r := ReadElems(e, len, data, body, gotLength);
        Reading(VecVal(r.values), r.offset, r.valid, r.clean)
      else Reading(VecVal([]), body, false, false)
    case Pkt =>
      if CanRead(data, body, len) then Reading(PktVal(data[body..body + len]), body, gotLength, gotLength)
      else Reading(PktVal([]), body, false, false)
  }

  /** Reading `n` elements one after the other; each read sets the flag anew. */
  function ReadElems(ty: Ty, n: nat, data: seq<uint8>, offset: nat, flag: bool): Readings
    decreases ty, n + 1
  {
    if n == 0 then Readings([], offset, flag, flag)
    else
      var before := ReadElems(ty, n - 1, data, offset, flag);
      var last := Read(ty, data, before.offset);
      Readings(before.values + [last.value], last.offset, last.valid, before.clean && last.clean)
  }

  // ---------------------------------------------------------------------------------------------
  // Any bytes: the cursor stays inside, the value has the type
  // ---------------------------------------------------------------------------------------------

  /** For any bytes and any cursor, reading moves the cursor forward and never past the end of the data, and
      yields a value of the requested type. */
  lemma {:induction false} ReadStaysInside(ty: Ty, data: seq<uint8>, offset: nat)
    ensures offset <= Read(ty, data, offset).offset
    ensures offset <= |data| ==> Read(ty, data, offset).offset <= |data|
    ensures HasType(Read(ty, data, offset).value, ty)
    ensures Read(ty, data, offset).clean ==> Read(ty, data, offset).valid && offset <= |data|
    decreases ty, 0
  {
    if ty.Vec? {
      var gotLength := CanRead(data, offset, 4);
      ReadElemsStayInside(ty.elem, Length(data, offset), data, if gotLength then offset + 4 else offset, gotLength);
    }
  }

  lemma {:induction false} ReadElemsStayInside(ty: Ty, n: nat, data: seq<uint8>, offset: nat, flag: bool)
    ensures var r := ReadElems(ty, n, data, offset, flag);
            && offset <= r.offset && (offset <= |data| ==> r.offset <= |data|)
            && |r.values| == n && AllHaveType(r.values, ty)
            && (r.clean ==> r.valid)
    decreases ty, n + 1
  {
    if n > 0 {
      ReadElemsStayInside(ty, n - 1, data, offset, flag);
      ReadStaysInside(ty, data, ReadElems(ty, n - 1, data, offset, flag).offset);
    }
  }

  // ---------------------------------------------------------------------------------------------
  // Round trip
  // ---------------------------------------------------------------------------------------------

  ghost predicate BytesAt(part: seq<uint8>, data: seq<uint8>, offset: nat) {
    offset + |part| <= |data| && data[offset..offset + |part|] == part
  }

  lemma SplitBytesAt(a: seq<uint8>, b: seq<uint8>, data: seq<uint8>, offset: nat)
    ensures BytesAt(a + b, data, offset) <==> BytesAt(a, data, offset) && BytesAt(b, data, offset + |a|)
  {
    if BytesAt(a + b, data, offset) {
      assert data[offset..offset + |a|] == (a + b)[..|a|] == a;
      assert data[offset + |a|..offset + |a| + |b|] == (a + b)[|a|..] == b;
    }
  }

  /** Every value takes at least one byte, so a vector has no more elements than bytes behind its length. */
  lemma {:induction false} EncodingIsNotEmpty(v: Val, ty: Ty)
    requires HasType(v, ty)
    ensures |Encode(v)| >= 1
  {
  }

  lemma {:induction false} EncodingsAreNotEmpty(vs: seq<Val>, ty: Ty)
    requires AllHaveType(vs, ty)
    ensures |EncodeAll(vs)| >= |vs|
  {
    if vs != [] {
      EncodingsAreNotEmpty(vs[..|vs| - 1], ty);
      EncodingIsNotEmpty(vs[|vs| - 1], ty);
    }
  }

  lemma LengthReadsBack(n: nat, rest: seq<uint8>, data: seq<uint8>, offset: nat)
    requires BytesAt(LittleEndian(n % U32_COUNT) + rest, data, offset)
    ensures CanRead(data, offset, 4) && Length(data, offset) == n % U32_COUNT
    ensures BytesAt(rest, data, offset + 4)
  {
    SplitBytesAt(LittleEndian(n % U32_COUNT), rest, data, offset);
    LittleEndianRoundTrip(n % U32_COUNT);
  }

  /** A value whose lengths fit 32 bits, met at the cursor, is read back: the same value, a true flag, and the
      cursor moved by exactly the encoded size. In particular the vector's size check accepts it. */
  lemma {:induction false} ReadsBack(v: Val, ty: Ty, data: seq<uint8>, offset: nat)
    requires HasType(v, ty) && Small(v) && Advancing(ty) && BytesAt(Encode(v), data, offset)
    ensures Read(ty, data, offset) == Reading(v, offset + |Encode(v)|, true, true)
    decreases v, 1
  {
    match v
    case FixedVal(bytes) =>
    case StrVal(text) =>
      BodyReadsBack(text, data, offset);
    case VecVal(es) =>
      VectorHeadReadsBack(es, ty.elem, data, offset);
      ElemsReadBack(es, ty.elem, data, offset + 4);
  }

  lemma VectorHeadReadsBack(es: seq<Val>, ty: Ty, data: seq<uint8>, offset: nat)
    requires HasType(VecVal(es), Vec(ty)) && |es| < U32_COUNT && BytesAt(Encode(VecVal(es)), data, offset)
    ensures BytesAt(EncodeAll(es), data, offset + 4) && |Encode(VecVal(es))| == 4 + |EncodeAll(es)|
    ensures var r := ReadElems(ty, |es|, data, offset + 4, true);
            Read(Vec(ty), data, offset) == Reading(VecVal(r.values), r.offset, r.valid, r.clean)
  {
    var end := offset + 4;
    assert CanRead(data, offset, 4) && Length(data, offset) == |es| && BytesAt(EncodeAll(es), data, end) by {
      LengthReadsBack(|es|, EncodeAll(es), data, offset);
    }
    assert CanRead(data, end, |es|) by {
      EncodingsAreNotEmpty(es, ty);
    }
  }

  lemma {:induction false} ElemsReadBack(vs: seq<Val>, ty: Ty, data: seq<uint8>, offset: nat)
    requires AllHaveType(vs, ty) && AllSmall(vs)
    requires Advancing(ty) && BytesAt(EncodeAll(vs), data, offset)
    ensures ReadElems(ty, |vs|, data, offset, true) == Readings(vs, offset + |EncodeAll(vs)|, true, true)
    decreases vs, 0
  {
    if vs != [] {
      var before, last := vs[..|vs| - 1], vs[|vs| - 1];
      SplitBytesAt(EncodeAll(before), Encode(last), data, offset);
      ElemsReadBack(before, ty, data, offset);
      ReadsBack(last, ty, data, offset + |EncodeAll(before)|);
      assert vs == before + [last];
    }
  }

  /** An embedded packet is read back too, but the cursor only passes its length. */
  lemma PacketReadsBack(v: Val, data: seq<uint8>, offset: nat)
    requires v.PktVal? && Small(v) && BytesAt(Encode(v), data, offset)
    ensures Read(Pkt, data, offset) == Reading(v, offset + 4, true, true)
  {
    BodyReadsBack(v.data, data, offset);
  }

  lemma BodyReadsBack(body: seq<uint8>, data: seq<uint8>, offset: nat)
    requires |body| < U32_COUNT && BytesAt(LittleEndian(|body| % U32_COUNT) + body, data, offset)
    ensures Read(Pkt, data, offset) == Reading(PktVal(body), offset + 4, true, true)
    ensures Read(Str, data, offset) == Reading(StrVal(body), offset + 4 + |body|, true, true)
  {
    LengthReadsBack(|body|, body, data, offset);
  }

  // ---------------------------------------------------------------------------------------------
  // A clean read means a complete encoding
  // ---------------------------------------------------------------------------------------------

  /** A complete encoding of some value of the type starts at the cursor. */
  ghost predicate Complete(ty: Ty, data: seq<uint8>, offset: nat) {
    exists v :: HasType(v, ty) && Small(v) && BytesAt(Encode(v), data, offset)
  }

  /** A length that was read, and the bytes found behind it, are the encoding of both. */
  lemma LengthIsEncoded(n: nat, data: seq<uint8>, offset: nat, body: seq<uint8>)
    requires CanRead(data, offset, 4) && n == Length(data, offset) && BytesAt(body, data, offset + 4)
    ensures BytesAt(LittleEndian(n % U32_COUNT) + body, data, offset)
  {
    LittleEndianIsOnto(data[offset..offset + 4]);
    SplitBytesAt(LittleEndian(n % U32_COUNT), body, data, offset);
  }

  lemma {:induction false} CleanIsEncoded(ty: Ty, data: seq<uint8>, offset: nat)
    requires (Advancing(ty) || ty.Pkt?) && Read(ty, data, offset).clean
    ensures var r := Read(ty, data, offset);
            && HasType(r.value, ty) && Small(r.value) && BytesAt(Encode(r.value), data, offset)
            && r.offset == offset + if ty.Pkt? then 4 else |Encode(r.value)|
    decreases ty, 0
  {
    match ty
    case Fixed(_) =>
    case Str =>
      CleanBodyIsEncoded(ty, data, offset);
    case Pkt =>
      CleanBodyIsEncoded(ty, data, offset);
    case Vec(e) =>
      var len := CleanVectorHead(e, data, offset);
      CleanElemsAreEncoded(e, len, data, offset + 4);
      VectorIsEncoded(ReadElems(e, len, data, offset + 4, true).values, e, data, offset);
  }

  lemma CleanBodyIsEncoded(ty: Ty, data: seq<uint8>, offset: nat)
    requires (ty.Str? || ty.Pkt?) && Read(ty, data, offset).clean
    ensures var r := Read(ty, data, offset);
            && HasType(r.value, ty) && Small(r.value) && BytesAt(Encode(r.value), data, offset)
            && r.offset == offset + if ty.Pkt? then 4 else |Encode(r.value)|
  {
    var len := Length(data, offset);
    LengthIsEncoded(len, data, offset, data[offset + 4..offset + 4 + len]);
  }

  lemma VectorIsEncoded(es: seq<Val>, ty: Ty, data: seq<uint8>, offset: nat)
    requires CanRead(data, offset, 4) && |es| == Length(data, offset)
    requires AllEncoded(es, ty, data, offset + 4, offset + 4 + |EncodeAll(es)|)
    ensures HasType(VecVal(es), Vec(ty)) && Small(VecVal(es)) && BytesAt(Encode(VecVal(es)), data, offset)
    ensures |Encode(VecVal(es))| == 4 + |EncodeAll(es)|
  {
    LengthIsEncoded(|es|, data, offset, EncodeAll(es));
  }

  lemma CleanVectorHead(ty: Ty, data: seq<uint8>, offset: nat) returns (len: nat)
    requires Read(Vec(ty), data, offset).clean
    ensures CanRead(data, offset, 4) && len == Length(data, offset)
    ensures var r := ReadElems(ty, len, data, offset + 4, true);
            Read(Vec(ty), data, offset) == Reading(VecVal(r.values), r.offset, r.valid, r.clean)
  {
    len := Length(data, offset);
    var got := CanRead(data, offset, 4);
    CleanElemsKeepFlag(ty, len, data, if got then offset + 4 else offset, got);
  }

  lemma {:induction false} CleanElemsKeepFlag(ty: Ty, n: nat, data: seq<uint8>, offset: nat, flag: bool)
    requires ReadElems(ty, n, data, offset, flag).clean
    ensures flag
  {
    if n > 0 {
      CleanElemsKeepFlag(ty, n - 1, data, offset, flag);
    }
  }

  /** The bytes from `offset` to `end` are the encodings of `vs`, one after the other. */
  ghost predicate AllEncoded(vs: seq<Val>, ty: Ty, data: seq<uint8>, offset: nat, end: nat) {
    && AllHaveType(vs, ty) && AllSmall(vs)
    && BytesAt(EncodeAll(vs), data, offset) && end == offset + |EncodeAll(vs)|
  }

  lemma {:induction false} CleanElemsAreEncoded(ty: Ty, n: nat, data: seq<uint8>, offset: nat)
    requires Advancing(ty) && offset <= |data| && ReadElems(ty, n, data, offset, true).clean
    ensures var r := ReadElems(ty, n, data, offset, true);
            |r.values| == n && AllEncoded(r.values, ty, data, offset, r.offset)
    decreases ty, n + 1
  {
    if n > 0 {
      CleanElemsAreEncoded(ty, n - 1, data, offset);
      var before := ReadElems(ty, n - 1, data, offset, true);
      var last := Read(ty, data, before.offset);
      CleanIsEncoded(ty, data, before.offset);
      assert AllEncoded(before.values + [last.value], ty, data, offset, last.offset) by {
        EncodedOneMore(before.values, last.value, ty, data, offset, before.offset);
      }
    }
  }

  lemma EncodedOneMore(vs: seq<Val>, v: Val, ty: Ty, data: seq<uint8>, offset: nat, middle: nat)
    requires AllEncoded(vs, ty, data, offset, middle)
    requires HasType(v, ty) && Small(v) && BytesAt(Encode(v), data, middle)
    ensures AllEncoded(vs + [v], ty, data, offset, middle + |Encode(v)|)
  {
    SplitBytesAt(EncodeAll(vs), Encode(v), data, offset);
    assert (vs + [v])[..|vs|] == vs;
  }

  /** The size checks all pass exactly when a complete encoding is present at the cursor. */
  lemma CleanIffComplete(ty: Ty, data: seq<uint8>, offset: nat)
    requires Advancing(ty) || ty.Pkt?
    ensures Read(ty, data, offset).clean <==> Complete(ty, data, offset)
  {
    if Read(ty, data, offset).clean {
      CleanIsEncoded(ty, data, offset);
    }
    if Complete(ty, data, offset) {
      var v :| HasType(v, ty) && Small(v) && BytesAt(Encode(v), data, offset);
      if ty.Pkt? {
        PacketReadsBack(v, data, offset);
      } else {
        ReadsBack(v, ty, data, offset);
      }
    }
  }
}
