/** The MessagePack objects of the CMP library (cmp.c) and their byte form.

    An object header is written as a sequence of calls to the context's write callback;
    `ObjectCalls` gives those calls and `DecodeObject` what the reader makes of a byte
    sequence.  Floating-point payloads are kept as bit patterns. */
module Cmp {
  import opened Bytes
  import opened Wrappers

  datatype Error =
    | ErrorNone
    | InputValueTooLarge
    | FixedValueWriting
    | TypeMarkerReading
    | TypeMarkerWriting
    | DataReading
    | DataWriting
    | ExtTypeReading
    | ExtTypeWriting
    | InvalidType
    | LengthReading
    | LengthWriting

  /** One call of the write callback, and the error the caller records when the callback
      writes nothing (ErrorNone: the error field is left as it was). */
  datatype Call = Call(data: seq<byte>, error: Error)

  /** cmp_object_t: the type tag with the union member that goes with it. */
  datatype Object =
    | PositiveFixnum(u8: byte)
    | FixMap(size: uint32)
    | FixArray(size: uint32)
    | FixStr(size: uint32)
    | Nil
    | Boolean(b: bool)
    | Bin8(size: uint32)
    | Bin16(size: uint32)
    | Bin32(size: uint32)
    | Ext8(extType: int8, size: uint32)
    | Ext16(extType: int8, size: uint32)
    | Ext32(extType: int8, size: uint32)
    | Float(bits32: uint32)
    | Double(bits64: uint64)
    | UInt8(u8: byte)
    | UInt16(u16: uint16)
    | UInt32(u32: uint32)
    | UInt64(u64: uint64)
    | SInt8(s8: int8)
    | SInt16(s16: int16)
    | SInt32(s32: int32)
    | SInt64(s64: int64)
    | FixExt1(extType: int8, size: uint32)
    | FixExt2(extType: int8, size: uint32)
    | FixExt4(extType: int8, size: uint32)
    | FixExt8(extType: int8, size: uint32)
    | FixExt16(extType: int8, size: uint32)
    | Str8(size: uint32)
    | Str16(size: uint32)
    | Str32(size: uint32)
    | Array16(size: uint32)
    | Array32(size: uint32)
    | Map16(size: uint32)
    | Map32(size: uint32)
    | NegativeFixnum(s8: int8)

  /** What a writer does with an object: a sequence of calls, or a refusal before any. */
  datatype Written = Calls(calls: seq<Call>) | Refused

  /** A byte sequence as the concatenation of the data of its calls. */
  function Flat(calls: seq<Call>): (s: seq<byte>)
  {
    if calls == [] then [] else calls[0].data + Flat(calls[1..])
  }

  lemma Associative<T>(a: seq<T>, b: seq<T>, c: seq<T>)
    ensures a + (b + c) == (a + b) + c
  {
  }

  lemma {:induction false} FlatAppend(a: seq<Call>, b: seq<Call>)
    ensures Flat(a + b) == Flat(a) + Flat(b)
  {
    if a == [] {
      assert a + b == b;
    } else {
      FlatAppend(a[1..], b);
      assert (a + b)[0] == a[0] && (a + b)[1..] == a[1..] + b;
      Associative(a[0].data, Flat(a[1..]), Flat(b));
    }
  }

  // ---------------------------------------------------------------- the format table

  /** The number of bytes of the field that follows a marker. */
  function FieldWidth(m: byte): (w: nat)
    ensures w == 0 || w == 1 || w == 2 || w == 4 || w == 8
  {
    if m == 0xC4 || m == 0xC7 || m == 0xCC || m == 0xD0 || 0xD4 <= m <= 0xD9 then 1
    else if m == 0xC5 || m == 0xC8 || m == 0xCD || m == 0xD1 || m == 0xDA || m == 0xDC || m == 0xDE then 2
    else if m == 0xC6 || m == 0xC9 || m == 0xCA || m == 0xCE || m == 0xD2 || m == 0xDB || m == 0xDD || m == 0xDF then 4
    else if m == 0xCB || m == 0xCF || m == 0xD3 then 8
    else 0
  }

  /** ext 8, ext 16 and ext 32 have a type byte after their size. */
  predicate HasTypeByte(m: byte) {
    0xC7 <= m <= 0xC9
  }

  /** The error left by a writer that cannot write the marker. */
  function MarkerError(m: byte): Error {
    if m < 0xC0 || 0xE0 <= m then FixedValueWriting else TypeMarkerWriting
  }

  /** The error left by a writer that cannot write the field; numbers leave none. */
  function FieldWriteError(m: byte): Error {
    if 0xC4 <= m <= 0xC9 || 0xD9 <= m <= 0xDF then LengthWriting
    else if 0xD4 <= m <= 0xD8 then ExtTypeWriting
    else ErrorNone
  }

  /** The error left by the reader when the field is missing altogether. */
  function FieldReadError(m: byte): Error {
    if 0xC4 <= m <= 0xC9 then LengthReading
    else if 0xD4 <= m <= 0xD8 then ExtTypeReading
    else DataReading
  }

  function TypeByte(t: int8): byte {
    Unsigned(t, 0x100)
  }

  // ---------------------------------------------------------------- writing

  /** The objects cmp_write_object refuses.  The sizes of the fix formats are first cut to
      uint8_t, so that for instance a fixmap of 256 entries passes as one of 0. */
  predicate Refuses(o: Object) {
    match o
    case PositiveFixnum(u) => u > 0x7F
    case FixMap(n) => n % 0x100 > 0xF
    case FixArray(n) => n % 0x100 > 0xF
    case FixStr(n) => n % 0x100 > 0x1F
    case NegativeFixnum(s) => s < -32 || 0 <= s
    case _ => false
  }

  /** What is written for an object: a marker, the value of the field after it (of the
      width the marker calls for) and, for ext 8 to 32, the type byte.  Sizes are cut to the
      parameter type of the writer they are passed to, as the C conversions do. */
  datatype Parts = Parts(marker: byte, value: nat, typeByte: byte)

  function ObjectParts(o: Object): (r: Parts)
    requires !Refuses(o)
    ensures r.marker != 0xC1 && r.value < Limit(FieldWidth(r.marker))
  {
    match o
    case PositiveFixnum(u) => Parts(u, 0, 0)
    case FixMap(n) => Parts(0x80 + n % 0x100, 0, 0)
    case FixArray(n) => Parts(0x90 + n % 0x100, 0, 0)
    case FixStr(n) => Parts(0xA0 + n % 0x100, 0, 0)
    case Nil => Parts(0xC0, 0, 0)
    case Boolean(b) => Parts(if b then 0xC3 else 0xC2, 0, 0)
    case Bin8(n) => Parts(0xC4, n % 0x100, 0)
    case Bin16(n) => Parts(0xC5, n % 0x1_0000, 0)
    case Bin32(n) => Parts(0xC6, n, 0)
    case Ext8(t, n) => Parts(0xC7, n % 0x100, TypeByte(t))
    case Ext16(t, n) => Parts(0xC8, n % 0x1_0000, TypeByte(t))
    case Ext32(t, n) => Parts(0xC9, n, TypeByte(t))
    case Float(f) => Parts(0xCA, f, 0)
    case Double(d) => Parts(0xCB, d, 0)
    case UInt8(u) => Parts(0xCC, u, 0)
    case UInt16(u) => Parts(0xCD, u, 0)
    case UInt32(u) => Parts(0xCE, u, 0)
    case UInt64(u) => Parts(0xCF, u, 0)
    case SInt8(s) => Parts(0xD0, Unsigned(s, 0x100), 0)
    case SInt16(s) => Parts(0xD1, Unsigned(s, 0x1_0000), 0)
    case SInt32(s) => Parts(0xD2, Unsigned(s, 0x1_0000_0000), 0)
    case SInt64(s) => Parts(0xD3, Unsigned(s, 0x1_0000_0000_0000_0000), 0)
    case FixExt1(t, _) => Parts(0xD4, TypeByte(t), 0)
    case FixExt2(t, _) => Parts(0xD5, TypeByte(t), 0)
    case FixExt4(t, _) => Parts(0xD6, TypeByte(t), 0)
    case FixExt8(t, _) => Parts(0xD7, TypeByte(t), 0)
    case FixExt16(t, _) => Parts(0xD8, TypeByte(t), 0)
    case Str8(n) => Parts(0xD9, n % 0x100, 0)
    case Str16(n) => Parts(0xDA, n % 0x1_0000, 0)
    case Str32(n) => Parts(0xDB, n, 0)
    case Array16(n) => Parts(0xDC, n % 0x1_0000, 0)
    case Array32(n) => Parts(0xDD, n, 0)
    case Map16(n) => Parts(0xDE, n % 0x1_0000, 0)
    case Map32(n) => Parts(0xDF, n, 0)
    case NegativeFixnum(s) => Parts(s + 0x100, 0, 0)
  }

  /** The calls of the write callback for a marker, its w-byte field and its type byte. */
  function HeaderCalls(p: Parts, w: nat, hasType: bool): seq<Call>
    requires p.value < Pow256(w)
  {
    [Call([p.marker], MarkerError(p.marker))]
    + (if w > 0 then [Call(BigEndian(p.value, w), FieldWriteError(p.marker))] else [])
    + (if hasType then [Call([p.typeByte], ExtTypeWriting)] else [])
  }

  function HeaderBytes(p: Parts, w: nat, hasType: bool): (s: seq<byte>)
    requires p.value < Pow256(w)
    ensures |s| == 1 + w + (if hasType then 1 else 0)
  {
    [p.marker] + BigEndian(p.value, w) + (if hasType then [p.typeByte] else [])
  }

  lemma HeaderCallsBytes(p: Parts, w: nat, hasType: bool)
    requires p.value < Pow256(w)
    ensures Flat(HeaderCalls(p, w, hasType)) == HeaderBytes(p, w, hasType)
    ensures forall c <- HeaderCalls(p, w, hasType) :: c.data != []
  {
    var a := [Call([p.marker], MarkerError(p.marker))];
    var b := if w > 0 then [Call(BigEndian(p.value, w), FieldWriteError(p.marker))] else [];
    var c := if hasType then [Call([p.typeByte], ExtTypeWriting)] else [];
    FlatAppend(a + b, c);
    FlatAppend(a, b);
  }

  /** cmp_write_object. */
  function ObjectCalls(o: Object): Written {
    if Refuses(o) then Refused
    else
      var p := ObjectParts(o);
      LimitIsPower(FieldWidth(p.marker));
      Calls(HeaderCalls(p, FieldWidth(p.marker), HasTypeByte(p.marker)))
  }

  /** The bytes of an object that is not refused. */
  function Encoding(o: Object): seq<byte>
    requires !Refuses(o)
  {
    PartsBytes(ObjectParts(o))
  }

  function PartsBytes(p: Parts): seq<byte>
    requires p.value < Limit(FieldWidth(p.marker))
  {
    LimitIsPower(FieldWidth(p.marker));
    HeaderBytes(p, FieldWidth(p.marker), HasTypeByte(p.marker))
  }

  lemma ObjectCallsEncoding(o: Object)
    requires !Refuses(o)
    ensures Flat(ObjectCalls(o).calls) == Encoding(o)
    ensures forall c <- ObjectCalls(o).calls :: c.data != []
  {
    var p := ObjectParts(o);
    LimitIsPower(FieldWidth(p.marker));
    HeaderCallsBytes(p, FieldWidth(p.marker), HasTypeByte(p.marker));
  }

  /** The objects whose union member fits the encoding named by their type. */
  predicate InRange(o: Object) {
    match o
    case PositiveFixnum(u) => u <= 0x7F
    case FixMap(n) => n <= 0xF
    case FixArray(n) => n <= 0xF
    case FixStr(n) => n <= 0x1F
    case Bin8(n) => n <= 0xFF
    case Bin16(n) => n <= 0xFFFF
    case Ext8(_, n) => n <= 0xFF
    case Ext16(_, n) => n <= 0xFFFF
    case FixExt1(_, n) => n == 1
    case FixExt2(_, n) => n == 2
    case FixExt4(_, n) => n == 4
    case FixExt8(_, n) => n == 8
    case FixExt16(_, n) => n == 16
    case Str8(n) => n <= 0xFF
    case Str16(n) => n <= 0xFFFF
    case Array16(n) => n <= 0xFFFF
    case Map16(n) => n <= 0xFFFF
    case NegativeFixnum(s) => -32 <= s <= -1
    case _ => true
  }

  lemma InRangeAccepted(o: Object)
    requires InRange(o)
    ensures !Refuses(o)
  {
  }

  // ---------------------------------------------------------------- reading

  /** What cmp_read_object does on the remaining input.  `Partial`: the read callback
      delivered only some bytes of a field.  Its short count is nonzero, so cmp goes on with
      a field whose other bytes were never set; no value is claimed for it. */
  datatype Read<T> = Ok(value: T, used: nat) | Failed(error: Error) | Partial

  /** The object that marker, field value and type byte stand for. */
  function Build(p: Parts): (o: Object)
    requires p.marker != 0xC1 && p.value < Limit(FieldWidth(p.marker))
  {
    var Parts(m, v, t) := p;
    if m <= 0x7F then PositiveFixnum(m)
    else if m <= 0x8F then FixMap(m - 0x80)
    else if m <= 0x9F then FixArray(m - 0x90)
    else if m <= 0xBF then FixStr(m - 0xA0)
    else if m == 0xC0 then Nil
    else if m == 0xC2 then Boolean(false)
    else if m == 0xC3 then Boolean(true)
    else if m == 0xC4 then Bin8(v)
    else if m == 0xC5 then Bin16(v)
    else if m == 0xC6 then Bin32(v)
    else if m == 0xC7 then Ext8(Signed(t, 0x100), v)
    else if m == 0xC8 then Ext16(Signed(t, 0x100), v)
    else if m == 0xC9 then Ext32(Signed(t, 0x100), v)
    else if m == 0xCA then Float(v)
    else if m == 0xCB then Double(v)
    else if m == 0xCC then UInt8(v)
    else if m == 0xCD then UInt16(v)
    else if m == 0xCE then UInt32(v)
    else if m == 0xCF then UInt64(v)
    else if m == 0xD0 then SInt8(Signed(v, 0x100))
    else if m == 0xD1 then SInt16(Signed(v, 0x1_0000))
    else if m == 0xD2 then SInt32(Signed(v, 0x1_0000_0000))
    else if m == 0xD3 then SInt64(Signed(v, 0x1_0000_0000_0000_0000))
    else if m == 0xD4 then FixExt1(Signed(v, 0x100), 1)
    else if m == 0xD5 then FixExt2(Signed(v, 0x100), 2)
    else if m == 0xD6 then FixExt4(Signed(v, 0x100), 4)
    else if m == 0xD7 then FixExt8(Signed(v, 0x100), 8)
    else if m == 0xD8 then FixExt16(Signed(v, 0x100), 16)
    else if m == 0xD9 then Str8(v)
    else if m == 0xDA then Str16(v)
    else if m == 0xDB then Str32(v)
    else if m == 0xDC then Array16(v)
    else if m == 0xDD then Array32(v)
    else if m == 0xDE then Map16(v)
    else if m == 0xDF then Map32(v)
    else NegativeFixnum(m - 0x100)
  }

  /** The w-byte field and the type byte behind the marker at the front of the input. */
  function DecodeHeader(s: seq<byte>, w: nat, hasType: bool): (r: Read<Parts>)
    requires s != []
    ensures r.Ok? ==> r.value.marker == s[0] && r.value.value < Pow256(w)
  {
    if w > 0 && |s| == 1 then Failed(FieldReadError(s[0]))
    else if |s| < 1 + w then Partial
    else if !hasType then Ok(Parts(s[0], FromBigEndian(s[1..1 + w]), 0), 1 + w)
    else if |s| == 1 + w then Failed(ExtTypeReading)
    else Ok(Parts(s[0], FromBigEndian(s[1..1 + w]), s[1 + w]), 2 + w)
  }

  function DecodeParts(s: seq<byte>): (r: Read<Parts>)
    ensures r.Ok? ==> r.value.marker != 0xC1 && r.value.value < Limit(FieldWidth(r.value.marker))
  {
    if s == [] then Failed(TypeMarkerReading)
    else if s[0] == 0xC1 then Failed(InvalidType)
    else
      LimitIsPower(FieldWidth(s[0]));
      DecodeHeader(s, FieldWidth(s[0]), HasTypeByte(s[0]))
  }

  /** cmp_read_object on the bytes that remain in the input. */
  function DecodeObject(s: seq<byte>): (r: Read<Object>) {
    match DecodeParts(s)
    case Ok(p, used) => Ok(Build(p), used)
    case Failed(e) => Failed(e)
    case Partial => Partial
  }

  // ---------------------------------------------------------------- mutual inverses

  lemma DecodeHeaderOfBytes(p: Parts, w: nat, hasType: bool, rest: seq<byte>)
    requires p.value < Pow256(w)
    requires !hasType ==> p.typeByte == 0
    ensures DecodeHeader(HeaderBytes(p, w, hasType) + rest, w, hasType) == Ok(p, |HeaderBytes(p, w, hasType)|)
  {
    var s := HeaderBytes(p, w, hasType) + rest;
    assert s[1..1 + w] == BigEndian(p.value, w);
    BigEndianRoundTrip(p.value, w);
  }

  lemma BytesOfDecodedHeader(s: seq<byte>, w: nat, hasType: bool)
    requires s != [] && DecodeHeader(s, w, hasType).Ok?
    ensures var Ok(p, used) := DecodeHeader(s, w, hasType);
            && used <= |s|
            && HeaderBytes(p, w, hasType) == s[..used]
            && (!hasType ==> p.typeByte == 0)
  {
    FromBigEndianRoundTrip(s[1..1 + w]);
    assert s[..1 + w] == [s[0]] + s[1..1 + w];
  }

  /** On parts and objects, building undoes splitting exactly for the objects in range. */
  lemma BuildOfParts(o: Object)
    requires !Refuses(o)
    ensures Build(ObjectParts(o)) == o <==> InRange(o)
  {
    if o.UInt8? || o.UInt16? || o.UInt32? || o.UInt64? || o.SInt8? || o.SInt16? || o.SInt32? || o.SInt64? {
      BuildOfNumberParts(o);
    } else if o.FixExt1? || o.FixExt2? || o.FixExt4? || o.FixExt8? || o.FixExt16? || o.Ext8? || o.Ext16? || o.Ext32? {
      BuildOfExtParts(o);
    } else if o.Str8? || o.Str16? || o.Str32? {
      BuildOfStrParts(o);
    } else if o.Array16? || o.Array32? || o.Map16? || o.Map32? {
      BuildOfListParts(o);
    } else {
      BuildOfOtherParts(o);
    }
  }

  lemma BuildOfNumberParts(o: Object)
    requires o.UInt8? || o.UInt16? || o.UInt32? || o.UInt64? || o.SInt8? || o.SInt16? || o.SInt32? || o.SInt64?
    ensures Build(ObjectParts(o)) == o
  {
  }

  lemma BuildOfExtParts(o: Object)
    requires o.FixExt1? || o.FixExt2? || o.FixExt4? || o.FixExt8? || o.FixExt16? || o.Ext8? || o.Ext16? || o.Ext32?
    ensures Build(ObjectParts(o)) == o <==> InRange(o)
  {
  }

  lemma BuildOfStrParts(o: Object)
    requires o.Str8? || o.Str16? || o.Str32?
    ensures Build(ObjectParts(o)) == o <==> InRange(o)
  {
  }

  lemma BuildOfListParts(o: Object)
    requires o.Array16? || o.Array32? || o.Map16? || o.Map32?
    ensures Build(ObjectParts(o)) == o <==> InRange(o)
  {
  }

  lemma BuildOfOtherParts(o: Object)
    requires o.PositiveFixnum? || o.FixMap? || o.FixArray? || o.FixStr? || o.Nil? || o.Boolean? || o.Bin8?
             || o.Bin16? || o.Bin32? || o.Float? || o.Double? || o.NegativeFixnum?
    requires !Refuses(o)
    ensures Build(ObjectParts(o)) == o <==> InRange(o)
  {
  }

  lemma NoTypeByte(o: Object)
    requires !Refuses(o)
    ensures !HasTypeByte(ObjectParts(o).marker) ==> ObjectParts(o).typeByte == 0
  {
  }

  lemma PartsOfBuild(p: Parts)
    requires p.marker != 0xC1 && p.value < Limit(FieldWidth(p.marker))
    requires !HasTypeByte(p.marker) ==> p.typeByte == 0
    ensures InRange(Build(p)) && !Refuses(Build(p))
    ensures FieldWidth(p.marker) == 0 ==> p.value == 0
    ensures ObjectParts(Build(p)) == p
  {
    hide InRange, Refuses, Build, ObjectParts;
    if p.marker < 0xC0 || 0xE0 <= p.marker {
      PartsOfBuildFix(p);
    } else if p.marker <= 0xCB {
      PartsOfBuildLow(p);
    } else if p.marker <= 0xD3 {
      PartsOfBuildNumber(p);
    } else if p.marker <= 0xD8 {
      PartsOfBuildFixExt(p);
    } else {
      PartsOfBuildSized(p);
    }
    InRangeAccepted(Build(p));
  }

  lemma PartsOfBuildFix(p: Parts)
    requires p.marker < 0xC0 || 0xE0 <= p.marker
    requires p.value < Limit(FieldWidth(p.marker)) && p.typeByte == 0
    ensures InRange(Build(p)) && ObjectParts(Build(p)) == p
  {
  }

  lemma PartsOfBuildLow(p: Parts)
    requires 0xC0 <= p.marker <= 0xCB && p.marker != 0xC1 && p.value < Limit(FieldWidth(p.marker))
    requires !HasTypeByte(p.marker) ==> p.typeByte == 0
    ensures InRange(Build(p)) && ObjectParts(Build(p)) == p
  {
  }

  lemma PartsOfBuildNumber(p: Parts)
    requires 0xCC <= p.marker <= 0xD3 && p.value < Limit(FieldWidth(p.marker)) && p.typeByte == 0
    ensures InRange(Build(p)) && ObjectParts(Build(p)) == p
  {
  }

  lemma PartsOfBuildFixExt(p: Parts)
    requires 0xD4 <= p.marker <= 0xD8 && p.value < Limit(FieldWidth(p.marker)) && p.typeByte == 0
    ensures InRange(Build(p)) && ObjectParts(Build(p)) == p
  {
  }

  lemma PartsOfBuildSized(p: Parts)
    requires 0xD9 <= p.marker <= 0xDF && p.value < Limit(FieldWidth(p.marker)) && p.typeByte == 0
    ensures InRange(Build(p)) && ObjectParts(Build(p)) == p
  {
  }

  /** Writing an object and reading the bytes back gives the object, whatever follows it in
      the input, exactly when the object is in range for its type. */
  lemma WriteThenRead(o: Object, rest: seq<byte>)
    ensures !Refuses(o) && DecodeObject(Encoding(o) + rest) == Ok(o, |Encoding(o)|) <==> InRange(o)
  {
    if !Refuses(o) {
      var p := ObjectParts(o);
      BuildOfParts(o);
      NoTypeByte(o);
      LimitIsPower(FieldWidth(p.marker));
      DecodeHeaderOfBytes(p, FieldWidth(p.marker), HasTypeByte(p.marker), rest);
    }
  }

  /** Every complete header that is read is the encoding of the object returned. */
  lemma ReadThenWrite(s: seq<byte>)
    requires DecodeObject(s).Ok?
    ensures var Ok(o, used) := DecodeObject(s);
            InRange(o) && !Refuses(o) && used <= |s| && Encoding(o) == s[..used]
  {
    LimitIsPower(FieldWidth(s[0]));
    BytesOfDecodedHeader(s, FieldWidth(s[0]), HasTypeByte(s[0]));
    PartsOfBuild(DecodeParts(s).value);
  }

  /** No encoding is a proper prefix of another, and equal encodings are of equal objects. */
  lemma PrefixFree(o1: Object, o2: Object)
    requires InRange(o1) && InRange(o2) && !Refuses(o1) && !Refuses(o2)
    requires Encoding(o1) <= Encoding(o2)
    ensures o1 == o2
  {
    var s := Encoding(o2);
    ReadsBack(o1, s);
    ReadsBack(o2, s);
  }

  /** Any input that starts with the encoding of an object decodes to that object. */
  lemma ReadsBack(o: Object, s: seq<byte>)
    requires InRange(o) && !Refuses(o) && Encoding(o) <= s
    ensures DecodeObject(s) == Ok(o, |Encoding(o)|)
  {
    var rest := s[|Encoding(o)|..];
    assert s == Encoding(o) + rest;
    WriteThenRead(o, rest);
  }

  /** Exactly which inputs are read: a marker other than 0xC1 with its whole field and type
      byte behind it.  A field of which the first byte is there and some other is missing is
      read by the source as well, with bytes that were never set in it. */
  lemma ReadableInputs(s: seq<byte>)
    ensures DecodeObject(s).Ok? <==>
            s != [] && s[0] != 0xC1 && |s| >= 1 + FieldWidth(s[0]) + (if HasTypeByte(s[0]) then 1 else 0)
    ensures DecodeObject(s).Partial? <==>
            s != [] && s[0] != 0xC1 && 2 <= |s| < 1 + FieldWidth(s[0])
  {
  }

  // ---------------------------------------------------------------- integer families

  /** The object whose header cmp_write_uint emits. */
  function UIntObject(u: uint64): Object {
    if u <= 0x7F then PositiveFixnum(u)
    else if u <= 0xFF then UInt8(u)
    else if u <= 0xFFFF then UInt16(u)
    else if u <= 0xFFFF_FFFF then UInt32(u)
    else UInt64(u)
  }

  /** The object whose header cmp_write_sint emits. */
  function SIntObject(d: int64): Object {
    if d >= 0 then UIntObject(d)
    else if d >= -32 then NegativeFixnum(d)
    else if d >= -128 then SInt8(d)
    else if d >= -32768 then SInt16(d)
    else if d >= -2147483648 then SInt32(d)
    else SInt64(d)
  }

  /** The integer an object of the int format family stands for. */
  function IntValue(o: Object): Option<int> {
    match o
    case PositiveFixnum(u) => Some(u)
    case UInt8(u) => Some(u)
    case UInt16(u) => Some(u)
    case UInt32(u) => Some(u)
    case UInt64(u) => Some(u)
    case NegativeFixnum(s) => Some(s)
    case SInt8(s) => Some(s)
    case SInt16(s) => Some(s)
    case SInt32(s) => Some(s)
    case SInt64(s) => Some(s)
    case _ => None
  }

  /** cmp_read_char on a decoded object; None stands for the invalid-type error. */
  function ReadChar(o: Object): (r: Option<int>)
    ensures r.Some? ==> -0x80 <= r.value < 0x80
  {
    match o
    case PositiveFixnum(u) => Some(Signed(u, 0x100))  // the union member s8
    case NegativeFixnum(s) => Some(s)
    case SInt8(s) => Some(s)
    case UInt8(u) => if u <= 127 then Some(u) else None
    case _ => None
  }

  function ReadShort(o: Object): (r: Option<int>)
    ensures r.Some? ==> -0x8000 <= r.value < 0x8000
  {
    match o
    case PositiveFixnum(u) => Some(Signed(u, 0x100))
    case NegativeFixnum(s) => Some(s)
    case SInt8(s) => Some(s)
    case UInt8(u) => Some(u)
    case SInt16(s) => Some(s)
    case UInt16(u) => if u <= 32767 then Some(u) else None
    case _ => None
  }

  function ReadInt(o: Object): (r: Option<int>)
    ensures r.Some? ==> -0x8000_0000 <= r.value < 0x8000_0000
  {
    match o
    case PositiveFixnum(u) => Some(Signed(u, 0x100))
    case NegativeFixnum(s) => Some(s)
    case SInt8(s) => Some(s)
    case UInt8(u) => Some(u)
    case SInt16(s) => Some(s)
    case UInt16(u) => Some(u)
    case SInt32(s) => Some(s)
    case UInt32(u) => if u <= 2147483647 then Some(u) else None
    case _ => None
  }

  function ReadLong(o: Object): (r: Option<int>)
    ensures r.Some? ==> -0x8000_0000_0000_0000 <= r.value < 0x8000_0000_0000_0000
  {
    match o
    case PositiveFixnum(u) => Some(Signed(u, 0x100))
    case NegativeFixnum(s) => Some(s)
    case SInt8(s) => Some(s)
    case UInt8(u) => Some(u)
    case SInt16(s) => Some(s)
    case UInt16(u) => Some(u)
    case SInt32(s) => Some(s)
    case UInt32(u) => Some(u)
    case SInt64(s) => Some(s)
    case UInt64(u) => if u <= 9223372036854775807 then Some(u) else None
    case _ => None
  }

  function ReadUChar(o: Object): (r: Option<int>)
    ensures r.Some? ==> 0 <= r.value < 0x100
  {
    match o
    case PositiveFixnum(u) => Some(u)
    case UInt8(u) => Some(u)
    case _ => None
  }

  function ReadUShort(o: Object): (r: Option<int>)
    ensures r.Some? ==> 0 <= r.value < 0x1_0000
  {
    match o
    case PositiveFixnum(u) => Some(u)
    case UInt8(u) => Some(u)
    case UInt16(u) => Some(u)
    case _ => None
  }

  function ReadUInt(o: Object): (r: Option<int>)
    ensures r.Some? ==> 0 <= r.value < 0x1_0000_0000
  {
    match o
    case PositiveFixnum(u) => Some(u)
    case UInt8(u) => Some(u)
    case UInt16(u) => Some(u)
    case UInt32(u) => Some(u)
    case _ => None
  }

  function ReadULong(o: Object): (r: Option<int>)
    ensures r.Some? ==> 0 <= r.value < 0x1_0000_0000_0000_0000
  {
    match o
    case PositiveFixnum(u) => Some(u)
    case UInt8(u) => Some(u)
    case UInt16(u) => Some(u)
    case UInt32(u) => Some(u)
    case UInt64(u) => Some(u)
    case _ => None
  }

  /** What cmp_write_sint writes for d is in range, stands for d and decodes to itself. */
  lemma SIntReadsBack(d: int64, rest: seq<byte>)
    ensures var o := SIntObject(d);
            && InRange(o) && !Refuses(o)
            && IntValue(o) == Some(d)
            && DecodeObject(Encoding(o) + rest) == Ok(o, |Encoding(o)|)
  {
    hide Encoding, DecodeObject;
    WriteThenRead(SIntObject(d), rest);
  }

  lemma UIntReadsBack(u: uint64, rest: seq<byte>)
    ensures var o := UIntObject(u);
            && InRange(o) && !Refuses(o)
            && IntValue(o) == Some(u)
            && DecodeObject(Encoding(o) + rest) == Ok(o, |Encoding(o)|)
  {
    hide Encoding, DecodeObject;
    WriteThenRead(UIntObject(u), rest);
  }

  /** A width-limited signed reader accepts what cmp_write_sint wrote for d exactly when d
      fits its width, and then returns d. */
  lemma SignedReaders(d: int64)
    ensures ReadChar(SIntObject(d)) == (if -0x80 <= d < 0x80 then Some(d) else None)
    ensures ReadShort(SIntObject(d)) == (if -0x8000 <= d < 0x8000 then Some(d) else None)
    ensures ReadInt(SIntObject(d)) == (if -0x8000_0000 <= d < 0x8000_0000 then Some(d) else None)
    ensures ReadLong(SIntObject(d)) == Some(d)
  {
  }

  lemma UnsignedReaders(u: uint64)
    ensures ReadUChar(UIntObject(u)) == (if u < 0x100 then Some(u) else None)
    ensures ReadUShort(UIntObject(u)) == (if u < 0x1_0000 then Some(u) else None)
    ensures ReadUInt(UIntObject(u)) == (if u < 0x1_0000_0000 then Some(u) else None)
    ensures ReadULong(UIntObject(u)) == Some(u)
  {
  }

  /** A reader never returns a value other than the one the object stands for, whatever
      encoding the input used. */
  lemma ReadersAgree(o: Object)
    requires InRange(o)
    ensures ReadChar(o).Some? ==> IntValue(o) == Some(ReadChar(o).value)
    ensures ReadShort(o).Some? ==> IntValue(o) == Some(ReadShort(o).value)
    ensures ReadInt(o).Some? ==> IntValue(o) == Some(ReadInt(o).value)
    ensures ReadLong(o).Some? ==> IntValue(o) == Some(ReadLong(o).value)
    ensures ReadUChar(o).Some? ==> IntValue(o) == Some(ReadUChar(o).value)
    ensures ReadUShort(o).Some? ==> IntValue(o) == Some(ReadUShort(o).value)
    ensures ReadUInt(o).Some? ==> IntValue(o) == Some(ReadUInt(o).value)
    ensures ReadULong(o).Some? ==> IntValue(o) == Some(ReadULong(o).value)
    ensures ReadLong(o).None? && IntValue(o).Some? ==> IntValue(o).value >= 0x8000_0000_0000_0000
  {
  }

  /** The number of bytes of an int-family encoding, by object. */
  function IntLength(o: Object): (n: nat)
    requires IntValue(o).Some?
  {
    match o
    case PositiveFixnum(_) => 1
    case NegativeFixnum(_) => 1
    case UInt8(_) => 2
    case SInt8(_) => 2
    case UInt16(_) => 3
    case SInt16(_) => 3
    case UInt32(_) => 5
    case SInt32(_) => 5
    case _ => 9
  }

  lemma IntLengthIsEncodingLength(o: Object)
    requires IntValue(o).Some? && !Refuses(o)
    ensures |Encoding(o)| == IntLength(o)
  {
  }

  /** cmp_write_sint and cmp_write_uint emit a shortest int-family encoding of the value. */
  lemma ShortestSInt(d: int64, other: Object)
    requires InRange(other) && !Refuses(other) && IntValue(other) == Some(d)
    ensures !Refuses(SIntObject(d)) && |Encoding(SIntObject(d))| <= |Encoding(other)|
  {
    IntLengthIsEncodingLength(SIntObject(d));
    IntLengthIsEncodingLength(other);
    ShortestByObject(d, other);
  }

  lemma ShortestUInt(u: uint64, other: Object)
    requires InRange(other) && !Refuses(other) && IntValue(other) == Some(u)
    ensures !Refuses(UIntObject(u)) && |Encoding(UIntObject(u))| <= |Encoding(other)|
  {
    IntLengthIsEncodingLength(UIntObject(u));
    IntLengthIsEncodingLength(other);
    ShortestByObject(u, other);
  }

  lemma ShortestByObject(d: int, other: Object)
    requires -0x8000_0000_0000_0000 <= d < 0x1_0000_0000_0000_0000
    requires InRange(other) && IntValue(other) == Some(d)
    ensures d < 0x8000_0000_0000_0000 ==> IntLength(SIntObject(d)) <= IntLength(other)
    ensures d >= 0 ==> IntLength(UIntObject(d)) <= IntLength(other)
  {
  }
}
