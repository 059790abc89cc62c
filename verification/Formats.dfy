/** The table in the section "Formats" of the MessagePack specification, written out byte by
    byte, and the writers and readers of cmp.c measured against it. */
module Formats {
  import opened Bytes
  import opened Cmp
  import opened CmpUtil
  import opened Wrappers

  // ---------------------------------------------------------------- the table

  // Numbers of two, four and eight bytes, most significant byte first.

  function Two(v: nat): (s: seq<byte>)
    ensures |s| == 2
  {
    [v / 0x100 % 0x100, v % 0x100]
  }

  function Four(v: nat): (s: seq<byte>)
    ensures |s| == 4
  {
    [v / 0x100_0000 % 0x100, v / 0x1_0000 % 0x100, v / 0x100 % 0x100, v % 0x100]
  }

  function Eight(v: nat): (s: seq<byte>)
    ensures |s| == 8
  {
    [v / 0x100_0000_0000_0000 % 0x100, v / 0x1_0000_0000_0000 % 0x100,
     v / 0x100_0000_0000 % 0x100, v / 0x1_0000_0000 % 0x100,
     v / 0x100_0000 % 0x100, v / 0x1_0000 % 0x100, v / 0x100 % 0x100, v % 0x100]
  }

  /** The bytes of every object in range.  A negative number has the bytes of its remainder
      modulo 2 to the power of its width, which is two's complement. */
  function Format(o: Object): (s: seq<byte>)
    requires InRange(o)
    ensures s != []
  {
    match o
    case PositiveFixnum(u) => [u]
    case FixMap(n) => [0x80 + n]
    case FixArray(n) => [0x90 + n]
    case FixStr(n) => [0xA0 + n]
    case Nil => [0xC0]
    case Boolean(b) => if b then [0xC3] else [0xC2]
    case Bin8(n) => [0xC4, n]
    case Bin16(n) => [0xC5] + Two(n)
    case Bin32(n) => [0xC6] + Four(n)
    case Ext8(t, n) => [0xC7, n, t % 0x100]
    case Ext16(t, n) => [0xC8] + Two(n) + [t % 0x100]
    case Ext32(t, n) => [0xC9] + Four(n) + [t % 0x100]
    case Float(f) => [0xCA] + Four(f)
    case Double(d) => [0xCB] + Eight(d)
    case UInt8(u) => [0xCC, u]
    case UInt16(u) => [0xCD] + Two(u)
    case UInt32(u) => [0xCE] + Four(u)
    case UInt64(u) => [0xCF] + Eight(u)
    case SInt8(d) => [0xD0, d % 0x100]
    case SInt16(d) => [0xD1] + Two(d % 0x1_0000)
    case SInt32(d) => [0xD2] + Four(d % 0x1_0000_0000)
    case SInt64(d) => [0xD3] + Eight(d % 0x1_0000_0000_0000_0000)
    case FixExt1(t, _) => [0xD4, t % 0x100]
    case FixExt2(t, _) => [0xD5, t % 0x100]
    case FixExt4(t, _) => [0xD6, t % 0x100]
    case FixExt8(t, _) => [0xD7, t % 0x100]
    case FixExt16(t, _) => [0xD8, t % 0x100]
    case Str8(n) => [0xD9, n]
    case Str16(n) => [0xDA] + Two(n)
    case Str32(n) => [0xDB] + Four(n)
    case Array16(n) => [0xDC] + Two(n)
    case Array32(n) => [0xDD] + Four(n)
    case Map16(n) => [0xDE] + Two(n)
    case Map32(n) => [0xDF] + Four(n)
    case NegativeFixnum(d) => [0x100 + d]
  }

  lemma OneByte(v: nat)
    requires v < 0x100
    ensures v < Pow256(1) && BigEndian(v, 1) == [v]
  {
    LimitIsPower(1);
    PlaceValue(v, 1, 0);
    assert Pow256(0) == 1;
  }

  lemma TwoBytes(v: nat)
    requires v < 0x1_0000
    ensures v < Pow256(2) && BigEndian(v, 2) == Two(v)
  {
    hide BigEndian;
    LimitIsPower(1);
    LimitIsPower(2);
    assert Pow256(0) == 1;
    PlaceValue(v, 2, 0);
    PlaceValue(v, 2, 1);
  }

  lemma Powers()
    ensures Pow256(0) == 1 && Pow256(1) == 0x100 && Pow256(2) == 0x1_0000 && Pow256(3) == 0x100_0000
    ensures Pow256(4) == 0x1_0000_0000 && Pow256(5) == 0x100_0000_0000
    ensures Pow256(6) == 0x1_0000_0000_0000 && Pow256(7) == 0x100_0000_0000_0000
    ensures Pow256(8) == 0x1_0000_0000_0000_0000
  {
  }

  lemma FourBytes(v: nat)
    requires v < 0x1_0000_0000
    ensures v < Pow256(4) && BigEndian(v, 4) == Four(v)
  {
    hide BigEndian, Pow256;
    Powers();
    PlaceValue(v, 4, 0);
    PlaceValue(v, 4, 1);
    PlaceValue(v, 4, 2);
    PlaceValue(v, 4, 3);
  }

  lemma EightBytes(v: nat)
    requires v < 0x1_0000_0000_0000_0000
    ensures v < Pow256(8) && BigEndian(v, 8) == Eight(v)
  {
    hide BigEndian, Pow256;
    Powers();
    PlaceValue(v, 8, 0);
    PlaceValue(v, 8, 1);
    PlaceValue(v, 8, 2);
    PlaceValue(v, 8, 3);
    PlaceValue(v, 8, 4);
    PlaceValue(v, 8, 5);
    PlaceValue(v, 8, 6);
    PlaceValue(v, 8, 7);
  }

  // ---------------------------------------------------------------- the writers

  /** The bytes for a marker, its field and its type byte. */
  function Laid(p: Parts): seq<byte>
    requires p.value < Limit(FieldWidth(p.marker))
  {
    var w := FieldWidth(p.marker);
    [p.marker]
    + (if w == 0 then [] else if w == 1 then [p.value]
       else if w == 2 then Two(p.value) else if w == 4 then Four(p.value) else Eight(p.value))
    + (if HasTypeByte(p.marker) then [p.typeByte] else [])
  }

  lemma PartsLaid(p: Parts)
    requires p.value < Limit(FieldWidth(p.marker))
    ensures PartsBytes(p) == Laid(p)
  {
    hide Pow256, BigEndian, Two, Four, Eight, FieldWidth, HasTypeByte;
    var w := FieldWidth(p.marker);
    LimitIsPower(w);
    if w == 1 {
      OneByte(p.value);
    } else if w == 2 {
      TwoBytes(p.value);
    } else if w == 4 {
      FourBytes(p.value);
    } else if w == 8 {
      EightBytes(p.value);
    } else {
      NoBytes(p.value);
    }
  }

  lemma NoBytes(v: nat)
    requires v < Pow256(0)
    ensures BigEndian(v, 0) == []
  {
  }

  predicate Number(o: Object) {
    || o.UInt8? || o.UInt16? || o.UInt32? || o.UInt64? || o.SInt8? || o.SInt16? || o.SInt32? || o.SInt64?
    || o.Float? || o.Double?
  }

  predicate Ext(o: Object) {
    o.Ext8? || o.Ext16? || o.Ext32?
  }

  predicate FixExt(o: Object) {
    o.FixExt1? || o.FixExt2? || o.FixExt4? || o.FixExt8? || o.FixExt16?
  }

  predicate Sized(o: Object) {
    || o.Bin8? || o.Bin16? || o.Bin32? || o.Str8? || o.Str16? || o.Str32?
    || o.Array16? || o.Array32? || o.Map16? || o.Map32?
  }

  predicate Fix(o: Object) {
    o.PositiveFixnum? || o.NegativeFixnum? || o.FixMap? || o.FixArray? || o.FixStr?
  }

  lemma NumberLaid(o: Object)
    requires Number(o) && InRange(o) && !Refuses(o)
    ensures Laid(ObjectParts(o)) == Format(o)
  {
    hide Two, Four, Eight;
  }

  lemma ExtLaid(o: Object)
    requires Ext(o) && InRange(o) && !Refuses(o)
    ensures Laid(ObjectParts(o)) == Format(o)
  {
    hide Two, Four, Eight;
  }

  lemma FixExtLaid(o: Object)
    requires FixExt(o) && InRange(o) && !Refuses(o)
    ensures Laid(ObjectParts(o)) == Format(o)
  {
    hide Two, Four, Eight;
  }

  lemma SizedLaid(o: Object)
    requires Sized(o) && InRange(o) && !Refuses(o)
    ensures Laid(ObjectParts(o)) == Format(o)
  {
    hide Two, Four, Eight;
  }

  lemma ShortLaid(o: Object)
    requires (Fix(o) || o.Nil? || o.Boolean?) && InRange(o) && !Refuses(o)
    ensures Laid(ObjectParts(o)) == Format(o)
  {
    hide Two, Four, Eight;
  }

  /** What cmp_write_object writes for an object in range is its row of the table. */
  lemma FormatTable(o: Object)
    requires InRange(o)
    ensures !Refuses(o) && Encoding(o) == Format(o)
  {
    hide Laid, Format, ObjectParts;
    InRangeAccepted(o);
    PartsLaid(ObjectParts(o));
    if Number(o) {
      NumberLaid(o);
    } else if Ext(o) {
      ExtLaid(o);
    } else if FixExt(o) {
      FixExtLaid(o);
    } else if Sized(o) {
      SizedLaid(o);
    } else {
      ShortLaid(o);
    }
  }

  /** An object after the conversion of its size to the parameter type of its writer. */
  function Converted(o: Object): Object {
    match o
    case FixMap(n) => FixMap(n % 0x100)
    case FixArray(n) => FixArray(n % 0x100)
    case FixStr(n) => FixStr(n % 0x100)
    case Bin8(n) => Bin8(n % 0x100)
    case Bin16(n) => Bin16(n % 0x1_0000)
    case Ext8(t, n) => Ext8(t, n % 0x100)
    case Ext16(t, n) => Ext16(t, n % 0x1_0000)
    case FixExt1(t, _) => FixExt1(t, 1)
    case FixExt2(t, _) => FixExt2(t, 2)
    case FixExt4(t, _) => FixExt4(t, 4)
    case FixExt8(t, _) => FixExt8(t, 8)
    case FixExt16(t, _) => FixExt16(t, 16)
    case Str8(n) => Str8(n % 0x100)
    case Str16(n) => Str16(n % 0x1_0000)
    case Array16(n) => Array16(n % 0x1_0000)
    case Map16(n) => Map16(n % 0x1_0000)
    case _ => o
  }

  /** An object out of range is refused or written as another, and which of the two depends on
      its converted size: a fixmap of 256 entries is written as one of none, one of 16 is
      refused. */
  lemma OutOfRange(o: Object)
    ensures Refuses(o) <==> !InRange(Converted(o))
    ensures !Refuses(o) ==> Encoding(o) == Format(Converted(o))
  {
    hide Format, Encoding;
    RefusedByRange(o);
    if !Refuses(o) {
      SameParts(o);
      FormatTable(Converted(o));
    }
  }

  lemma RefusedByRange(o: Object)
    ensures Refuses(o) <==> !InRange(Converted(o))
  {
  }

  lemma SameParts(o: Object)
    requires !Refuses(o) && !Refuses(Converted(o))
    ensures ObjectParts(o) == ObjectParts(Converted(o))
    ensures Encoding(o) == Encoding(Converted(o))
  {
    hide PartsBytes, Limit, FieldWidth, TypeByte, ObjectParts, Converted;
    if Ext(o) || FixExt(o) {
      SameExtParts(o);
    } else {
      SameOtherParts(o);
    }
  }

  lemma SameExtParts(o: Object)
    requires !Refuses(o) && !Refuses(Converted(o)) && (Ext(o) || FixExt(o))
    ensures ObjectParts(o) == ObjectParts(Converted(o))
  {
    hide Limit, FieldWidth, TypeByte;
  }

  lemma SameOtherParts(o: Object)
    requires !Refuses(o) && !Refuses(Converted(o)) && !Ext(o) && !FixExt(o)
    ensures ObjectParts(o) == ObjectParts(Converted(o))
  {
    hide Limit, FieldWidth, TypeByte;
  }

  /** The calls by which an object is written, and the error that each leaves behind when it
      finds no room: none for the value of a number. */
  lemma WriteCalls(o: Object)
    requires InRange(o)
    ensures var s := Format(o);
            Header(o) ==
              if Fix(o) then [Call(s, FixedValueWriting)]
              else if o.Nil? || o.Boolean? then [Call(s, TypeMarkerWriting)]
              else if Ext(o) then
                [Call(s[..1], TypeMarkerWriting), Call(s[1..|s| - 1], LengthWriting),
                 Call(s[|s| - 1..], ExtTypeWriting)]
              else
                [Call(s[..1], TypeMarkerWriting),
                 Call(s[1..], if Number(o) then ErrorNone else if FixExt(o) then ExtTypeWriting else LengthWriting)]
  {
    hide Format, BigEndian, Pow256, FieldWidth, HasTypeByte, MarkerError, FieldWriteError, ObjectParts;
    FormatTable(o);
    var p := ObjectParts(o);
    var w := FieldWidth(p.marker);
    LimitIsPower(w);
    var field := BigEndian(p.value, w);
    var s := Format(o);
    assert s == [p.marker] + field + (if HasTypeByte(p.marker) then [p.typeByte] else []);
    Markers(o);
    if Fix(o) || o.Nil? || o.Boolean? {
      NoBytes(p.value);
      assert s == [p.marker];
    } else if Ext(o) {
      assert s[..1] == [p.marker] && s[1..|s| - 1] == field && s[|s| - 1..] == [p.typeByte];
    } else {
      assert s[..1] == [p.marker] && s[1..] == field;
    }
  }

  /** The marker tells the family of the object. */
  lemma Markers(o: Object)
    requires InRange(o) && !Refuses(o)
    ensures var m := ObjectParts(o).marker;
            && MarkerError(m) == (if Fix(o) then FixedValueWriting else TypeMarkerWriting)
            && (HasTypeByte(m) <==> Ext(o))
            && (FieldWidth(m) == 0 <==> Fix(o) || o.Nil? || o.Boolean?)
            && (FieldWidth(m) > 0 ==>
                  FieldWriteError(m)
                  == (if Number(o) then ErrorNone else if FixExt(o) then ExtTypeWriting else LengthWriting))
            && FieldReadError(m)
               == (if o.Bin8? || o.Bin16? || o.Bin32? || Ext(o) then LengthReading
                   else if FixExt(o) then ExtTypeReading
                   else DataReading)
  {
  }

  /** With room for it, an object in range is written as its row of the table. */
  lemma HeaderWritten(k: Sink, o: Object)
    requires InRange(o) && Placed(k)
    requires !k.mode.Counter? ==> k.off + |Format(o)| <= k.len
    ensures var s := Format(o);
            Perform(k, Header(o))
            == Outcome(k.(off := k.off + |s|, out := if k.mode.Counter? then k.out else k.out + s), true)
  {
    hide Format, Perform, Encoding, ObjectCalls;
    FormatTable(o);
    HeaderProperties(o);
    var s := Format(o);
    LastCallInside(Header(o));
    assert Header(o)[|Header(o)| - 1] in Header(o);
    PerformStores(k, Header(o));
    PerformOk(k, Header(o));
    assert s[..|s|] == s;
  }

  // ---------------------------------------------------------------- the reader

  /** A row of the table is read as its object, whatever follows it. */
  lemma FormatIsRead(o: Object, rest: seq<byte>)
    requires InRange(o)
    ensures DecodeObject(Format(o) + rest) == Ok(o, |Format(o)|)
  {
    hide Format, DecodeObject;
    FormatTable(o);
    WriteThenRead(o, rest);
  }

  /** What the reader reports for an input that ends behind the marker, or before the type
      byte of an ext object. */
  lemma CutFormat(o: Object)
    requires InRange(o) && |Format(o)| > 1
    ensures var s := Format(o);
            && DecodeObject(s[..1])
               == Failed(if o.Bin8? || o.Bin16? || o.Bin32? || Ext(o) then LengthReading
                         else if FixExt(o) then ExtTypeReading
                         else DataReading)
            && (Ext(o) ==> DecodeObject(s[..|s| - 1]) == Failed(ExtTypeReading))
  {
    hide Format, BigEndian, Pow256, FieldWidth, HasTypeByte, FieldReadError, ObjectParts;
    FormatTable(o);
    var p := ObjectParts(o);
    LimitIsPower(FieldWidth(p.marker));
    Markers(o);
    var s := Format(o);
    assert s[..1][0] == p.marker && s[..|s| - 1][0] == p.marker;
  }

  lemma Unreadable(rest: seq<byte>)
    ensures DecodeObject([]) == Failed(TypeMarkerReading)
    ensures DecodeObject([0xC1] + rest) == Failed(InvalidType)
  {
  }

  /** Which objects each integer reader accepts: those of the int format family that take no
      more bytes than the widest encoding of its type and whose value fits the type; the
      unsigned readers take no signed format. */
  lemma ReadersAccept(o: Object)
    requires InRange(o)
    ensures ReadChar(o) == if FitsInto(o, 2, -0x80, 0x80) then IntValue(o) else None
    ensures ReadShort(o) == if FitsInto(o, 3, -0x8000, 0x8000) then IntValue(o) else None
    ensures ReadInt(o) == if FitsInto(o, 5, -0x8000_0000, 0x8000_0000) then IntValue(o) else None
    ensures ReadLong(o)
            == if FitsInto(o, 9, -0x8000_0000_0000_0000, 0x8000_0000_0000_0000) then IntValue(o) else None
    ensures ReadUChar(o) == if FitsInto(o, 2, 0, 0x100) && UnsignedFormat(o) then IntValue(o) else None
    ensures ReadUShort(o) == if FitsInto(o, 3, 0, 0x1_0000) && UnsignedFormat(o) then IntValue(o) else None
    ensures ReadUInt(o) == if FitsInto(o, 5, 0, 0x1_0000_0000) && UnsignedFormat(o) then IntValue(o) else None
    ensures ReadULong(o)
            == if FitsInto(o, 9, 0, 0x1_0000_0000_0000_0000) && UnsignedFormat(o) then IntValue(o) else None
  {
    hide Two, Four, Eight;
  }

  predicate FitsInto(o: Object, bytes: nat, min: int, max: int)
    requires InRange(o)
  {
    IntValue(o).Some? && |Format(o)| <= bytes && min <= IntValue(o).value < max
  }

  predicate UnsignedFormat(o: Object) {
    o.PositiveFixnum? || o.UInt8? || o.UInt16? || o.UInt32? || o.UInt64?
  }

  // ---------------------------------------------------------------- the choice of a format

  /** cmp_write_sint takes an unsigned format for a number that is not negative. */
  lemma NonNegative(d: int64)
    ensures d >= 0 ==> SIntObject(d) == UIntObject(d) && UnsignedFormat(SIntObject(d))
    ensures d < 0 ==> !UnsignedFormat(SIntObject(d))
  {
  }

  predicate IsStr(o: Object, n: uint32) {
    (o.FixStr? || o.Str8? || o.Str16? || o.Str32?) && o.size == n && InRange(o)
  }

  predicate IsArray(o: Object, n: uint32) {
    (o.FixArray? || o.Array16? || o.Array32?) && o.size == n && InRange(o)
  }

  /** cmp_write_str and cmp_write_array pick the one shortest header for a size. */
  lemma ShortestStr(n: uint32, other: Object)
    requires IsStr(other, n)
    ensures IsStr(StrObject(n), n)
    ensures other == StrObject(n) || |Format(StrObject(n))| < |Format(other)|
  {
    hide Two, Four, Eight;
  }

  lemma ShortestArray(n: uint32, other: Object)
    requires IsArray(other, n)
    ensures IsArray(ArrayObject(n), n)
    ensures other == ArrayObject(n) || |Format(ArrayObject(n))| < |Format(other)|
  {
    hide Two, Four, Eight;
  }
}
