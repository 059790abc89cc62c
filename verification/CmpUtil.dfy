/** The CMP contexts of cmp_util.c (byte counter, bounded copy, unchecked copy) and the
    writers of cmp.c that run on them.

    `Sink` is the abstract state of a context and `Perform` what a list of write calls
    does to it.  Every method of `Context` is proved to do exactly `Perform` of its calls. */
module CmpUtil {
  import opened Bytes
  import opened Cmp

  /** Which function the context's write pointer holds. */
  datatype Mode = Counter | Bounded | Unchecked

  /** The state of a context: `off` is the cursor (the count of a counter), `len` the space
      it was given and `out` the bytes it has copied there. */
  datatype Sink = Sink(mode: Mode, len: nat, off: nat, error: Error, out: seq<byte>)

  /** A context whose cursor lies in its space. */
  predicate Placed(k: Sink) {
    k.mode.Counter? || k.off <= k.len
  }

  /** The number of bytes a write call takes: all of them, unless a bounded copy is short of
      room. */
  function Taken(k: Sink, n: nat): (t: nat)
    ensures t <= n
  {
    if k.mode.Bounded? && k.len < k.off + n then (if k.off <= k.len then k.len - k.off else 0) else n
  }

  /** The state after the write callback was given data. */
  function AfterWrite(k: Sink, data: seq<byte>): Sink {
    var n := Taken(k, |data|);
    k.(off := k.off + n, out := if k.mode.Counter? then k.out else k.out + data[..n])
  }

  datatype Outcome = Outcome(sink: Sink, ok: bool)

  /** A sequence of write calls; the first that writes nothing ends it with an error. */
  function Perform(k: Sink, calls: seq<Call>): Outcome
    decreases |calls|
  {
    if calls == [] then Outcome(k, true)
    else if Taken(k, |calls[0].data|) == 0 then
      Outcome(if calls[0].error.ErrorNone? then k else k.(error := calls[0].error), false)
    else Perform(AfterWrite(k, calls[0].data), calls[1..])
  }

  /** An unchecked copy is only called with a total that fits what was set aside. */
  predicate Reserved(k: Sink, n: nat) {
    k.mode.Unchecked? ==> k.off + n <= k.len
  }

  lemma {:induction false} PerformAppend(k: Sink, a: seq<Call>, b: seq<Call>)
    ensures var first := Perform(k, a);
            Perform(k, a + b) == if first.ok then Perform(first.sink, b) else first
    decreases |a|
  {
    if a == [] {
      assert a + b == b;
    } else {
      assert (a + b)[0] == a[0] && (a + b)[1..] == a[1..] + b;
      if Taken(k, |a[0].data|) != 0 {
        PerformAppend(AfterWrite(k, a[0].data), a[1..], b);
      }
    }
  }

  predicate NonEmpty(calls: seq<Call>) {
    forall c <- calls :: c.data != []
  }

  /** Two writes in a row are one write of both. */
  lemma WriteTwice(k: Sink, a: seq<byte>, b: seq<byte>)
    requires Placed(k) && Reserved(k, |a| + |b|)
    ensures AfterWrite(AfterWrite(k, a), b) == AfterWrite(k, a + b)
  {
    var n, m := Taken(k, |a|), Taken(AfterWrite(k, a), |b|);
    assert (a + b)[..n + m] == a[..n] + b[..m];
  }

  /** In every mode, a sequence of calls stores what one write of all their bytes would: all
      of them, or the longest prefix that a bounded copy has room for. */
  lemma {:induction false} PerformStores(k: Sink, calls: seq<Call>)
    requires Placed(k) && NonEmpty(calls) && Reserved(k, |Flat(calls)|)
    ensures Perform(k, calls).sink.(error := k.error) == AfterWrite(k, Flat(calls))
    ensures Perform(k, calls).ok ==> Perform(k, calls).sink.error == k.error
    decreases |calls|
  {
    if calls == [] {
      assert Flat(calls)[..0] == [];
    } else if Taken(k, |calls[0].data|) == 0 {
      assert Flat(calls)[..0] == [];
    } else {
      PerformStores(AfterWrite(k, calls[0].data), calls[1..]);
      WriteTwice(k, calls[0].data, Flat(calls[1..]));
    }
  }

  /** The counter and the unchecked copy always report success.  The bounded copy does so
      exactly when its last call could still write something: a cut inside the last call
      goes unnoticed. */
  lemma {:induction false} PerformOk(k: Sink, calls: seq<Call>)
    requires Placed(k) && NonEmpty(calls) && Reserved(k, |Flat(calls)|)
    ensures Perform(k, calls).ok <==>
            !k.mode.Bounded? || calls == [] || |Flat(calls)| - |calls[|calls| - 1].data| < k.len - k.off
    decreases |calls|
  {
    if calls != [] {
      LastCallInside(calls);
      LastCallInside(calls[1..]);
      PerformOk(AfterWrite(k, calls[0].data), calls[1..]);
    }
  }

  /** One step of a writer that stops at the first failure: the calls c come first, and the
      space set aside for the rest is still there when they succeed. */
  lemma Advance(k: Sink, c: seq<Call>, rest: seq<Call>)
    requires Placed(k) && NonEmpty(c) && Reserved(k, |Flat(c + rest)|)
    ensures var first := Perform(k, c);
            Perform(k, c + rest) == if first.ok then Perform(first.sink, rest) else first
    ensures Reserved(k, |Flat(c)|)
    ensures Perform(k, c).ok ==> Reserved(Perform(k, c).sink, |Flat(rest)|)
  {
    FlatAppend(c, rest);
    PerformAppend(k, c, rest);
    PerformStores(k, c);
  }

  lemma {:induction false} LastCallInside(calls: seq<Call>)
    ensures calls != [] ==> |calls[|calls| - 1].data| <= |Flat(calls)|
  {
    if |calls| > 1 {
      LastCallInside(calls[1..]);
    }
  }

  // ---------------------------------------------------------------- strings

  /** The calls for a header that is in range. */
  function Header(o: Object): (calls: seq<Call>)
    requires InRange(o)
  {
    ObjectCalls(o).calls
  }

  lemma HeaderProperties(o: Object)
    requires InRange(o)
    ensures !Refuses(o) && Flat(Header(o)) == Encoding(o) && NonEmpty(Header(o)) && Header(o) != []
  {
    hide InRange, Refuses, ObjectParts, FieldWidth, HasTypeByte, Encoding, Flat, Limit;
    InRangeAccepted(o);
    ObjectCallsEncoding(o);
  }

  /** The string body; nothing is written for an empty string. */
  function DataCalls(data: seq<byte>): seq<Call> {
    if data == [] then [] else [Call(data, DataWriting)]
  }

  function FixStrCalls(data: seq<byte>): seq<Call>
    requires |data| <= 0x1F
  {
    Header(FixStr(|data|)) + DataCalls(data)
  }

  /** cmp_write_str16 of a C string: its length is cut to uint16_t, and only that many bytes
      follow. */
  function Str16Calls(data: seq<byte>): seq<Call> {
    var n := |data| % 0x1_0000;
    Header(Str16(n)) + DataCalls(data[..n])
  }

  /** The header object cmp_write_str chooses for a length. */
  function StrObject(n: uint32): (o: Object)
    ensures InRange(o)
  {
    if n <= 0x1F then FixStr(n)
    else if n <= 0xFF then Str8(n)
    else if n <= 0xFFFF then Str16(n)
    else Str32(n)
  }

  function StrCalls(data: seq<byte>): seq<Call> {
    var n := |data| % 0x1_0000_0000;
    Header(StrObject(n)) + DataCalls(data[..n])
  }

  function ArrayObject(n: uint32): (o: Object)
    ensures InRange(o)
  {
    if n <= 0xF then FixArray(n) else if n <= 0xFFFF then Array16(n) else Array32(n)
  }

  // ---------------------------------------------------------------- the contexts

  class Context {
    const mode: Mode
    const bigEndianHost: bool
    const buf: array<byte>
    const start: nat
    const len: nat
    var off: nat
    var error: Error

    ghost predicate Valid()
      reads this
    {
      mode.Counter? || (off <= len && start + len <= buf.Length)
    }

    ghost function View(): Sink
      reads this, buf
      requires Valid()
    {
      Sink(mode, len, off, error, if mode.Counter? then [] else buf[start..start + off])
    }

    /** Nothing but the space between the old and the new cursor was written. */
    twostate predicate OnlyAppended()
      reads this, buf
    {
      && old(off) <= off
      && forall j :: 0 <= j < buf.Length && !(start + old(off) <= j < start + off) ==> buf[j] == old(buf[j])
    }

    /** cmp_counter_ctx_init. */
    constructor CounterInit(bigEndianHost: bool)
      ensures Valid() && fresh(buf)
      ensures View() == Sink(Counter, 0, 0, ErrorNone, [])
    {
      this.mode, this.bigEndianHost := Counter, bigEndianHost;
      buf, start, len := new byte[0], 0, 0;
      off, error := 0, ErrorNone;
    }

    /** cmp_bcopy_ctx_init on the bytes from start, with the write function to use. */
    constructor CopyInit(mode: Mode, buf: array<byte>, start: nat, len: nat, bigEndianHost: bool)
      requires !mode.Counter? && start + len <= buf.Length
      ensures Valid() && this.buf == buf && this.start == start
      ensures View() == Sink(mode, len, 0, ErrorNone, [])
    {
      this.mode, this.bigEndianHost := mode, bigEndianHost;
      this.buf, this.start, this.len := buf, start, len;
      off, error := 0, ErrorNone;
    }

    /** cmp_counter_write_fn, cmp_bcopy_write_fn and cmp_bcopy_write_nocheck_fn. */
    method Write(data: seq<byte>) returns (count: nat)
      requires Valid() && Reserved(View(), |data|)
      modifies this`off, buf
      ensures Valid() && View() == AfterWrite(old(View()), data)
      ensures OnlyAppended()
      ensures count == Taken(old(View()), |data|)
    {
      count := |data|;
      if mode.Counter? {
        off := off + count;
        return;
      }
      if mode.Bounded? {
        var rem := len - off;
        if rem < count {
          count := rem;
        }
      }
      ghost var taken := Taken(View(), |data|);
      assert count == taken;
      Append(data[..count]);
    }

    method Append(data: seq<byte>)
      requires Valid() && !mode.Counter? && off + |data| <= len
      modifies this`off, buf
      ensures Valid() && off == old(off) + |data|
      ensures buf[start..start + off] == old(buf[start..start + off]) + data
      ensures OnlyAppended()
    {
      ghost var copied := buf[start..start + off];
      CopyBytes(start + off, data);
      assert buf[start..start + off] == copied;
      off := off + |data|;
      assert buf[start..start + off] == buf[start..start + old(off)] + buf[start + old(off)..start + off];
    }

    /** memcpy into the buffer. */
    method CopyBytes(at: nat, data: seq<byte>)
      requires at + |data| <= buf.Length
      modifies buf
      ensures buf[at..at + |data|] == data
      ensures forall j :: 0 <= j < buf.Length && !(at <= j < at + |data|) ==> buf[j] == old(buf[j])
    {
      for i := 0 to |data|
        invariant buf[at..at + i] == data[..i]
        invariant forall j :: 0 <= j < buf.Length && !(at <= j < at + i) ==> buf[j] == old(buf[j])
      {
        buf[at + i] := data[i];
        assert buf[at..at + i + 1] == buf[at..at + i] + [data[i]];
      }
      assert data[..|data|] == data;
    }

    /** One write whose failure the caller records: write_type_marker, write_fixed_value and
        the field and data writes of cmp.c. */
    method WriteCall(c: Call) returns (ok: bool)
      requires Valid() && Reserved(View(), |c.data|) && c.data != []
      modifies this`off, this`error, buf
      ensures Valid() && Outcome(View(), ok) == Perform(old(View()), [c])
      ensures OnlyAppended()
    {
      ghost var before := View();
      var count := Write(c.data);
      ok := count != 0;
      if ok {
        assert Perform(before, [c]) == Perform(AfterWrite(before, c.data), []);
      } else {
        assert c.data[..0] == [];
        if c.error != ErrorNone {
          error := c.error;
        }
      }
    }

    /** A marker and a field in network byte order. */
    method WriteField(p: Parts, w: nat) returns (ok: bool)
      requires w == 0 || w == 1 || w == 2 || w == 4 || w == 8
      requires p.value < Pow256(w)
      requires Valid() && Reserved(View(), 1 + w)
      modifies this`off, this`error, buf
      ensures Valid() && Outcome(View(), ok) == Perform(old(View()), HeaderCalls(p, w, false))
      ensures OnlyAppended()
    {
      ghost var marker := [Call([p.marker], MarkerError(p.marker))];
      ghost var field := if w > 0 then [Call(BigEndian(p.value, w), FieldWriteError(p.marker))] else [];
      assert HeaderCalls(p, w, false) == marker + field;
      PerformAppend(View(), marker, field);
      ok := WriteCall(Call([p.marker], MarkerError(p.marker)));
      if ok && w > 0 {
        var wire := NetworkBytes(p.value, w);
        ok := WriteCall(Call(wire, FieldWriteError(p.marker)));
      }
    }

    /** The same with the type byte of the ext formats behind it. */
    method WriteHeader(p: Parts, w: nat, hasType: bool) returns (ok: bool)
      requires w == 0 || w == 1 || w == 2 || w == 4 || w == 8
      requires p.value < Pow256(w)
      requires Valid() && Reserved(View(), |HeaderBytes(p, w, hasType)|)
      modifies this`off, this`error, buf
      ensures Valid() && Outcome(View(), ok) == Perform(old(View()), HeaderCalls(p, w, hasType))
      ensures OnlyAppended()
    {
      ghost var before, calls := View(), HeaderCalls(p, w, false);
      HeaderCallsBytes(p, w, false);
      ok := WriteField(p, w);
      if hasType {
        HeaderCallsBytes(p, w, true);
        assert HeaderCalls(p, w, true) == calls + [Call([p.typeByte], ExtTypeWriting)];
        Advance(before, calls, [Call([p.typeByte], ExtTypeWriting)]);
        if ok {
          ok := WriteCall(Call([p.typeByte], ExtTypeWriting));
        }
      } else {
        assert HeaderCalls(p, w, false) == HeaderCalls(p, w, hasType);
      }
    }

    /** A value as it lies in memory after be16, be32 or be64. */
    method NetworkBytes(x: nat, w: nat) returns (wire: seq<byte>)
      requires w == 1 || w == 2 || w == 4 || w == 8
      requires x < Pow256(w)
      ensures wire == BigEndian(x, w)
    {
      var memory := InMemory(x, w, bigEndianHost);
      var b := new byte[w](i requires 0 <= i < w => memory[i]);
      assert b[..] == memory;
      if w > 1 {
        ToNetworkOrder(b, bigEndianHost);
      } else {
        assert |BigEndian(x, w)| == 1;
      }
      NetworkOrderOut(x, w, bigEndianHost);
      wire := b[..];
    }

    /** cmp_write_object: the switch over the object's type picks marker, field and type
        byte, or refuses. */
    method WriteObject(o: Object) returns (ok: bool)
      requires Valid() && (!Refuses(o) ==> Reserved(View(), |Encoding(o)|))
      modifies this`off, this`error, buf
      ensures Valid() && OnlyAppended()
      ensures match ObjectCalls(o)
              case Refused => !ok && View() == old(View()).(error := InputValueTooLarge)
              case Calls(calls) => Outcome(View(), ok) == Perform(old(View()), calls)
      ensures InRange(o) ==> Outcome(View(), ok) == Perform(old(View()), Header(o))
    {
      hide InRange, Refuses, ObjectParts, FieldWidth, HasTypeByte, Limit;
      if InRange(o) {
        InRangeAccepted(o);
      }
      if Refuses(o) {
        error := InputValueTooLarge;
        return false;
      }
      var p := ObjectParts(o);
      LimitIsPower(FieldWidth(p.marker));
      ok := WriteHeader(p, FieldWidth(p.marker), HasTypeByte(p.marker));
    }

    /** The body of a string; an empty one is not written at all. */
    method WriteData(data: seq<byte>) returns (ok: bool)
      requires Valid() && Reserved(View(), |data|)
      modifies this`off, this`error, buf
      ensures Valid() && Outcome(View(), ok) == Perform(old(View()), DataCalls(data))
      ensures OnlyAppended()
    {
      ok := true;
      if data != [] {
        ok := WriteCall(Call(data, DataWriting));
      }
    }

    /** cmp_write_fixstr, cmp_write_str8, cmp_write_str16 and cmp_write_str32: a string header
        that is in range, then the body. */
    method WriteString(header: Object, data: seq<byte>) returns (ok: bool)
      requires InRange(header)
      requires Valid() && Reserved(View(), |Flat(Header(header) + DataCalls(data))|)
      modifies this`off, this`error, buf
      ensures Valid() && Outcome(View(), ok) == Perform(old(View()), Header(header) + DataCalls(data))
      ensures OnlyAppended()
    {
      HeaderProperties(header);
      Advance(View(), Header(header), DataCalls(data));
      ok := WriteObject(header);
      if ok {
        ok := WriteData(data);
      }
    }
  }

  // ---------------------------------------------------------------- the reader

  /** A context opened for reading. */
  class Reader {
    const bigEndianHost: bool
    const buf: array<byte>
    const start: nat
    const len: nat
    var off: nat

    ghost predicate Valid()
      reads this
    {
      off <= len && start + len <= buf.Length
    }

    ghost function Remaining(): seq<byte>
      reads this, buf
      requires Valid()
    {
      buf[start + off..start + len]
    }

    constructor (buf: array<byte>, start: nat, len: nat, bigEndianHost: bool)
      requires start + len <= buf.Length
      ensures Valid() && this.buf == buf
      ensures Remaining() == buf[start..start + len]
    {
      this.buf, this.start, this.len, this.bigEndianHost, off := buf, start, len, bigEndianHost, 0;
    }

    /** cmp_bcopy_reader: as many bytes as there are, up to the limit. */
    method ReadUpTo(limit: nat) returns (data: seq<byte>)
      requires Valid()
      modifies this
      ensures Valid()
      ensures var n := if limit <= |old(Remaining())| then limit else |old(Remaining())|;
              data == old(Remaining())[..n] && Remaining() == old(Remaining())[n..]
    {
      var count := len - off;
      if count > limit {
        count := limit;
      }
      data := buf[start + off..start + off + count];
      off := off + count;
    }

    /** The value of a variable that wire bytes were read into, after be16, be32 or be64. */
    method HostValue(wire: seq<byte>) returns (x: nat)
      requires |wire| == 0 || |wire| == 1 || |wire| == 2 || |wire| == 4 || |wire| == 8
      ensures x == FieldValue(wire)
    {
      var b := new byte[|wire|](i requires 0 <= i < |wire| => wire[i]);
      assert b[..] == wire;
      if |wire| > 1 {
        ToNetworkOrder(b, bigEndianHost);
      }
      NetworkOrderIn(wire, bigEndianHost);
      x := FromMemory(b[..], bigEndianHost);
    }

    static function FieldValue(wire: seq<byte>): (x: nat)
      requires |wire| == 0 || |wire| == 1 || |wire| == 2 || |wire| == 4 || |wire| == 8
      ensures x < Limit(|wire|)
    {
      LimitIsPower(|wire|);
      FromBigEndian(wire)
    }

    /** DecodeObject by its outcomes. */
    static lemma DecodeCases(s: seq<byte>)
      ensures s == [] ==> DecodeObject(s) == Failed(TypeMarkerReading)
      ensures s != [] && s[0] == 0xC1 ==> DecodeObject(s) == Failed(InvalidType)
      ensures s != [] && s[0] != 0xC1 ==>
                var w := FieldWidth(s[0]);
                DecodeObject(s) ==
                  if |s| < 1 + w then (if |s| == 1 then Failed(FieldReadError(s[0])) else Partial)
                  else if HasTypeByte(s[0]) && |s| == 1 + w then Failed(ExtTypeReading)
                  else
                    var value := FieldValue(s[1..1 + w]);
                    if HasTypeByte(s[0]) then Ok(Build(Parts(s[0], value, s[1 + w])), 2 + w)
                    else Ok(Build(Parts(s[0], value, 0)), 1 + w)
    {
      hide Build, FieldWidth, FieldReadError;
    }

    /** What is behind a marker: its field and its type byte. */
    method ReadBehind(m: byte, w: nat) returns (r: Read<Parts>)
      requires w == 0 || w == 1 || w == 2 || w == 4 || w == 8
      requires Valid()
      modifies this
      ensures Valid()
      ensures var rest := old(Remaining());
              r == if |rest| < w then (if rest == [] then Failed(FieldReadError(m)) else Partial)
                   else if HasTypeByte(m) && |rest| == w then Failed(ExtTypeReading)
                   else if HasTypeByte(m) then Ok(Parts(m, FieldValue(rest[..w]), rest[w]), w + 1)
                   else Ok(Parts(m, FieldValue(rest[..w]), 0), w)
      ensures r.Ok? ==> r.used <= |old(Remaining())| && Remaining() == old(Remaining())[r.used..]
    {
      hide FieldReadError, HasTypeByte, FieldValue;
      var field := ReadUpTo(w);
      if |field| < w {
        return if field == [] then Failed(FieldReadError(m)) else Partial;
      }
      var value := HostValue(field);
      if HasTypeByte(m) {
        var typ := ReadUpTo(1);
        if typ == [] {
          return Failed(ExtTypeReading);
        }
        return Ok(Parts(m, value, typ[0]), w + 1);
      }
      r := Ok(Parts(m, value, 0), w);
    }

    /** cmp_read_object.  A field of which some bytes are missing is where the model stops. */
    method ReadObject() returns (r: Read<Object>)
      requires Valid()
      modifies this
      ensures Valid() && r == DecodeObject(old(Remaining()))
      ensures r.Ok? ==> r.used <= |old(Remaining())| && Remaining() == old(Remaining())[r.used..]
    {
      hide DecodeObject, Build, FieldWidth, FieldReadError, HasTypeByte, FieldValue;
      ghost var input := Remaining();
      DecodeCases(input);
      var first := ReadUpTo(1);
      if first == [] {
        return Failed(TypeMarkerReading);
      }
      var m := first[0];
      ghost var rest := Remaining();
      assert m == input[0] && rest == input[1..];
      if m == 0xC1 {
        return Failed(InvalidType);
      }
      var w := FieldWidth(m);
      LimitIsPower(w);
      var parts := ReadBehind(m, w);
      assert |rest| >= w ==> rest[..w] == input[1..1 + w];
      assert parts.Ok? ==> rest[parts.used..] == input[1 + parts.used..];
      match parts
      case Ok(p, used) => r := Ok(Build(p), 1 + used);
      case Failed(e) => r := Failed(e);
      case Partial => r := Partial;
    }
  }
}
