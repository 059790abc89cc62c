/** The WriteSpans message: an independent reader for what htraced.c sends, built from the
    readers of cmp.c, and the theorem that reading a span's bytes gives the span back. */
module WriteSpans {
  import opened Bytes
  import opened Cmp
  import opened CmpUtil
  import opened Formats
  import opened Wrappers
  import opened Span

  /** cmp_read_str_size, and then that many bytes. */
  function ParseStr(s: seq<byte>): Parsed<seq<byte>> {
    match DecodeObject(s)
    case Ok(o, used) =>
      if (o.FixStr? || o.Str8? || o.Str16? || o.Str32?) && used + o.size <= |s|
      then Good(s[used..used + o.size], s[used + o.size..]) else Bad
    case _ => Bad
  }

  /** cmp_read_ulong. */
  function ParseULong(s: seq<byte>): (r: Parsed<uint64>)
    ensures r.Good? ==> |r.rest| < |s|
  {
    match DecodeObject(s)
    case Ok(o, used) =>
      ReadableInputs(s);
      var v := ReadULong(o);
      if v.Some? && 0 < used <= |s| then Good(v.value, s[used..]) else Bad
    case _ => Bad
  }

  /** cmp_read_array. */
  function ParseArray(s: seq<byte>): Parsed<uint32> {
    match DecodeObject(s)
    case Ok(o, used) =>
      if (o.FixArray? || o.Array16? || o.Array32?) && used <= |s| then Good(o.size, s[used..]) else Bad
    case _ => Bad
  }

  /** cmp_read_map. */
  function ParseMap(s: seq<byte>): Parsed<uint32> {
    match DecodeObject(s)
    case Ok(o, used) =>
      if (o.FixMap? || o.Map16? || o.Map32?) && used <= |s| then Good(o.size, s[used..]) else Bad
    case _ => Bad
  }

  /** n unsigned integers. */
  function ParseList(s: seq<byte>, n: nat): Parsed<seq<uint64>> {
    if n == 0 then Good([], s)
    else
      match ParseULong(s)
      case Bad => Bad
      case Good(x, rest) =>
        match ParseList(rest, n - 1)
        case Bad => Bad
        case Good(xs, rest2) => Good([x] + xs, rest2)
  }

  /** One entry of a span map, stored in the span read so far; entries come in any order. */
  function ParseField(s: seq<byte>, span: SpanData): Parsed<SpanData> {
    match ParseStr(s)
    case Bad => Bad
    case Good(key, v) =>
      if key == Ascii("d") then
        match ParseStr(v)
        case Bad => Bad
        case Good(x, rest) => Good(span.(desc := x), rest)
      else if key == Ascii("b") then
        match ParseULong(v)
        case Bad => Bad
        case Good(x, rest) => Good(span.(beginMs := x), rest)
      else if key == Ascii("e") then
        match ParseULong(v)
        case Bad => Bad
        case Good(x, rest) => Good(span.(endMs := x), rest)
      else if key == Ascii("s") then
        match ParseULong(v)
        case Bad => Bad
        case Good(x, rest) => Good(span.(spanId := x), rest)
      else if key == Ascii("r") then
        match ParseStr(v)
        case Bad => Bad
        case Good(x, rest) => Good(span.(prid := Some(x)), rest)
      else if key == Ascii("p") then
        match ParseArray(v)
        case Bad => Bad
        case Good(n, list) =>
          match ParseList(list, n)
          case Bad => Bad
          case Good(x, rest) => Good(span.(parents := x), rest)
      else Bad
  }

  function ParseFields(s: seq<byte>, n: nat, span: SpanData): Parsed<SpanData>
    decreases n
  {
    if n == 0 then Good(span, s)
    else
      match ParseField(s, span)
      case Bad => Bad
      case Good(span2, rest) => ParseFields(rest, n - 1, span2)
  }

  const BLANK := SpanData([], 0, 0, 0, None, [])

  function ParseSpan(s: seq<byte>): Parsed<SpanData> {
    match ParseMap(s)
    case Bad => Bad
    case Good(n, rest) => ParseFields(rest, n, BLANK)
  }

  // ---------------------------------------------------------------- reading back a span

  /** What the 16-bit lengths of the message leave of a span. */
  function Cut(s: SpanData): SpanData {
    SpanData(s.desc[..|s.desc| % 0x1_0000], s.beginMs, s.endMs, s.spanId,
             if s.prid.None? then None else Some(s.prid.value[..|s.prid.value| % 0x1_0000]),
             s.parents[..|s.parents| % 0x1_0000])
  }

  /** The spans whose strings and parent list fit 16-bit lengths. */
  predicate Encodable(s: SpanData) {
    && |s.desc| < 0x1_0000
    && (s.prid.Some? ==> |s.prid.value| < 0x1_0000)
    && |s.parents| < 0x1_0000
  }

  lemma CutChangesNothing(s: SpanData)
    ensures Cut(s) == s <==> Encodable(s)
  {
    assert |Cut(s).desc| == |s.desc| % 0x1_0000 && |Cut(s).parents| == |s.parents| % 0x1_0000;
    if Encodable(s) {
      assert s.desc[..|s.desc| % 0x1_0000] == s.desc;
      assert s.parents[..|s.parents| % 0x1_0000] == s.parents;
      assert s.prid.Some? ==> s.prid.value[..|s.prid.value| % 0x1_0000] == s.prid.value;
    }
  }

  lemma ParseStrOf(o: Object, data: seq<byte>, rest: seq<byte>)
    requires o.FixStr? || o.Str8? || o.Str16? || o.Str32?
    requires InRange(o) && !Refuses(o) && o.size == |data|
    ensures ParseStr(Encoding(o) + data + rest) == Good(data, rest)
  {
    hide DecodeObject;
    var s := Encoding(o) + data + rest;
    ReadsBack(o, s);
    assert s[|Encoding(o)|..|Encoding(o)| + |data|] == data;
    assert s[|Encoding(o)| + |data|..] == rest;
  }

  lemma ParseULongOf(x: uint64, rest: seq<byte>)
    ensures ParseULong(U64Bytes(x) + rest) == Good(x, rest)
  {
    hide DecodeObject;
    U64Encoding(x);
    ReadsBack(UInt64(x), U64Bytes(x) + rest);
  }

  lemma ParseArrayOf(o: Object, rest: seq<byte>)
    requires o.FixArray? || o.Array16? || o.Array32?
    requires InRange(o) && !Refuses(o)
    ensures ParseArray(Encoding(o) + rest) == Good(o.size, rest)
  {
    hide DecodeObject;
    ReadsBack(o, Encoding(o) + rest);
  }

  lemma ParseMapOf(o: Object, rest: seq<byte>)
    requires o.FixMap? || o.Map16? || o.Map32?
    requires InRange(o) && !Refuses(o)
    ensures ParseMap(Encoding(o) + rest) == Good(o.size, rest)
  {
    hide DecodeObject;
    ReadsBack(o, Encoding(o) + rest);
  }

  /** A list of ids read with a count of n gives the first n and leaves the others. */
  lemma {:induction false} ParseListOf(ids: seq<uint64>, n: nat, rest: seq<byte>)
    requires n <= |ids|
    ensures ParseList(ListBytes(ids) + rest, n) == Good(ids[..n], ListBytes(ids[n..]) + rest)
  {
    hide ParseULong, U64Bytes;
    if n == 0 {
      assert ids[0..] == ids;
    } else {
      var tail := ListBytes(ids[1..]) + rest;
      assert ListBytes(ids) + rest == U64Bytes(ids[0]) + tail;
      ParseULongOf(ids[0], tail);
      ParseListOf(ids[1..], n - 1, rest);
      assert ids[..n] == [ids[0]] + ids[1..][..n - 1];
      assert ids[1..][n - 1..] == ids[n..];
    }
  }

  lemma ParseKey(key: seq<byte>, v: seq<byte>)
    requires |key| == 1
    ensures ParseStr(KeyBytes(key) + v) == Good(key, v)
  {
    hide ParseStr;
    KeyEncoding();
    ParseStrOf(FixStr(1), key, v);
  }

  lemma ParseStr16(data: seq<byte>, rest: seq<byte>)
    ensures ParseStr(Str16Bytes(data) + rest) == Good(data[..|data| % 0x1_0000], rest)
  {
    hide ParseStr;
    var n := |data| % 0x1_0000;
    Str16Encoding(n);
    ParseStrOf(Str16(n), data[..n], rest);
  }

  lemma ParseKeyU64(key: seq<byte>, x: uint64, rest: seq<byte>)
    requires |key| == 1
    ensures ParseStr(KeyU64Bytes(key, x) + rest) == Good(key, U64Bytes(x) + rest)
    ensures ParseULong(U64Bytes(x) + rest) == Good(x, rest)
  {
    hide ParseStr, ParseULong;
    ParseKey(key, U64Bytes(x) + rest);
    assert KeyU64Bytes(key, x) + rest == KeyBytes(key) + (U64Bytes(x) + rest);
    ParseULongOf(x, rest);
  }

  lemma ParseKeyStr(key: seq<byte>, data: seq<byte>, rest: seq<byte>)
    requires |key| == 1
    ensures ParseStr(KeyStrBytes(key, data) + rest) == Good(key, Str16Bytes(data) + rest)
    ensures ParseStr(Str16Bytes(data) + rest) == Good(data[..|data| % 0x1_0000], rest)
  {
    hide ParseStr;
    ParseKey(key, Str16Bytes(data) + rest);
    assert KeyStrBytes(key, data) + rest == KeyBytes(key) + (Str16Bytes(data) + rest);
    ParseStr16(data, rest);
  }

  lemma ParseParents(s: SpanData, acc: SpanData, rest: seq<byte>)
    requires s.parents != []
    ensures ParseField(ParentBytes(s) + rest, acc)
            == Good(acc.(parents := Cut(s).parents), ListBytes(s.parents[|s.parents| % 0x1_0000..]) + rest)
  {
    hide ParseStr, ParseULong, ParseArray, Sized16, Ascii;
    KeyNames();
    var n := |s.parents| % 0x1_0000;
    var list := ListBytes(s.parents) + rest;
    ParseKey(KEY_P, Sized16(0xDC, n) + list);
    assert ParentBytes(s) + rest == KeyBytes(KEY_P) + (Sized16(0xDC, n) + list);
    Array16Encoding(n);
    ParseArrayOf(Array16(n), list);
    ParseListOf(s.parents, n, rest);
  }

  /** The last fields: the process id and the parents, when the span has them. */
  lemma ParseTail(s: SpanData, acc: SpanData, rest: seq<byte>)
    requires acc.prid.None? && acc.parents == []
    ensures ParseFields(PridBytes(s) + ParentBytes(s) + rest, MapSize(s) - 4, acc)
            == Good(acc.(prid := Cut(s).prid, parents := Cut(s).parents),
                    ListBytes(s.parents[|s.parents| % 0x1_0000..]) + rest)
  {
    hide ParseStr, ParseULong, ParseArray, KeyStrBytes, ParentBytes, Ascii;
    KeyNames();
    var acc2 := acc.(prid := Cut(s).prid);
    var m := if s.parents == [] then 0 else 1;
    var input := ParentBytes(s) + rest;
    ParseOnlyParents(s, acc2, rest);
    assert PridBytes(s) + ParentBytes(s) + rest == PridBytes(s) + input;
    if s.prid.Some? {
      ParseKeyStr(KEY_R, s.prid.value, input);
      assert ParseField(PridBytes(s) + input, acc) == Good(acc2, input);
    } else {
      assert PridBytes(s) + input == input;
    }
  }

  lemma ParseOnlyParents(s: SpanData, acc: SpanData, rest: seq<byte>)
    requires acc.parents == []
    ensures ParseFields(ParentBytes(s) + rest, if s.parents == [] then 0 else 1, acc)
            == Good(acc.(parents := Cut(s).parents), ListBytes(s.parents[|s.parents| % 0x1_0000..]) + rest)
  {
    hide ParseField, Sized16, KeyBytes;
    var left := ListBytes(s.parents[|s.parents| % 0x1_0000..]) + rest;
    if s.parents == [] {
      assert ParentBytes(s) + rest == rest == left;
    } else {
      ParseParents(s, acc, rest);
      assert ParseFields(left, 0, acc.(parents := Cut(s).parents)).Good?;
    }
  }

  /** The five pieces of the message and what is left of the input behind each of them. */
  lemma ParseHead(s: SpanData, rest: seq<byte>)
    ensures ParseFields(KeyStrBytes(KEY_D, s.desc)
                        + (KeyU64Bytes(KEY_B, s.beginMs)
                           + (KeyU64Bytes(KEY_E, s.endMs)
                              + (KeyU64Bytes(KEY_S, s.spanId) + rest))), MapSize(s), BLANK)
            == ParseFields(rest, MapSize(s) - 4, Cut(s).(prid := None, parents := []))
  {
    hide ParseStr, ParseULong, ParseArray, KeyStrBytes, KeyU64Bytes, Ascii;
    KeyNames();
    var t3 := KeyU64Bytes(KEY_S, s.spanId) + rest;
    var t2 := KeyU64Bytes(KEY_E, s.endMs) + t3;
    var t1 := KeyU64Bytes(KEY_B, s.beginMs) + t2;
    var a1 := BLANK.(desc := Cut(s).desc);
    var a2 := a1.(beginMs := s.beginMs);
    var a3 := a2.(endMs := s.endMs);
    var a4 := a3.(spanId := s.spanId);
    ParseKeyStr(KEY_D, s.desc, t1);
    assert ParseField(KeyStrBytes(KEY_D, s.desc) + t1, BLANK) == Good(a1, t1);
    ParseKeyU64(KEY_B, s.beginMs, t2);
    assert ParseField(t1, a1) == Good(a2, t2);
    ParseKeyU64(KEY_E, s.endMs, t3);
    assert ParseField(t2, a2) == Good(a3, t3);
    ParseKeyU64(KEY_S, s.spanId, rest);
    assert ParseField(t3, a3) == Good(a4, rest);
    FourFields(KeyStrBytes(KEY_D, s.desc) + t1, t1, t2, t3, rest, BLANK, a1, a2, a3, a4, MapSize(s) - 4);
  }

  lemma FourFields(t1: seq<byte>, t2: seq<byte>, t3: seq<byte>, t4: seq<byte>, t5: seq<byte>,
                   a0: SpanData, a1: SpanData, a2: SpanData, a3: SpanData, a4: SpanData, m: nat)
    requires ParseField(t1, a0) == Good(a1, t2)
    requires ParseField(t2, a1) == Good(a2, t3)
    requires ParseField(t3, a2) == Good(a3, t4)
    requires ParseField(t4, a3) == Good(a4, t5)
    ensures ParseFields(t1, m + 4, a0) == ParseFields(t5, m, a4)
  {
    hide ParseField;
    assert ParseFields(t3, m + 2, a2) == ParseFields(t5, m, a4);
  }

  /** Reading the bytes of any span gives its cut version, and leaves the ids that the
      16-bit parent count did not cover. */
  lemma ParseSpanBytes(s: SpanData, rest: seq<byte>)
    ensures ParseSpan(SpanBytes(s) + rest)
            == Good(Cut(s), ListBytes(s.parents[|s.parents| % 0x1_0000..]) + rest)
  {
    hide ParseFields, ParseMap, Sized16, KeyStrBytes, KeyU64Bytes, PridBytes, ParentBytes, Encoding;
    var tail := PridBytes(s) + ParentBytes(s) + rest;
    var fields := KeyStrBytes(KEY_D, s.desc)
      + (KeyU64Bytes(KEY_B, s.beginMs)
         + (KeyU64Bytes(KEY_E, s.endMs)
            + (KeyU64Bytes(KEY_S, s.spanId) + tail)));
    assert SpanBytes(s) + rest == Sized16(0xDE, MapSize(s)) + fields;
    Map16Encoding(MapSize(s));
    ParseMapOf(Map16(MapSize(s)), fields);
    ParseHead(s, tail);
    ParseTail(s, Cut(s).(prid := None, parents := []), rest);
  }

  /** A span's bytes read back as the span, whatever follows, exactly when its strings and
      its parent list fit 16-bit lengths. */
  lemma SpanRoundTrip(s: SpanData, rest: seq<byte>)
    ensures ParseSpan(SpanBytes(s) + rest) == Good(s, rest) <==> Encodable(s)
  {
    hide ParseSpan, SpanBytes;
    ParseSpanBytes(s, rest);
    CutChangesNothing(s);
    if Encodable(s) {
      assert s.parents[|s.parents| % 0x1_0000..] == [];
    }
  }

  // ---------------------------------------------------------------- the span, byte by byte

  // A name, a string with a 16-bit length and a 64-bit number, as rows of the format table.

  function NameLayout(name: string): seq<byte>
    requires |name| <= 0x1F
  {
    [0xA0 + |name|] + Ascii(name)
  }

  function TextLayout(text: seq<byte>): seq<byte> {
    var n := |text| % 0x1_0000;
    [0xDA] + Two(n) + text[..n]
  }

  function NumberLayout(x: uint64): (s: seq<byte>)
    ensures |s| == 9
  {
    [0xCF] + Eight(x)
  }

  function NumbersLayout(ids: seq<uint64>): (s: seq<byte>)
    ensures |s| == 9 * |ids|
  {
    if ids == [] then [] else NumberLayout(ids[0]) + NumbersLayout(ids[1..])
  }

  function PridLayout(s: SpanData): seq<byte> {
    if s.prid.None? then [] else NameLayout("r") + TextLayout(s.prid.value)
  }

  function ParentsLayout(s: SpanData): seq<byte> {
    if s.parents == [] then []
    else NameLayout("p") + [0xDC] + Two(|s.parents| % 0x1_0000) + NumbersLayout(s.parents)
  }

  /** A map of four to six entries: "d", "b", "e", "s", and "r" and "p" if there is something
      to tell. */
  function SpanLayout(s: SpanData): seq<byte> {
    [0xDE, 0, 4 + (if s.prid.None? then 0 else 1) + (if s.parents == [] then 0 else 1)]
    + NameLayout("d") + TextLayout(s.desc)
    + NameLayout("b") + NumberLayout(s.beginMs)
    + NameLayout("e") + NumberLayout(s.endMs)
    + NameLayout("s") + NumberLayout(s.spanId)
    + PridLayout(s) + ParentsLayout(s)
  }

  lemma Sized16Layout(marker: byte, n: uint16)
    ensures Sized16(marker, n) == [marker] + Two(n)
  {
    hide BigEndian;
    TwoBytes(n);
  }

  lemma NumberIs(x: uint64)
    ensures U64Bytes(x) == NumberLayout(x)
  {
    hide BigEndian, Eight;
    EightBytes(x);
  }

  lemma {:induction false} NumbersAre(ids: seq<uint64>)
    ensures ListBytes(ids) == NumbersLayout(ids)
  {
    hide U64Bytes, NumberLayout;
    if ids != [] {
      NumberIs(ids[0]);
      NumbersAre(ids[1..]);
    }
  }

  lemma NameIs(key: seq<byte>, name: string)
    requires key == Ascii(name) && |name| == 1
    ensures KeyBytes(key) == NameLayout(name)
  {
  }

  lemma NamesAre()
    ensures KeyBytes(KEY_D) == NameLayout("d") && KeyBytes(KEY_B) == NameLayout("b")
    ensures KeyBytes(KEY_E) == NameLayout("e") && KeyBytes(KEY_S) == NameLayout("s")
    ensures KeyBytes(KEY_R) == NameLayout("r") && KeyBytes(KEY_P) == NameLayout("p")
  {
    hide KeyBytes, NameLayout, Ascii;
    KeyNames();
    NameIs(KEY_D, "d");
    NameIs(KEY_B, "b");
    NameIs(KEY_E, "e");
    NameIs(KEY_S, "s");
    NameIs(KEY_R, "r");
    NameIs(KEY_P, "p");
  }

  lemma TextIs(text: seq<byte>)
    ensures Str16Bytes(text) == TextLayout(text)
  {
    Sized16Layout(0xDA, |text| % 0x1_0000);
  }

  lemma HeadIs(n: nat)
    requires n < 0x100
    ensures Sized16(0xDE, n) == [0xDE, 0, n]
  {
    Sized16Layout(0xDE, n);
  }

  lemma TailIs(s: SpanData)
    ensures PridBytes(s) == PridLayout(s)
    ensures ParentBytes(s) == ParentsLayout(s)
  {
    hide Sized16, NameLayout, TextLayout, NumbersLayout, KeyBytes, Str16Bytes, ListBytes, Two;
    NamesAre();
    if s.prid.Some? {
      TextIs(s.prid.value);
    }
    Sized16Layout(0xDC, |s.parents| % 0x1_0000);
    NumbersAre(s.parents);
  }

  /** The bytes of a span, with each name in front of its value. */
  lemma SpanBytesAre(s: SpanData)
    ensures SpanBytes(s) == SpanLayout(s)
  {
    hide Sized16, NameLayout, TextLayout, NumberLayout, PridLayout, ParentsLayout;
    hide KeyBytes, Str16Bytes, U64Bytes, PridBytes, ParentBytes;
    NamesAre();
    HeadIs(MapSize(s));
    TextIs(s.desc);
    NumberIs(s.beginMs);
    NumberIs(s.endMs);
    NumberIs(s.spanId);
    TailIs(s);
  }

  /** Their number, which is what the writer reserves. */
  lemma SpanLength(s: SpanData)
    ensures |SpanBytes(s)|
            == 41 + |s.desc| % 0x1_0000
               + (if s.prid.None? then 0 else 5 + |s.prid.value| % 0x1_0000)
               + (if s.parents == [] then 0 else 5 + 9 * |s.parents|)
  {
    hide SpanBytes, NumberLayout, NumbersLayout, Ascii, Two;
    SpanBytesAre(s);
  }

  // ---------------------------------------------------------------- the message

  const DEFAULT_PID: seq<byte> := [0x44, 0x65, 0x66, 0x61, 0x75, 0x6C, 0x74, 0x50, 0x69, 0x64]
  const SPANS: seq<byte> := [0x53, 0x70, 0x61, 0x6E, 0x73]

  lemma PrequelNames()
    ensures DEFAULT_PID == Ascii("DefaultPid") && SPANS == Ascii("Spans")
    ensures |DEFAULT_PID| == 10 && |SPANS| == 5
  {
  }

  /** The maximum length of the prequel in a WriteSpans message. */
  const MAX_WRITESPANS_PREQUEL_LEN := 1024

  /** The write calls of add_writespans_prequel up to the array header. */
  function PrequelHeadCalls(prid: seq<byte>): seq<Call> {
    Header(FixMap(2)) + (FixStrCalls(DEFAULT_PID) + (StrCalls(prid) + FixStrCalls(SPANS)))
  }

  /** All of its write calls.  The span count is cut to uint32_t. */
  function PrequelCalls(prid: seq<byte>, numSpans: nat): seq<Call> {
    PrequelHeadCalls(prid) + Header(ArrayObject(numSpans % 0x1_0000_0000))
  }

  function StrBytes(data: seq<byte>): seq<byte> {
    var n := |data| % 0x1_0000_0000;
    StrObjectAccepted(n);
    Encoding(StrObject(n)) + data[..n]
  }

  lemma StrObjectAccepted(n: uint32)
    ensures !Refuses(StrObject(n))
  {
  }

  function ArrayBytes(n: uint32): seq<byte> {
    ArrayObjectAccepted(n);
    Encoding(ArrayObject(n))
  }

  lemma ArrayObjectAccepted(n: uint32)
    ensures !Refuses(ArrayObject(n))
  {
  }

  function PrequelHeadBytes(prid: seq<byte>): seq<byte> {
    [0x82] + ([0xAA] + DEFAULT_PID + (StrBytes(prid) + ([0xA5] + SPANS)))
  }

  function PrequelBytes(prid: seq<byte>, numSpans: nat): seq<byte> {
    PrequelHeadBytes(prid) + ArrayBytes(numSpans % 0x1_0000_0000)
  }

  lemma PrequelFixed()
    ensures !Refuses(FixMap(2)) && Encoding(FixMap(2)) == [0x82]
    ensures !Refuses(FixStr(10)) && Encoding(FixStr(10)) == [0xAA]
    ensures !Refuses(FixStr(5)) && Encoding(FixStr(5)) == [0xA5]
  {
    hide Encoding;
    FormatTable(FixMap(2));
    FormatTable(FixStr(10));
    FormatTable(FixStr(5));
  }

  /** The prequel, byte by byte: a map of two entries, the second of which is the list of
      spans that follows. */
  lemma PrequelLayout(prid: seq<byte>, numSpans: nat)
    requires |prid| < 0x1_0000_0000 && numSpans < 0x1_0000_0000
    ensures PrequelBytes(prid, numSpans)
            == [0x82] + NameLayout("DefaultPid") + Format(StrObject(|prid|)) + prid
               + NameLayout("Spans") + Format(ArrayObject(numSpans))
  {
    hide Encoding, Format, Ascii;
    PrequelNames();
    FormatTable(StrObject(|prid|));
    FormatTable(ArrayObject(numSpans));
    assert prid[..|prid|] == prid;
  }

  lemma StrCallsBytes(data: seq<byte>)
    ensures NonEmpty(StrCalls(data)) && Flat(StrCalls(data)) == StrBytes(data)
  {
    hide ObjectCalls, Encoding;
    var n := |data| % 0x1_0000_0000;
    HeaderProperties(StrObject(n));
    FlatAppend(Header(StrObject(n)), DataCalls(data[..n]));
    DataCallsBytes(data[..n]);
  }

  lemma ShortStrCallsBytes(data: seq<byte>)
    requires |data| <= 0x1F
    ensures NonEmpty(FixStrCalls(data)) && !Refuses(FixStr(|data|))
    ensures Flat(FixStrCalls(data)) == Encoding(FixStr(|data|)) + data
  {
    hide ObjectCalls, Encoding;
    HeaderProperties(FixStr(|data|));
    FlatAppend(Header(FixStr(|data|)), DataCalls(data));
    DataCallsBytes(data);
  }

  lemma PrequelHeadCallsBytes(prid: seq<byte>)
    ensures NonEmpty(PrequelHeadCalls(prid)) && Flat(PrequelHeadCalls(prid)) == PrequelHeadBytes(prid)
  {
    hide ObjectCalls, Encoding, StrCalls, FixStrCalls, StrBytes;
    PrequelFixed();
    HeaderProperties(FixMap(2));
    ShortStrCallsBytes(DEFAULT_PID);
    ShortStrCallsBytes(SPANS);
    StrCallsBytes(prid);
    FlatAppend(StrCalls(prid), FixStrCalls(SPANS));
    FlatAppend(FixStrCalls(DEFAULT_PID), StrCalls(prid) + FixStrCalls(SPANS));
    FlatAppend(Header(FixMap(2)), FixStrCalls(DEFAULT_PID) + (StrCalls(prid) + FixStrCalls(SPANS)));
  }

  lemma PrequelCallsBytes(prid: seq<byte>, numSpans: nat)
    ensures NonEmpty(PrequelCalls(prid, numSpans))
    ensures Flat(PrequelCalls(prid, numSpans)) == PrequelBytes(prid, numSpans)
  {
    hide ObjectCalls, Encoding, PrequelHeadCalls, PrequelHeadBytes;
    var o := ArrayObject(numSpans % 0x1_0000_0000);
    PrequelHeadCallsBytes(prid);
    HeaderProperties(o);
    FlatAppend(PrequelHeadCalls(prid), Header(o));
  }

  /** The serialized spans of a buffer. */
  function SpansBytes(spans: seq<SpanData>): seq<byte> {
    if spans == [] then [] else SpanBytes(spans[0]) + SpansBytes(spans[1..])
  }

  // ---------------------------------------------------------------- reading the message

  datatype Request = Request(defaultPid: seq<byte>, spans: seq<SpanData>)

  function ParseSpans(s: seq<byte>, n: nat): Parsed<seq<SpanData>>
    decreases n
  {
    if n == 0 then Good([], s)
    else
      match ParseSpan(s)
      case Bad => Bad
      case Good(x, rest) =>
        match ParseSpans(rest, n - 1)
        case Bad => Bad
        case Good(xs, rest2) => Good([x] + xs, rest2)
  }

  /** One entry of the request map, in any order. */
  function ParseEntry(s: seq<byte>, r: Request): Parsed<Request> {
    match ParseStr(s)
    case Bad => Bad
    case Good(key, v) =>
      if key == Ascii("DefaultPid") then
        match ParseStr(v)
        case Bad => Bad
        case Good(x, rest) => Good(r.(defaultPid := x), rest)
      else if key == Ascii("Spans") then
        match ParseArray(v)
        case Bad => Bad
        case Good(n, list) =>
          match ParseSpans(list, n)
          case Bad => Bad
          case Good(x, rest) => Good(r.(spans := x), rest)
      else Bad
  }

  function ParseEntries(s: seq<byte>, n: nat, r: Request): Parsed<Request>
    decreases n
  {
    if n == 0 then Good(r, s)
    else
      match ParseEntry(s, r)
      case Bad => Bad
      case Good(r2, rest) => ParseEntries(rest, n - 1, r2)
  }

  /** The whole message, with nothing behind it. */
  function ParseRequest(s: seq<byte>): Option<Request> {
    match ParseMap(s)
    case Bad => None
    case Good(n, rest) =>
      match ParseEntries(rest, n, Request([], []))
      case Bad => None
      case Good(r, left) => if left == [] then Some(r) else None
  }

  /** A list of spans is read back exactly when each of them is encodable. */
  lemma {:induction false} ParseSpansBytes(spans: seq<SpanData>)
    ensures ParseSpans(SpansBytes(spans), |spans|) == Good(spans, []) <==> forall s <- spans :: Encodable(s)
  {
    hide ParseSpan, SpanBytes, Encodable;
    if spans != [] {
      var s, more := spans[0], spans[1..];
      var rest := SpansBytes(more);
      ParseSpanBytes(s, rest);
      CutChangesNothing(s);
      SpanRoundTrip(s, rest);
      ParseSpansBytes(more);
      assert spans == [s] + more;
      if Encodable(s) {
        assert forall x :: x in spans <==> x == s || x in more;
        match ParseSpans(rest, |more|) {
          case Bad =>
          case Good(xs, rest2) =>
            assert ([s] + xs)[1..] == xs && spans[1..] == more;
        }
      } else {
        assert s in spans;
        match ParseSpans(ListBytes(s.parents[|s.parents| % 0x1_0000..]) + rest, |more|) {
          case Bad =>
          case Good(xs, rest2) =>
            assert ([Cut(s)] + xs)[0] == Cut(s) != s;
        }
      }
    }
  }

  /** Everything up to the array header is read as it was written. */
  lemma ParsePrequelHead(prid: seq<byte>, list: seq<byte>)
    requires |prid| < 0x1_0000_0000
    ensures ParseRequest(PrequelHeadBytes(prid) + list)
            == match ParseArray(list)
               case Bad => None
               case Good(n, items) =>
                 match ParseSpans(items, n)
                 case Bad => None
                 case Good(x, rest) => if rest == [] then Some(Request(prid, x)) else None
  {
    hide ParseMap, ParseStr, ParseArray, ParseSpans, Encoding, StrBytes, Ascii;
    PrequelFixed();
    PrequelNames();
    var blank := Request([], []);
    var e2 := [0xA5] + SPANS + list;
    var v1 := StrBytes(prid) + e2;
    var e1 := [0xAA] + DEFAULT_PID + v1;
    assert PrequelHeadBytes(prid) + list == [0x82] + e1;
    ParseMapOf(FixMap(2), e1);
    ParseStrOf(FixStr(10), DEFAULT_PID, v1);
    ParseStrBytes(prid, e2);
    assert ParseEntry(e1, blank) == Good(blank.(defaultPid := prid), e2);
    assert ParseEntries(e1, 2, blank) == ParseEntries(e2, 1, blank.(defaultPid := prid));
    ParseStrOf(FixStr(5), SPANS, list);
    match ParseEntry(e2, blank.(defaultPid := prid)) {
      case Bad =>
      case Good(r2, rest) => assert ParseEntries(rest, 0, r2) == Good(r2, rest);
    }
  }

  lemma ParseStrBytes(data: seq<byte>, rest: seq<byte>)
    requires |data| < 0x1_0000_0000
    ensures ParseStr(StrBytes(data) + rest) == Good(data, rest)
  {
    hide ParseStr, Encoding;
    StrObjectAccepted(|data|);
    assert data[..|data|] == data;
    ParseStrOf(StrObject(|data|), data, rest);
  }

  lemma ParseArrayBytes(n: uint32, rest: seq<byte>)
    ensures ParseArray(ArrayBytes(n) + rest) == Good(n, rest)
  {
    hide ParseArray, Encoding;
    ArrayObjectAccepted(n);
    ParseArrayOf(ArrayObject(n), rest);
  }

  /** A complete prequel followed by the buffer is read back exactly when every span is
      encodable. */
  lemma WholeMessage(prid: seq<byte>, spans: seq<SpanData>)
    requires |prid| < 0x1_0000_0000 && |spans| < 0x1_0000_0000
    ensures ParseRequest(PrequelBytes(prid, |spans|) + SpansBytes(spans)) == Some(Request(prid, spans))
            <==> forall s <- spans :: Encodable(s)
  {
    hide ParseRequest, ParseArray, ParseSpans, ArrayBytes, PrequelHeadBytes, Encodable, SpansBytes;
    var data := SpansBytes(spans);
    var list := ArrayBytes(|spans|) + data;
    assert PrequelBytes(prid, |spans|) + data == PrequelHeadBytes(prid) + list;
    ParseArrayBytes(|spans|, data);
    ParsePrequelHead(prid, list);
    ParseSpansBytes(spans);
  }

  // ---------------------------------------------------------------- the cut prequel

  /** add_writespans_prequel: what it stores in the 1024-byte prequel, or None for its -1. */
  function WritePrequel(prid: seq<byte>, numSpans: nat): Option<seq<byte>> {
    var r := Perform(Sink(Bounded, MAX_WRITESPANS_PREQUEL_LEN, 0, ErrorNone, []), PrequelCalls(prid, numSpans));
    if r.ok then Some(r.sink.out) else None
  }

  /** The number of bytes of the array header's last write. */
  function LastWrite(n: uint32): nat {
    if n <= 0xF then 1 else if n <= 0xFFFF then 2 else 4
  }

  lemma LastCallOfPrequel(prid: seq<byte>, numSpans: nat)
    ensures var calls := PrequelCalls(prid, numSpans);
            calls != [] && |calls[|calls| - 1].data| == LastWrite(numSpans % 0x1_0000_0000)
  {
    var o := ArrayObject(numSpans % 0x1_0000_0000);
    assert PrequelCalls(prid, numSpans) == PrequelHeadCalls(prid) + Header(o);
    LastCallOfArray(numSpans % 0x1_0000_0000);
  }

  lemma LastCallOfArray(n: uint32)
    ensures var calls := Header(ArrayObject(n));
            calls != [] && |calls[|calls| - 1].data| == LastWrite(n)
  {
  }

  /** The prequel is written whole when it fits; it is given up when even its last write
      finds no room; in between it is cut to 1024 bytes and reported as a success. */
  lemma PrequelWritten(prid: seq<byte>, numSpans: nat)
    ensures var bytes := PrequelBytes(prid, numSpans);
            WritePrequel(prid, numSpans) ==
              if |bytes| <= MAX_WRITESPANS_PREQUEL_LEN then Some(bytes)
              else if |bytes| - LastWrite(numSpans % 0x1_0000_0000) < MAX_WRITESPANS_PREQUEL_LEN
              then Some(bytes[..MAX_WRITESPANS_PREQUEL_LEN])
              else None
  {
    hide PrequelCalls, PrequelBytes, Perform;
    var k := Sink(Bounded, MAX_WRITESPANS_PREQUEL_LEN, 0, ErrorNone, []);
    var calls := PrequelCalls(prid, numSpans);
    var bytes := PrequelBytes(prid, numSpans);
    PrequelCallsBytes(prid, numSpans);
    LastCallOfPrequel(prid, numSpans);
    LastCallInside(calls);
    PerformStores(k, calls);
    PerformOk(k, calls);
    var t := Taken(k, |bytes|);
    assert Perform(k, calls).sink.out == [] + bytes[..t] == bytes[..t];
    assert bytes[..|bytes|] == bytes;
  }

  /** A prequel that was cut is no prefix of a readable message: the array header takes
      its missing bytes from the first span, and what is left does not start with a map. */
  lemma CutMessage(prid: seq<byte>, spans: seq<SpanData>)
    requires |prid| < 0x1_0000_0000 && |spans| < 0x1_0000_0000
    requires |PrequelBytes(prid, |spans|)| > MAX_WRITESPANS_PREQUEL_LEN
    requires WritePrequel(prid, |spans|).Some?
    ensures ParseRequest(WritePrequel(prid, |spans|).value + SpansBytes(spans)) == None
  {
    hide ParseRequest, ParseArray, ParseSpans, ArrayBytes, PrequelHeadBytes, WritePrequel, SpansBytes;
    PrequelWritten(prid, |spans|);
    ArrayHeaderShape(|spans|);
    var n := |spans|;
    var head, header := PrequelHeadBytes(prid), ArrayBytes(n);
    var k := MAX_WRITESPANS_PREQUEL_LEN - |head|;
    assert 1 < k + 1 < |header| + 1;
    var list := header[..k] + SpansBytes(spans);
    assert WritePrequel(prid, n).value + SpansBytes(spans) == head + list;
    ParsePrequelHead(prid, list);
    CutArray(spans, k);
  }

  /** A process id of 1001 bytes and 16 spans, for instance: the prequel takes 1025 bytes, is
      cut to 1024, and reported as a success; and the message can not be read. */
  lemma CutPrequel(prid: seq<byte>, spans: seq<SpanData>)
    requires |prid| == 1001 && |spans| == 16
    ensures |PrequelBytes(prid, 16)| == 1025
    ensures WritePrequel(prid, 16) == Some(PrequelBytes(prid, 16)[..1024])
    ensures ParseRequest(WritePrequel(prid, 16).value + SpansBytes(spans)) == None
  {
    hide WritePrequel, ParseRequest, SpansBytes, StrBytes, ArrayBytes;
    LongPridLength(prid);
    ArrayHeaderShape(16);
    PrequelWritten(prid, 16);
    CutMessage(prid, spans);
  }

  lemma LongPridLength(prid: seq<byte>)
    requires |prid| == 1001
    ensures |StrBytes(prid)| == 1004
  {
    hide Encoding;
    FormatTable(Str16(1001));
  }

  lemma ArrayHeaderShape(n: uint32)
    ensures |ArrayBytes(n)| == if n <= 0xF then 1 else 1 + LastWrite(n)
    ensures n > 0xF ==> ArrayBytes(n)[0] == if n <= 0xFFFF then 0xDC else 0xDD
  {
  }

  lemma SpanStart(s: SpanData)
    ensures |SpanBytes(s)| > 4
    ensures SpanBytes(s)[..4] == [0xDE, 0, MapSize(s), 0xA1]
  {
    hide Str16Bytes, KeyU64Bytes, PridBytes, ParentBytes;
    LimitIsPower(2);
    assert BigEndian(MapSize(s), 2) == BigEndian(MapSize(s) / 256, 1) + [MapSize(s) % 256];
    assert BigEndian(0, 1) == BigEndian(0, 0) + [0];
  }

  /** The array header cut after k bytes swallows 1 to 3 bytes of the first span. */
  lemma CutArray(spans: seq<SpanData>, k: nat)
    requires 0xF < |spans| < 0x1_0000_0000
    requires 1 < k < |ArrayBytes(|spans|)|
    ensures match ParseArray(ArrayBytes(|spans|)[..k] + SpansBytes(spans))
            case Bad => true
            case Good(n, items) => ParseSpans(items, n) == Bad
  {
    hide SpanBytes, ArrayBytes, ParseSpan, ParseArray;
    var header, data := ArrayBytes(|spans|), SpansBytes(spans);
    ArrayHeaderShape(|spans|);
    SpanStart(spans[0]);
    assert data[..4] == SpanBytes(spans[0])[..4];
    var w := |header| - 1;
    var list := header[..k] + data;
    assert list[0] == header[0] && list[k] == 0xDE;
    assert list[1 + w] == data[1 + w - k];
    ArrayFieldRead(list, w);
    var rest := list[1 + w..];
    assert rest[0] == data[1 + w - k];
    NotAMap(rest);
    FieldNotZero(list[1..1 + w], k - 1);
  }

  lemma ArrayFieldRead(list: seq<byte>, w: nat)
    requires (w == 2 && list != [] && list[0] == 0xDC) || (w == 4 && list != [] && list[0] == 0xDD)
    requires |list| >= 1 + w
    ensures FromBigEndian(list[1..1 + w]) < 0x1_0000_0000
    ensures ParseArray(list) == Good(FromBigEndian(list[1..1 + w]), list[1 + w..])
  {
    LimitIsPower(w);
  }

  lemma NotAMap(s: seq<byte>)
    requires s != [] && (s[0] < 0x80 || s[0] == 0xA1)
    ensures ParseSpan(s) == Bad
  {
  }

  lemma {:induction false} FieldNotZero(s: seq<byte>, i: nat)
    requires i < |s| && s[i] != 0
    ensures FromBigEndian(s) > 0
  {
    if i < |s| - 1 {
      FieldNotZero(s[..|s| - 1], i);
    }
  }

  /** Main result on messages.  When the prequel is written at all, the message reads back
      as the process id and exactly the spans of the buffer, in order, if and only if the
      prequel was not cut and every span is encodable. */
  lemma MessageRoundTrip(prid: seq<byte>, spans: seq<SpanData>)
    requires |prid| < 0x1_0000_0000 && |spans| < 0x1_0000_0000
    requires WritePrequel(prid, |spans|).Some?
    ensures ParseRequest(WritePrequel(prid, |spans|).value + SpansBytes(spans)) == Some(Request(prid, spans))
            <==> |PrequelBytes(prid, |spans|)| <= MAX_WRITESPANS_PREQUEL_LEN && forall s <- spans :: Encodable(s)
  {
    hide ParseRequest, PrequelBytes, WritePrequel, SpansBytes, Encodable;
    PrequelWritten(prid, |spans|);
    if |PrequelBytes(prid, |spans|)| <= MAX_WRITESPANS_PREQUEL_LEN {
      WholeMessage(prid, spans);
    } else {
      CutMessage(prid, spans);
    }
  }
}
