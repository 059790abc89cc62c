/** The JSON printer of span.c.  Its text is the rendering of a JSON object with the fields
    of the span, from which all of them can be read back. */
module SpanJson {
  import opened Bytes
  import opened Json
  import opened Span
  import opened StringUtil
  import opened Wrappers

  const TWO64 := 0x1_0000_0000_0000_0000

  // ---------------------------------------------------------------- ids

  function HexDigit(d: nat): byte
    requires d < 16
  {
    if d < 10 then 0x30 + d else 0x61 + (d - 10)
  }

  /** The last n hexadecimal digits; "%016lx" prints sixteen. */
  function Hex(x: nat, n: nat): (s: seq<byte>)
    ensures |s| == n
  {
    if n == 0 then [] else Hex(x / 16, n - 1) + [HexDigit(x % 16)]
  }

  function HexValue(b: byte): (d: Option<nat>)
    ensures d.Some? ==> d.value < 16
  {
    var c: int := b;
    if 0x30 <= c <= 0x39 then Some(c - 0x30) else if 0x61 <= c <= 0x66 then Some(c - 0x61 + 10) else None
  }

  /** strtoull in base 16, on lower-case digits without a prefix. */
  function FromHex(s: seq<byte>): Option<nat> {
    if s == [] then Some(0)
    else
      var high, low := FromHex(s[..|s| - 1]), HexValue(s[|s| - 1]);
      if high.Some? && low.Some? then Some(high.value * 16 + low.value) else None
  }

  function Pow16(n: nat): (p: nat)
    ensures p > 0
  {
    if n == 0 then 1 else 16 * Pow16(n - 1)
  }

  lemma {:induction false} HexReadsBack(x: nat, n: nat)
    requires x < Pow16(n)
    ensures FromHex(Hex(x, n)) == Some(x)
  {
    if n > 0 {
      HexReadsBack(x / 16, n - 1);
      var s := Hex(x, n);
      assert s[..|s| - 1] == Hex(x / 16, n - 1);
      assert HexValue(HexDigit(x % 16)) == Some(x % 16);
    }
  }

  lemma SixteenNumerals(k: nat)
    requires k < 16
    ensures Ascii("0123456789abcdef")[k] == HexDigit(k)
  {
  }

  /** The digit at each place. */
  lemma {:induction false} HexPlaces(x: nat, n: nat, i: nat)
    requires i < n
    ensures Hex(x, n)[i] == Ascii("0123456789abcdef")[x / Pow16(n - 1 - i) % 16]
  {
    hide Ascii, HexDigit;
    if i < n - 1 {
      HexPlaces(x / 16, n - 1, i);
      DivideTwice(x, 16, Pow16(n - 2 - i));
      assert Pow16(n - 1 - i) == 16 * Pow16(n - 2 - i);
    } else {
      assert Pow16(0) == 1;
      SixteenNumerals(x % 16);
    }
  }

  lemma {:induction false} HexIsClean(x: nat, n: nat)
    ensures CleanText(Hex(x, n)) && forall b <- Hex(x, n) :: b <= 0x7F
  {
    if n > 0 {
      HexIsClean(x / 16, n - 1);
    }
    AsciiIsUtf8(Hex(x, n));
  }

  lemma SixteenDigits()
    ensures Pow16(16) == TWO64
  {
    assert Pow16(4) == 0x1_0000;
    assert Pow16(8) == 0x1_0000_0000;
    assert Pow16(12) == 0x1_0000_0000_0000;
  }

  function IdText(x: uint64): seq<byte> {
    Quoted(Hex(x, 16))
  }

  // ---------------------------------------------------------------- the printed text

  /** A time: "%ld" prints the 64 bits as a signed number. */
  function TimeText(x: uint64): seq<byte> {
    Decimal(Signed(x, TWO64))
  }

  function KeyText(key: seq<byte>): seq<byte> {
    Quoted(key) + [COLON]
  }

  /** {"s":"...","b":...,"e":..., */
  function HeadFormat(spanId: uint64, beginMs: uint64, endMs: uint64): seq<byte> {
    [OPEN_OBJECT] + KeyText(KEY_S) + IdText(spanId) + [COMMA]
    + KeyText(KEY_B) + TimeText(beginMs) + [COMMA]
    + KeyText(KEY_E) + TimeText(endMs) + [COMMA]
  }

  /** "d":"...", or "r":"...", */
  function StringFormat(key: seq<byte>, text: seq<byte>): seq<byte> {
    KeyText(key) + Quoted(text) + [COMMA]
  }

  function HeadText(s: SpanData): seq<byte> {
    HeadFormat(s.spanId, s.beginMs, s.endMs)
  }

  function DescText(s: SpanData): seq<byte> {
    if s.desc != [] then StringFormat(KEY_D, s.desc) else []
  }

  function PridText(s: SpanData): seq<byte> {
    if s.prid.Some? then StringFormat(KEY_R, s.prid.value) else []
  }

  /** The ids with a comma before each but the first. */
  function IdsText(ids: seq<uint64>): seq<byte> {
    if ids == [] then [] else IdsText(ids[..|ids| - 1]) + IdPiece(|ids| == 1, ids[|ids| - 1])
  }

  function IdPiece(first: bool, id: uint64): seq<byte> {
    (if first then [] else [COMMA]) + IdText(id)
  }

  /** "p":[...] */
  function ParentsText(s: SpanData): seq<byte> {
    KeyText(KEY_P) + [OPEN_LIST] + IdsText(s.parents) + [CLOSE_LIST]
  }

  function JsonText(s: SpanData): seq<byte> {
    HeadText(s) + DescText(s) + PridText(s) + ParentsText(s) + [CLOSE_OBJECT]
  }

  /** The ids of the list as they are printed. */
  function IdsLayout(ids: seq<uint64>): seq<byte> {
    if ids == [] then []
    else
      IdsLayout(ids[..|ids| - 1])
      + Ascii(if |ids| == 1 then "\"" else ",\"") + Hex(ids[|ids| - 1], 16) + Ascii("\"")
  }

  function HeadLayout(s: SpanData): seq<byte> {
    Ascii("{\"s\":\"") + Hex(s.spanId, 16)
    + Ascii("\",\"b\":") + Decimal(Signed(s.beginMs, TWO64))
    + Ascii(",\"e\":") + Decimal(Signed(s.endMs, TWO64)) + Ascii(",")
  }

  /** The whole text, by the format strings of the source. */
  function JsonLayout(s: SpanData): seq<byte> {
    HeadLayout(s)
    + (if s.desc == [] then [] else Ascii("\"d\":\"") + s.desc + Ascii("\","))
    + (if s.prid.None? then [] else Ascii("\"r\":\"") + s.prid.value + Ascii("\","))
    + Ascii("\"p\":[") + IdsLayout(s.parents) + Ascii("]}")
  }

  lemma AsciiAppend(a: string, b: string)
    ensures Ascii(a + b) == Ascii(a) + Ascii(b)
  {
  }

  lemma KeyIs(key: seq<byte>, name: string)
    requires key == Ascii(name)
    ensures KeyText(key) == Ascii("\"" + name + "\":")
  {
    hide Ascii;
    Punctuation();
    AsciiAppend("\"", name);
    AsciiAppend("\"" + name, "\"");
    AsciiAppend("\"" + name + "\"", ":");
    assert "\"" + name + "\":" == "\"" + name + "\"" + ":";
  }

  /** The same pieces, in other groups. */
  lemma Regroup(o: seq<byte>, ks: seq<byte>, q: seq<byte>, h: seq<byte>, c: seq<byte>, kb: seq<byte>)
    ensures o + ks + (q + h + q) + c + kb == (o + ks + q) + h + (q + c + kb)
  {
  }

  lemma HeadIs(s: SpanData)
    ensures HeadText(s) == HeadLayout(s)
  {
    hide Ascii, Hex, Decimal, KeyText;
    Punctuation();
    var ks, kb, ke := KeyText(KEY_S), KeyText(KEY_B), KeyText(KEY_E);
    var b, e := TimeText(s.beginMs), TimeText(s.endMs);
    HeadPieces();
    Regroup([OPEN_OBJECT], ks, [QUOTE], Hex(s.spanId, 16), [COMMA], kb);
    var head := [OPEN_OBJECT] + ks + IdText(s.spanId) + [COMMA] + kb;
    assert head == Ascii("{\"s\":\"") + Hex(s.spanId, 16) + Ascii("\",\"b\":");
    assert HeadText(s) == head + b + ([COMMA] + ke) + e + [COMMA];
  }

  lemma HeadPieces()
    ensures [OPEN_OBJECT] + KeyText(KEY_S) + [QUOTE] == Ascii("{\"s\":\"")
    ensures [QUOTE] + [COMMA] + KeyText(KEY_B) == Ascii("\",\"b\":")
    ensures [COMMA] + KeyText(KEY_E) == Ascii(",\"e\":")
  {
  }

  lemma StringIs(key: seq<byte>, name: string, text: seq<byte>)
    requires key == Ascii(name)
    ensures StringFormat(key, text) == Ascii("\"" + name + "\":\"") + text + Ascii("\",")
  {
    hide Ascii, KeyText;
    Punctuation();
    KeyIs(key, name);
    AsciiAppend("\"" + name + "\":", "\"");
    AsciiAppend("\"", ",");
    assert "\"" + name + "\":\"" == "\"" + name + "\":" + "\"" && "\"," == "\"" + ",";
  }

  lemma IdPieceIs(first: bool, id: uint64)
    ensures IdPiece(first, id) == Ascii(if first then "\"" else ",\"") + Hex(id, 16) + Ascii("\"")
  {
    hide Ascii, Hex;
    Punctuation();
    AsciiAppend(",", "\"");
    assert ",\"" == "," + "\"";
  }

  lemma {:induction false} IdsAre(ids: seq<uint64>)
    ensures IdsText(ids) == IdsLayout(ids)
  {
    hide Ascii, Hex, IdPiece;
    if ids != [] {
      var last := |ids| - 1;
      IdsAre(ids[..last]);
      IdPieceIs(|ids| == 1, ids[last]);
      var mark := Ascii(if |ids| == 1 then "\"" else ",\"");
      assert IdsText(ids[..last]) + (mark + Hex(ids[last], 16) + Ascii("\""))
             == IdsText(ids[..last]) + mark + Hex(ids[last], 16) + Ascii("\"");
    }
  }

  lemma JsonTextIs(s: SpanData)
    ensures JsonText(s) == JsonLayout(s)
  {
    hide Ascii, HeadText, HeadLayout, StringFormat, IdsText, IdsLayout, KeyText;
    Punctuation();
    KeyNames();
    HeadIs(s);
    StringIs(KEY_D, "d", s.desc);
    if s.prid.Some? {
      StringIs(KEY_R, "r", s.prid.value);
    }
    KeyIs(KEY_P, "p");
    IdsAre(s.parents);
    AsciiAppend("\"p\":", "[");
    AsciiAppend("]", "}");
    assert "\"" + "d" + "\":\"" == "\"d\":\"" && "\"" + "r" + "\":\"" == "\"r\":\"";
    assert "\"" + "p" + "\":" == "\"p\":" && "\"p\":" + "[" == "\"p\":[" && "]" + "}" == "]}";
  }

  // ---------------------------------------------------------------- the printer

  /** span_json_sprintf_impl.  What it returns is the room the text takes with its zero byte;
      what it leaves in a buffer is as much of the text as there is room for. */
  method SpanJsonSprintfImpl(span: HtraceSpan, p: Printer) returns (ret: nat)
    requires span.Valid() && p.Valid() && p.text == []
    modifies p`pos, p`rem, p`text, p.buf
    ensures p.Valid() && p.text == JsonText(old(span.View())) && ret == |p.text| + 1
    ensures p.max > 0 ==> p.Holds()
    ensures forall i :: 0 <= i < p.buf.Length && !p.Touched(i) ==> p.buf[i] == old(p.buf[i])
  {
    hide HeadText, DescText, PridText, IdsText, IdText;
    ghost var s := span.View();
    ret := 0;
    var res := PrintFields(span, p);
    ret := ret + res;
    assert p.text == HeadText(s) + DescText(s) + PridText(s);
    res := PrintParents(span, p);
    ret := ret + res;
    assert span.View() == s;
    res := p.FwdPrintf([CLOSE_OBJECT]);
    ret := ret + res;
    ret := ret + 1;
  }

  /** The fields before the parents. */
  method PrintFields(span: HtraceSpan, p: Printer) returns (ret: nat)
    requires span.Valid() && p.Valid() && p.text == []
    modifies p`pos, p`rem, p`text, p.buf
    ensures p.Valid() && ret == |p.text|
    ensures p.text == HeadText(span.View()) + DescText(span.View()) + PridText(span.View())
    ensures forall i :: 0 <= i < p.buf.Length && !p.Touched(i) ==> p.buf[i] == old(p.buf[i])
  {
    hide HeadFormat, StringFormat;
    ret := p.FwdPrintf(HeadFormat(span.spanId, span.beginMs, span.endMs));
    if span.desc != [] {
      var res := p.FwdPrintf(StringFormat(KEY_D, span.desc));
      ret := ret + res;
    }
    if span.prid.Some? {
      var res := p.FwdPrintf(StringFormat(KEY_R, span.prid.value));
      ret := ret + res;
    }
  }

  /** The list of parents, in its three forms. */
  method PrintParents(span: HtraceSpan, p: Printer) returns (ret: nat)
    requires span.Valid() && p.Valid()
    modifies p`pos, p`rem, p`text, p.buf
    ensures p.Valid() && p.text == old(p.text) + ParentsText(span.View()) && ret == |ParentsText(span.View())|
    ensures forall i :: 0 <= i < p.buf.Length && !p.Touched(i) ==> p.buf[i] == old(p.buf[i])
  {
    hide Hex;
    if span.numParents == 0 {
      ret := p.FwdPrintf(KeyText(KEY_P) + [OPEN_LIST] + [CLOSE_LIST]);
    } else if span.numParents == 1 {
      assert IdsText([span.single]) == IdText(span.single);
      ret := p.FwdPrintf(KeyText(KEY_P) + [OPEN_LIST] + Quoted(Hex(span.single, 16)) + [CLOSE_LIST]);
    } else {
      ret := p.FwdPrintf(KeyText(KEY_P) + [OPEN_LIST]);
      var res := PrintIds(span.list, span.numParents, p);
      ret := ret + res;
      res := p.FwdPrintf([CLOSE_LIST]);
      ret := ret + res;
    }
  }

  method PrintIds(list: array<uint64>, n: nat, p: Printer) returns (ret: nat)
    requires p.Valid() && n <= list.Length
    modifies p`pos, p`rem, p`text, p.buf
    ensures p.Valid() && p.text == old(p.text) + IdsText(list[..n]) && ret == |IdsText(list[..n])|
    ensures forall i :: 0 <= i < p.buf.Length && !p.Touched(i) ==> p.buf[i] == old(p.buf[i])
  {
    hide Hex, IdsText, IdPiece, Quoted;
    ghost var before, ids := p.text, list[..n];
    var prefix: seq<byte> := [];
    ret := 0;
    NoIds();
    for i := 0 to n
      invariant p.Valid() && list[..n] == ids
      invariant prefix == if i == 0 then [] else [COMMA]
      invariant p.text == before + IdsText(ids[..i]) && ret == |IdsText(ids[..i])|
      invariant forall i :: 0 <= i < p.buf.Length && !p.Touched(i) ==> p.buf[i] == old(p.buf[i])
    {
      OneMoreId(ids, i);
      var res := p.FwdPrintf(prefix + Quoted(Hex(list[i], 16)));
      ret := ret + res;
      prefix := [COMMA];
    }
    assert ids[..n] == ids;
  }

  lemma NoIds()
    ensures IdsText([]) == []
  {
  }

  lemma OneMoreId(ids: seq<uint64>, i: nat)
    requires i < |ids|
    ensures IdsText(ids[..i + 1]) == IdsText(ids[..i]) + ((if i == 0 then [] else [COMMA]) + Quoted(Hex(ids[i], 16)))
  {
    hide Hex;
    assert ids[..i + 1][..i] == ids[..i];
  }

  /** span_json_size: a printer without room. */
  method SpanJsonSize(span: HtraceSpan) returns (n: nat)
    requires span.Valid()
    ensures n == |JsonText(span.View())| + 1
  {
    hide JsonText;
    var none := new byte[0];
    var p := new Printer(none, 0, 0);
    n := SpanJsonSprintfImpl(span, p);
  }

  /** span_json_sprintf into the first `max` bytes of a buffer: the text, or its first max - 1
      bytes, and a zero byte; the rest of the buffer is left alone. */
  method SpanJsonSprintf(span: HtraceSpan, max: nat, buf: array<byte>)
    requires span.Valid() && 1 <= max <= buf.Length
    modifies buf
    ensures var text := JsonText(old(span.View())); var n := Min(|text|, max - 1);
            buf[..] == text[..n] + [0] + old(buf[n + 1..])
  {
    hide JsonText;
    var p := new Printer(buf, 0, max);
    var _ := SpanJsonSprintfImpl(span, p);
  }

  // ---------------------------------------------------------------- the text as JSON

  function IdItems(ids: seq<uint64>): (items: seq<Json>)
    ensures |items| == |ids|
  {
    if ids == [] then [] else IdItems(ids[..|ids| - 1]) + [Str(Hex(ids[|ids| - 1], 16))]
  }

  function Times(s: SpanData): seq<Member> {
    [Member(KEY_S, Str(Hex(s.spanId, 16))),
     Member(KEY_B, Num(Signed(s.beginMs, TWO64))),
     Member(KEY_E, Num(Signed(s.endMs, TWO64)))]
  }

  function Strings(s: SpanData): seq<Member> {
    (if s.desc != [] then [Member(KEY_D, Str(s.desc))] else [])
    + (if s.prid.Some? then [Member(KEY_R, Str(s.prid.value))] else [])
  }

  function SpanJson(s: SpanData): Json {
    Obj(Times(s) + Strings(s) + [Member(KEY_P, Arr(IdItems(s.parents)))])
  }

  lemma {:induction false} RenderItemsOne(items: seq<Json>, last: Json)
    ensures RenderItems(items + [last]) == RenderItems(items) + (if items == [] then [] else [COMMA]) + Render(last)
  {
    hide Render;
    var all := items + [last];
    if items == [] {
      assert all == [last];
    } else {
      assert all[0] == items[0] && all[1..] == items[1..] + [last];
      RenderItemsOne(items[1..], last);
      assert RenderItems(all) == Render(items[0]) + ([COMMA] + RenderItems(all[1..]));
      if |items| == 1 {
        assert RenderItems(items) == Render(items[0]) && items[1..] == [];
      }
    }
  }

  lemma {:induction false} IdsTextRendered(ids: seq<uint64>)
    ensures IdsText(ids) == RenderItems(IdItems(ids))
  {
    hide Hex;
    if ids != [] {
      var last := |ids| - 1;
      IdsTextRendered(ids[..last]);
      RenderItemsOne(IdItems(ids[..last]), Str(Hex(ids[last], 16)));
    }
  }

  lemma OneMember(m: Member)
    ensures RenderMembers([m]) == RenderMember(m)
  {
    hide RenderMember;
  }

  /** The members that come before the parents, each with the comma behind it. */
  lemma TimesRendered(s: SpanData)
    ensures HeadText(s) == [OPEN_OBJECT] + RenderMembers(Times(s)) + [COMMA]
  {
    hide Hex, Digits, KeyText, RenderMember, RenderMembers;
    var m := Times(s);
    assert m == [m[0]] + ([m[1]] + [m[2]]);
    RenderMembersAppend([m[0]], [m[1]] + [m[2]]);
    RenderMembersAppend([m[1]], [m[2]]);
    OneMember(m[0]);
    OneMember(m[1]);
    OneMember(m[2]);
    TimesTexts(s);
    Flatten([OPEN_OBJECT], KeyText(KEY_S), IdText(s.spanId), [COMMA], KeyText(KEY_B), TimeText(s.beginMs),
            KeyText(KEY_E), TimeText(s.endMs));
  }

  lemma TimesTexts(s: SpanData)
    ensures var m := Times(s);
            && RenderMember(m[0]) == KeyText(KEY_S) + IdText(s.spanId)
            && RenderMember(m[1]) == KeyText(KEY_B) + TimeText(s.beginMs)
            && RenderMember(m[2]) == KeyText(KEY_E) + TimeText(s.endMs)
  {
    hide Hex, Digits;
  }

  lemma Flatten(o: seq<byte>, k1: seq<byte>, v1: seq<byte>, c: seq<byte>, k2: seq<byte>, v2: seq<byte>,
                k3: seq<byte>, v3: seq<byte>)
    ensures o + k1 + v1 + c + k2 + v2 + c + k3 + v3 + c
            == o + ((k1 + v1) + c + ((k2 + v2) + c + (k3 + v3))) + c
  {
  }

  lemma StringsRendered(s: SpanData)
    ensures DescText(s) + PridText(s)
            == if Strings(s) == [] then [] else RenderMembers(Strings(s)) + [COMMA]
  {
    var m := Strings(s);
    if |m| == 2 {
      assert m == [m[0]] + [m[1]];
      RenderMembersAppend([m[0]], [m[1]]);
      OneMember(m[0]);
      OneMember(m[1]);
    } else if |m| == 1 {
      assert m == [m[0]];
      OneMember(m[0]);
    }
  }

  /** The printed text is the rendering of the object, so it is well-formed JSON. */
  lemma TextIsJson(s: SpanData)
    ensures JsonText(s) == Render(SpanJson(s))
  {
    hide HeadText, DescText, PridText, Times, Strings, IdItems, IdsText, RenderMembers, RenderItems;
    var p := Member(KEY_P, Arr(IdItems(s.parents)));
    TimesRendered(s);
    StringsRendered(s);
    IdsTextRendered(s.parents);
    OneMember(p);
    assert RenderMember(p) == ParentsText(s);
    assert Times(s) + Strings(s) + [p] == Times(s) + (Strings(s) + [p]);
    RenderMembersAppend(Strings(s), [p]);
    NoTimesMissing(s);
    RenderMembersAppend(Times(s), Strings(s) + [p]);
    var strings := if Strings(s) == [] then [] else RenderMembers(Strings(s)) + [COMMA];
    assert JsonText(s) == [OPEN_OBJECT] + RenderMembers(Times(s)) + [COMMA] + strings + ParentsText(s) + [CLOSE_OBJECT];
  }

  lemma NoTimesMissing(s: SpanData)
    ensures Times(s) != []
  {
  }

  // ---------------------------------------------------------------- reading a span

  function Field(members: seq<Member>, name: seq<byte>): Option<Json> {
    if members == [] then None
    else if members[0].name == name then Some(members[0].value)
    else Field(members[1..], name)
  }

  function TextField(members: seq<Member>, name: seq<byte>): Option<seq<byte>> {
    match Field(members, name)
    case Some(Str(text)) => Some(text)
    case _ => None
  }

  function TimeField(members: seq<Member>, name: seq<byte>): Option<uint64> {
    match Field(members, name)
    case Some(Num(z)) => if -TWO64 / 2 <= z < TWO64 / 2 then Some(Unsigned(z, TWO64)) else None
    case _ => None
  }

  function ReadId(v: Json): Option<uint64> {
    match v
    case Str(text) =>
      var id := FromHex(text);
      if id.Some? && id.value < TWO64 then Some(id.value) else None
    case _ => None
  }

  function ReadIds(items: seq<Json>): Option<seq<uint64>> {
    if items == [] then Some([])
    else
      var before, last := ReadIds(items[..|items| - 1]), ReadId(items[|items| - 1]);
      if before.Some? && last.Some? then Some(before.value + [last.value]) else None
  }

  function ParentsField(members: seq<Member>): Option<seq<uint64>> {
    match Field(members, Ascii("p"))
    case Some(Arr(items)) => ReadIds(items)
    case _ => None
  }

  /** A reader of span objects, as the tests of the repository have it: a missing "d" is the
      empty description, a missing "r" no process id. */
  function ReadSpan(v: Json): Option<SpanData> {
    if !v.Obj? then None
    else
      var m := v.members;
      var begin, end := TimeField(m, Ascii("b")), TimeField(m, Ascii("e"));
      var id := match Field(m, Ascii("s")) case Some(v) => ReadId(v) case None => None;
      var parents := ParentsField(m);
      if begin.None? || end.None? || id.None? || parents.None? then None
      else
        var desc := match TextField(m, Ascii("d")) case Some(text) => text case None => [];
        Some(SpanData(desc, begin.value, end.value, id.value, TextField(m, Ascii("r")), parents.value))
  }

  lemma IdReadsBack(x: uint64)
    ensures ReadId(Str(Hex(x, 16))) == Some(x)
  {
    SixteenDigits();
    HexReadsBack(x, 16);
  }

  lemma {:induction false} IdsReadBack(ids: seq<uint64>)
    ensures ReadIds(IdItems(ids)) == Some(ids)
  {
    hide Hex, ReadId;
    if ids != [] {
      var last := |ids| - 1;
      IdsReadBack(ids[..last]);
      IdReadsBack(ids[last]);
      assert IdItems(ids)[..last] == IdItems(ids[..last]);
      assert ids[..last] + [ids[last]] == ids;
    }
  }

  lemma {:induction false} FieldAppend(a: seq<Member>, b: seq<Member>, name: seq<byte>)
    ensures Field(a + b, name) == if Field(a, name).Some? then Field(a, name) else Field(b, name)
  {
    if a == [] {
      assert a + b == b;
    } else {
      assert (a + b)[1..] == a[1..] + b;
      if a[0].name != name {
        FieldAppend(a[1..], b, name);
      }
    }
  }

  /** A field of the printed object, by its one-letter name. */
  lemma SpanField(s: SpanData, name: seq<byte>)
    ensures Field(SpanJson(s).members, name)
            == if name == KEY_S then Some(Str(Hex(s.spanId, 16)))
               else if name == KEY_B then Some(Num(Signed(s.beginMs, TWO64)))
               else if name == KEY_E then Some(Num(Signed(s.endMs, TWO64)))
               else if name == KEY_D && s.desc != [] then Some(Str(s.desc))
               else if name == KEY_R && s.prid.Some? then Some(Str(s.prid.value))
               else if name == KEY_P then Some(Arr(IdItems(s.parents)))
               else None
  {
    hide Hex;
    var p := [Member(KEY_P, Arr(IdItems(s.parents)))];
    var d := if s.desc != [] then [Member(KEY_D, Str(s.desc))] else [];
    var r := if s.prid.Some? then [Member(KEY_R, Str(s.prid.value))] else [];
    var t := Times(s);
    FieldAppend(t + (d + r), p, name);
    FieldAppend(t, d + r, name);
    FieldAppend(d, r, name);
    assert t == [t[0]] + ([t[1]] + [t[2]]);
    FieldAppend([t[0]], [t[1]] + [t[2]], name);
    FieldAppend([t[1]], [t[2]], name);
  }

  lemma KeysDiffer()
    ensures KEY_S != KEY_B && KEY_S != KEY_E && KEY_S != KEY_D && KEY_S != KEY_R && KEY_S != KEY_P
    ensures KEY_B != KEY_E && KEY_B != KEY_D && KEY_B != KEY_R && KEY_B != KEY_P
    ensures KEY_E != KEY_D && KEY_E != KEY_R && KEY_E != KEY_P
    ensures KEY_D != KEY_R && KEY_D != KEY_P && KEY_R != KEY_P
  {
    assert KEY_S[0] == 0x73 && KEY_B[0] == 0x62 && KEY_E[0] == 0x65;
    assert KEY_D[0] == 0x64 && KEY_R[0] == 0x72 && KEY_P[0] == 0x70;
  }

  lemma IsObject(s: SpanData)
    ensures SpanJson(s).Obj?
  {
  }

  lemma SpanReadsBack(s: SpanData)
    ensures ReadSpan(SpanJson(s)) == Some(s)
  {
    hide Hex, SpanJson, Field, ReadId, IdItems, ReadIds, Ascii;
    KeyNames();
    KeysDiffer();
    IsObject(s);
    SpanField(s, KEY_S);
    SpanField(s, KEY_B);
    SpanField(s, KEY_E);
    SpanField(s, KEY_D);
    SpanField(s, KEY_R);
    SpanField(s, KEY_P);
    IdReadsBack(s.spanId);
    IdsReadBack(s.parents);
  }

  /** What the validator is for: with a description and a process id that it accepted, the
      printed text is UTF-8 and JSON, and every field of the span can be read from it. */
  lemma ValidatedSpanRoundTrip(s: SpanData)
    requires Accepts(s.desc) && (s.prid.Some? ==> Accepts(s.prid.value))
    ensures IsUtf8(JsonText(s))
    ensures Parse(JsonText(s)) == [SpanJson(s)] && ReadSpan(Parse(JsonText(s))[0]) == Some(s)
  {
    hide JsonText, Render;
    ValidatedIsClean(s.desc);
    if s.prid.Some? {
      ValidatedIsClean(s.prid.value);
    }
    SpanClean(s);
    TextIsJson(s);
    RenderIsUtf8(SpanJson(s));
    PrintedExactly(s);
    SpanReadsBack(s);
  }

  lemma ValidatedIsClean(s: seq<byte>)
    requires Accepts(s)
    ensures CleanText(s)
  {
    ValidatedNeedsNoEscape(s);
    ValidatedIsUtf8(s);
  }

  /** A byte that is no UTF-8 spoils the text although nothing in it asks for an escape. */
  lemma StrayByte(s: SpanData)
    requires s.desc == [0xFF]
    ensures NeedsNoEscape(s.desc) && Parse(JsonText(s)) != [SpanJson(s)]
  {
    hide Parse, JsonText, SpanJson;
    PrintedExactly(s);
    assert Sequence(s.desc) == 0;
  }

  predicate SpanTextsClean(s: SpanData) {
    CleanText(s.desc) && (s.prid.Some? ==> CleanText(s.prid.value))
  }

  /** Without the validator it would depend on the two strings, and on nothing else. */
  lemma PrintedExactly(s: SpanData)
    ensures Parse(JsonText(s)) == [SpanJson(s)] <==> SpanTextsClean(s)
  {
    hide Parse, JsonText;
    TextIsJson(s);
    RoundTrip(SpanJson(s));
    SpanClean(s);
  }

  lemma SpanClean(s: SpanData)
    ensures Clean(SpanJson(s)) <==> SpanTextsClean(s)
  {
    hide Hex;
    var p := [Member(KEY_P, Arr(IdItems(s.parents)))];
    HexIsClean(s.spanId, 16);
    IdItemsClean(s.parents);
    KeyClean(p[0]);
    var t := Times(s);
    KeyClean(t[0]);
    KeyClean(t[1]);
    KeyClean(t[2]);
    assert AllClean(t);
    AllCleanAppend(Times(s) + Strings(s), p);
    AllCleanAppend(Times(s), Strings(s));
    var d := if s.desc != [] then [Member(KEY_D, Str(s.desc))] else [];
    var r := if s.prid.Some? then [Member(KEY_R, Str(s.prid.value))] else [];
    AllCleanAppend(d, r);
    if s.desc != [] {
      KeyClean(d[0]);
    }
    if s.prid.Some? {
      KeyClean(r[0]);
    }
  }

  /** A member with a one-letter name is clean if its value is. */
  lemma KeyClean(m: Member)
    requires |m.name| == 1 && 0x61 <= m.name[0] <= 0x7A
    ensures CleanMember(m) <==> Clean(m.value)
    ensures AllClean([m]) <==> Clean(m.value)
    ensures m.value.Str? ==> (Clean(m.value) <==> CleanText(m.value.text))
    ensures m.value.Num? ==> Clean(m.value)
    ensures m.value.Arr? ==> (Clean(m.value) <==> forall i <- m.value.items :: Clean(i))
  {
    AsciiIsUtf8(m.name);
    assert CleanMember(m) <==> Clean(m.value);
    assert m in [m];
  }

  predicate AllClean(members: seq<Member>) {
    forall m <- members :: CleanMember(m)
  }

  lemma AllCleanAppend(a: seq<Member>, b: seq<Member>)
    ensures AllClean(a + b) <==> AllClean(a) && AllClean(b)
  {
    assert forall m <- a :: m in a + b;
    assert forall m <- b :: m in a + b;
  }

  lemma {:induction false} IdItemsClean(ids: seq<uint64>)
    ensures forall i <- IdItems(ids) :: Clean(i)
  {
    hide Hex;
    if ids != [] {
      IdItemsClean(ids[..|ids| - 1]);
      HexIsClean(ids[|ids| - 1], 16);
    }
  }
}
