/** JSON texts (RFC 8259) as far as the span printer uses them: objects, arrays, whole
    numbers, and strings without escapes.

    `Render` writes a value without white space and `ParseValue` is an independent reader
    that takes strings one UTF-8 sequence at a time, as JSON texts are UTF-8 (section 8.1 of
    RFC 8259).  Reading back what was written gives the value again exactly when every string
    in it is UTF-8 and needs no escape. */
module Json {
  import opened Bytes
  import opened StringUtil

  const QUOTE: byte := 0x22
  const BACKSLASH: byte := 0x5C
  const COMMA: byte := 0x2C
  const COLON: byte := 0x3A
  const MINUS: byte := 0x2D
  const ZERO: byte := 0x30
  const OPEN_LIST: byte := 0x5B
  const CLOSE_LIST: byte := 0x5D
  const OPEN_OBJECT: byte := 0x7B
  const CLOSE_OBJECT: byte := 0x7D

  datatype Json =
    | Str(text: seq<byte>)
    | Num(number: int)
    | Arr(items: seq<Json>)
    | Obj(members: seq<Member>)

  datatype Member = Member(name: seq<byte>, value: Json)

  // ---------------------------------------------------------------- writing

  /** The decimal digits of a number, most significant first. */
  function Digits(n: nat): (s: seq<byte>)
    ensures s != [] && IsDigit(s[0])
    ensures n > 0 ==> s[0] != ZERO
    ensures n == 0 ==> s == [ZERO]
  {
    if n < 10 then [ZERO + n] else Digits(n / 10) + [ZERO + n % 10]
  }

  function Decimal(z: int): seq<byte> {
    if z < 0 then [MINUS] + Digits(-z) else Digits(z)
  }

  function Quoted(s: seq<byte>): seq<byte> {
    [QUOTE] + s + [QUOTE]
  }

  function Render(v: Json): seq<byte>
    decreases v, 0
  {
    match v
    case Str(text) => Quoted(text)
    case Num(number) => Decimal(number)
    case Arr(items) => [OPEN_LIST] + RenderItems(items) + [CLOSE_LIST]
    case Obj(members) => [OPEN_OBJECT] + RenderMembers(members) + [CLOSE_OBJECT]
  }

  function RenderItems(items: seq<Json>): seq<byte>
    decreases items, 1
  {
    if items == [] then []
    else Render(items[0]) + (if |items| == 1 then [] else [COMMA] + RenderItems(items[1..]))
  }

  function RenderMember(m: Member): seq<byte>
    decreases m, 1
  {
    Quoted(m.name) + [COLON] + Render(m.value)
  }

  function RenderMembers(members: seq<Member>): seq<byte>
    decreases members, 2
  {
    if members == [] then []
    else RenderMember(members[0]) + (if |members| == 1 then [] else [COMMA] + RenderMembers(members[1..]))
  }

  /** Lists written one after the other. */
  lemma {:induction false} RenderMembersAppend(a: seq<Member>, b: seq<Member>)
    requires b != []
    ensures RenderMembers(a + b)
            == (if a == [] then [] else RenderMembers(a) + [COMMA]) + RenderMembers(b)
  {
    if a == [] {
      assert a + b == b;
    } else {
      assert (a + b)[1..] == a[1..] + b && (a + b)[0] == a[0];
      RenderMembersAppend(a[1..], b);
    }
  }

  // What the punctuation and the digits are.

  lemma Punctuation()
    ensures [QUOTE] == Ascii("\"") && [BACKSLASH] == Ascii("\\")
    ensures [COMMA] == Ascii(",") && [COLON] == Ascii(":") && [MINUS] == Ascii("-") && [ZERO] == Ascii("0")
    ensures [OPEN_LIST] == Ascii("[") && [CLOSE_LIST] == Ascii("]")
    ensures [OPEN_OBJECT] == Ascii("{") && [CLOSE_OBJECT] == Ascii("}")
  {
  }

  function Pow10(n: nat): (p: nat)
    ensures p > 0
  {
    if n == 0 then 1 else 10 * Pow10(n - 1)
  }

  lemma TenDigits(k: nat)
    requires k < 10
    ensures Ascii("0123456789")[k] == ZERO + k
  {
  }

  /** A number is written in as few digits as it takes. */
  lemma {:induction false} DigitCount(n: nat)
    ensures var d := |Digits(n)|; n < Pow10(d) && (d > 1 ==> Pow10(d - 1) <= n)
  {
    var d := |Digits(n)|;
    assert Pow10(0) == 1 && Pow10(d) == 10 * Pow10(d - 1);
    if n >= 10 {
      DigitCount(n / 10);
      assert Pow10(d - 1) == 10 * Pow10(d - 2);
    }
  }

  /** The digit at each place. */
  lemma {:induction false} DigitPlaces(n: nat, i: nat)
    requires i < |Digits(n)|
    ensures Digits(n)[i] == Ascii("0123456789")[n / Pow10(|Digits(n)| - 1 - i) % 10]
  {
    hide Ascii;
    var d := |Digits(n)|;
    if i < d - 1 {
      DigitPlaces(n / 10, i);
      DivideTwice(n, 10, Pow10(d - 2 - i));
      assert Pow10(d - 1 - i) == 10 * Pow10(d - 2 - i);
    } else {
      assert Pow10(0) == 1;
      TenDigits(n % 10);
    }
  }

  // ---------------------------------------------------------------- reading

  predicate IsDigit(b: byte) {
    ZERO <= b <= ZERO + 9
  }

  function DigitValue(b: byte): int {
    b - ZERO
  }

  /** The digits in front of a text, after a number read so far. */
  function TakeDigits(n: nat, s: seq<byte>): (r: (nat, seq<byte>))
    ensures |r.1| <= |s|
    decreases |s|
  {
    if s != [] && IsDigit(s[0]) then TakeDigits(n * 10 + DigitValue(s[0]), s[1..]) else (n, s)
  }

  /** No leading zeros. */
  function ParseDigits(s: seq<byte>): (r: Parsed<int>)
    ensures r.Good? ==> |r.rest| < |s|
  {
    if s == [] || !IsDigit(s[0]) || (s[0] == ZERO && |s| > 1 && IsDigit(s[1])) then Bad
    else
      var (n, rest) := TakeDigits(DigitValue(s[0]), s[1..]);
      Good(n, rest)
  }

  function ParseNumber(s: seq<byte>): (r: Parsed<int>)
    ensures r.Good? ==> |r.rest| < |s|
  {
    if s != [] && s[0] == MINUS then
      match ParseDigits(s[1..])
      case Good(n, rest) => Good(-n, rest)
      case Bad => Bad
    else
      match ParseDigits(s)
      case Good(n, rest) => Good(n, rest)
      case Bad => Bad
  }

  /** The rest of a string behind its opening quotation mark. */
  function ParseText(s: seq<byte>): (r: Parsed<seq<byte>>)
    ensures r.Good? ==> |r.rest| < |s|
    decreases |s|
  {
    var n := Sequence(s);
    if n == 0 || s[0] < 0x20 || s[0] == BACKSLASH then Bad
    else if s[0] == QUOTE then Good([], s[1..])
    else
      match ParseText(s[n..])
      case Good(text, rest) => Good(s[..n] + text, rest)
      case Bad => Bad
  }

  function ParseString(s: seq<byte>): (r: Parsed<seq<byte>>)
    ensures r.Good? ==> |r.rest| < |s|
  {
    if s != [] && s[0] == QUOTE then ParseText(s[1..]) else Bad
  }

  function ParseValue(s: seq<byte>): (r: Parsed<Json>)
    ensures r.Good? ==> |r.rest| < |s|
    decreases |s|, 0
  {
    if s == [] then Bad
    else if s[0] == QUOTE then
      match ParseString(s)
      case Good(text, rest) => Good(Str(text), rest)
      case Bad => Bad
    else if s[0] == OPEN_LIST then
      if |s| > 1 && s[1] == CLOSE_LIST then Good(Arr([]), s[2..])
      else
        match ParseItems(s[1..])
        case Good(items, rest) => Good(Arr(items), rest)
        case Bad => Bad
    else if s[0] == OPEN_OBJECT then
      if |s| > 1 && s[1] == CLOSE_OBJECT then Good(Obj([]), s[2..])
      else
        match ParseMembers(s[1..])
        case Good(members, rest) => Good(Obj(members), rest)
        case Bad => Bad
    else
      match ParseNumber(s)
      case Good(n, rest) => Good(Num(n), rest)
      case Bad => Bad
  }

  /** One or more items and the closing bracket. */
  function ParseItems(s: seq<byte>): (r: Parsed<seq<Json>>)
    ensures r.Good? ==> |r.rest| < |s|
    decreases |s|, 1
  {
    match ParseValue(s)
    case Bad => Bad
    case Good(v, rest) =>
      if rest == [] then Bad
      else if rest[0] == CLOSE_LIST then Good([v], rest[1..])
      else if rest[0] == COMMA then
        match ParseItems(rest[1..])
        case Good(items, rest2) => Good([v] + items, rest2)
        case Bad => Bad
      else Bad
  }

  function ParseMember(s: seq<byte>): (r: Parsed<Member>)
    ensures r.Good? ==> |r.rest| < |s|
    decreases |s|, 1
  {
    match ParseString(s)
    case Bad => Bad
    case Good(name, rest) =>
      if rest == [] || rest[0] != COLON then Bad
      else
        match ParseValue(rest[1..])
        case Good(v, rest2) => Good(Member(name, v), rest2)
        case Bad => Bad
  }

  /** One or more members and the closing brace. */
  function ParseMembers(s: seq<byte>): (r: Parsed<seq<Member>>)
    ensures r.Good? ==> |r.rest| < |s|
    decreases |s|, 2
  {
    match ParseMember(s)
    case Bad => Bad
    case Good(m, rest) =>
      if rest == [] then Bad
      else if rest[0] == CLOSE_OBJECT then Good([m], rest[1..])
      else if rest[0] == COMMA then
        match ParseMembers(rest[1..])
        case Good(members, rest2) => Good([m] + members, rest2)
        case Bad => Bad
      else Bad
  }

  /** A whole text. */
  function Parse(s: seq<byte>): (v: seq<Json>)
    ensures |v| <= 1
  {
    match ParseValue(s)
    case Good(v, rest) => if rest == [] then [v] else []
    case Bad => []
  }

  // ---------------------------------------------------------------- the round trip

  /** A text that can stand between quotation marks as it is. */
  predicate CleanText(s: seq<byte>) {
    IsUtf8(s) && NeedsNoEscape(s)
  }

  predicate Clean(v: Json)
    decreases v, 0
  {
    match v
    case Str(text) => CleanText(text)
    case Num(_) => true
    case Arr(items) => forall i <- items :: Clean(i)
    case Obj(members) => forall m <- members :: CleanMember(m)
  }

  predicate CleanMember(m: Member)
    decreases m, 1
  {
    CleanText(m.name) && Clean(m.value)
  }

  /** Where a number ends. */
  predicate Ends(rest: seq<byte>) {
    rest == [] || !IsDigit(rest[0])
  }

  lemma {:induction false} DigitsTaken(n: nat, rest: seq<byte>)
    ensures var s := Digits(n) + rest;
            TakeDigits(DigitValue(s[0]), s[1..]) == TakeDigits(n, rest)
  {
    var s := Digits(n) + rest;
    if n < 10 {
      assert s[1..] == rest;
    } else {
      var last := [ZERO + n % 10] + rest;
      DigitsTaken(n / 10, last);
      assert s == Digits(n / 10) + last;
      assert last[1..] == rest;
    }
  }

  lemma {:induction false} NumberParses(z: int, rest: seq<byte>)
    requires Ends(rest)
    ensures ParseNumber(Decimal(z) + rest) == Good(z, rest)
  {
    var n: nat := if z < 0 then -z else z;
    var s := Digits(n) + rest;
    DigitsTaken(n, rest);
    assert n == 0 ==> s == [ZERO] + rest;
    assert ParseDigits(s) == Good(n, rest);
    if z < 0 {
      assert Decimal(z) + rest == [MINUS] + s;
    }
  }

  lemma TextEnds(rest: seq<byte>)
    ensures ParseText([QUOTE] + rest) == Good([], rest)
  {
    assert ([QUOTE] + rest)[1..] == rest;
  }

  lemma TextStep(s: seq<byte>)
    requires Sequence(s) > 0 && s[0] >= 0x20 && s[0] != BACKSLASH && s[0] != QUOTE
    ensures var n := Sequence(s);
            ParseText(s) == match ParseText(s[n..])
                            case Good(text, rest) => Good(s[..n] + text, rest)
                            case Bad => Bad
  {
    hide Sequence;
  }

  lemma {:induction false} TextParses(text: seq<byte>, rest: seq<byte>)
    requires CleanText(text)
    ensures ParseText(text + ([QUOTE] + rest)) == Good(text, rest)
    decreases |text|
  {
    hide Sequence, ParseText;
    var s := text + ([QUOTE] + rest);
    if text == [] {
      TextEnds(rest);
      assert s == [QUOTE] + rest;
    } else {
      var n := Sequence(text);
      SequenceStays(text, [QUOTE] + rest);
      assert forall b <- text[n..] :: b in text;
      TextParses(text[n..], rest);
      assert s[0] == text[0] && text[0] in text;
      assert s[n..] == text[n..] + ([QUOTE] + rest) && s[..n] == text[..n];
      TextStep(s);
      assert text[..n] + text[n..] == text;
    }
  }

  lemma StringParses(text: seq<byte>, rest: seq<byte>)
    requires CleanText(text)
    ensures ParseString(Quoted(text) + rest) == Good(text, rest)
  {
    TextParses(text, rest);
    assert Quoted(text) + rest == [QUOTE] + (text + ([QUOTE] + rest));
  }

  /** Reading back what was written, whatever follows. */
  lemma {:induction false} RenderParses(v: Json, rest: seq<byte>)
    requires Clean(v) && Ends(rest)
    ensures ParseValue(Render(v) + rest) == Good(v, rest)
    decreases v, 0
  {
    match v
    case Str(text) => StringParses(text, rest);
    case Num(z) => NumberParses(z, rest);
    case Arr(items) =>
      var s := RenderItems(items) + ([CLOSE_LIST] + rest);
      assert Render(v) + rest == [OPEN_LIST] + s;
      if items != [] {
        ItemsStart(items);
        ItemsParse(items, rest);
      }
    case Obj(members) =>
      var s := RenderMembers(members) + ([CLOSE_OBJECT] + rest);
      assert Render(v) + rest == [OPEN_OBJECT] + s;
      if members != [] {
        MembersParse(members, rest);
      }
  }

  lemma ItemsStart(items: seq<Json>)
    requires items != []
    ensures RenderItems(items) != [] && RenderItems(items)[0] != CLOSE_LIST
  {
    RenderStart(items[0]);
  }

  lemma RenderStart(v: Json)
    ensures Render(v) != [] && Render(v)[0] != CLOSE_LIST
  {
  }

  lemma {:induction false} ItemsParse(items: seq<Json>, rest: seq<byte>)
    requires items != [] && forall i <- items :: Clean(i)
    ensures ParseItems(RenderItems(items) + ([CLOSE_LIST] + rest)) == Good(items, rest)
    decreases items, 1
  {
    hide ParseValue, Render;
    var end := [CLOSE_LIST] + rest;
    if |items| == 1 {
      RenderParses(items[0], end);
      assert RenderItems(items) == Render(items[0]) && items == [items[0]];
      assert end[1..] == rest;
    } else {
      var after := [COMMA] + (RenderItems(items[1..]) + end);
      RenderParses(items[0], after);
      assert forall i <- items[1..] :: i in items;
      ItemsParse(items[1..], rest);
      assert RenderItems(items) + end == Render(items[0]) + after;
      assert [items[0]] + items[1..] == items;
      assert after[1..] == RenderItems(items[1..]) + end;
    }
  }

  lemma {:induction false} MemberParses(m: Member, rest: seq<byte>)
    requires CleanMember(m) && Ends(rest)
    ensures ParseMember(RenderMember(m) + rest) == Good(m, rest)
    decreases m, 1
  {
    hide ParseValue, ParseString, Render;
    var value := [COLON] + (Render(m.value) + rest);
    StringParses(m.name, value);
    RenderParses(m.value, rest);
    assert RenderMember(m) + rest == Quoted(m.name) + value;
    assert value[1..] == Render(m.value) + rest;
  }

  lemma {:induction false} MembersParse(members: seq<Member>, rest: seq<byte>)
    requires members != [] && forall m <- members :: CleanMember(m)
    ensures ParseMembers(RenderMembers(members) + ([CLOSE_OBJECT] + rest)) == Good(members, rest)
    decreases members, 2
  {
    hide ParseMember, RenderMember;
    var end := [CLOSE_OBJECT] + rest;
    if |members| == 1 {
      MemberParses(members[0], end);
      assert RenderMembers(members) == RenderMember(members[0]) && members == [members[0]];
      assert end[1..] == rest;
    } else {
      var after := [COMMA] + (RenderMembers(members[1..]) + end);
      MemberParses(members[0], after);
      assert forall m <- members[1..] :: m in members;
      MembersParse(members[1..], rest);
      assert RenderMembers(members) + end == RenderMember(members[0]) + after;
      assert after[1..] == RenderMembers(members[1..]) + end;
      assert [members[0]] + members[1..] == members;
    }
  }

  /** Every string the reader hands out is UTF-8 and free of what would need an escape. */
  lemma {:induction false} ParsedClean(s: seq<byte>)
    ensures ParseValue(s).Good? ==> Clean(ParseValue(s).value)
    decreases |s|, 0
  {
    if s != [] {
      if s[0] == QUOTE {
        TextClean(s[1..]);
      } else if s[0] == OPEN_LIST {
        ItemsClean(s[1..]);
      } else if s[0] == OPEN_OBJECT {
        MembersClean(s[1..]);
      }
    }
  }

  lemma {:induction false} TextClean(s: seq<byte>)
    ensures ParseText(s).Good? ==> CleanText(ParseText(s).value)
    decreases |s|
  {
    hide Sequence;
    var n := Sequence(s);
    if n > 0 && s[0] != QUOTE && ParseText(s[n..]).Good? {
      var text := ParseText(s[n..]).value;
      TextClean(s[n..]);
      SequenceStays(s, text);
      assert (s[..n] + text)[n..] == text;
    }
  }

  lemma {:induction false} ItemsClean(s: seq<byte>)
    ensures ParseItems(s).Good? ==> forall i <- ParseItems(s).value :: Clean(i)
    decreases |s|, 1
  {
    ParsedClean(s);
    var first := ParseValue(s);
    if first.Good? && first.rest != [] {
      ItemsClean(first.rest[1..]);
    }
  }

  lemma {:induction false} MembersClean(s: seq<byte>)
    ensures ParseMembers(s).Good? ==> forall m <- ParseMembers(s).value :: CleanMember(m)
    decreases |s|, 2
  {
    var name := ParseString(s);
    if s != [] {
      TextClean(s[1..]);
    }
    if name.Good? && name.rest != [] {
      ParsedClean(name.rest[1..]);
    }
    var first := ParseMember(s);
    if first.Good? && first.rest != [] {
      MembersClean(first.rest[1..]);
    }
  }

  lemma BracketsAreUtf8()
    ensures IsUtf8([QUOTE]) && IsUtf8([COMMA]) && IsUtf8([COLON]) && IsUtf8([])
    ensures IsUtf8([OPEN_LIST]) && IsUtf8([CLOSE_LIST]) && IsUtf8([OPEN_OBJECT]) && IsUtf8([CLOSE_OBJECT])
  {
  }

  lemma QuotedIsUtf8(s: seq<byte>)
    requires IsUtf8(s)
    ensures IsUtf8(Quoted(s))
  {
    BracketsAreUtf8();
    Utf8Append([QUOTE], s);
    Utf8Append([QUOTE] + s, [QUOTE]);
  }

  lemma {:induction false} DigitsAscii(n: nat)
    ensures forall b <- Digits(n) :: b <= 0x7F
  {
    if n >= 10 {
      DigitsAscii(n / 10);
    }
  }

  lemma DecimalIsUtf8(z: int)
    ensures IsUtf8(Decimal(z))
  {
    DigitsAscii(if z < 0 then -z else z);
    AsciiIsUtf8(Decimal(z));
  }

  /** What is written of a clean value is UTF-8 as a whole. */
  lemma {:induction false} RenderIsUtf8(v: Json)
    requires Clean(v)
    ensures IsUtf8(Render(v))
    decreases v, 0
  {
    BracketsAreUtf8();
    match v
    case Str(text) => QuotedIsUtf8(text);
    case Num(z) => DecimalIsUtf8(z);
    case Arr(items) =>
      ItemsAreUtf8(items);
      Utf8Append([OPEN_LIST], RenderItems(items));
      Utf8Append([OPEN_LIST] + RenderItems(items), [CLOSE_LIST]);
    case Obj(members) =>
      MembersAreUtf8(members);
      Utf8Append([OPEN_OBJECT], RenderMembers(members));
      Utf8Append([OPEN_OBJECT] + RenderMembers(members), [CLOSE_OBJECT]);
  }

  lemma {:induction false} ItemsAreUtf8(items: seq<Json>)
    requires forall i <- items :: Clean(i)
    ensures IsUtf8(RenderItems(items))
    decreases items, 1
  {
    hide Render;
    BracketsAreUtf8();
    if items != [] {
      RenderIsUtf8(items[0]);
      assert forall i <- items[1..] :: i in items;
      ItemsAreUtf8(items[1..]);
      Utf8Append([COMMA], RenderItems(items[1..]));
      var tail := if |items| == 1 then [] else [COMMA] + RenderItems(items[1..]);
      Utf8Append(Render(items[0]), tail);
    }
  }

  lemma MemberIsUtf8(m: Member)
    requires CleanMember(m)
    ensures IsUtf8(RenderMember(m))
    decreases m, 1
  {
    hide Render;
    BracketsAreUtf8();
    QuotedIsUtf8(m.name);
    RenderIsUtf8(m.value);
    Utf8Append(Quoted(m.name), [COLON]);
    Utf8Append(Quoted(m.name) + [COLON], Render(m.value));
  }

  lemma {:induction false} MembersAreUtf8(members: seq<Member>)
    requires forall m <- members :: CleanMember(m)
    ensures IsUtf8(RenderMembers(members))
    decreases members, 2
  {
    hide RenderMember;
    BracketsAreUtf8();
    if members != [] {
      MemberIsUtf8(members[0]);
      assert forall m <- members[1..] :: m in members;
      MembersAreUtf8(members[1..]);
      Utf8Append([COMMA], RenderMembers(members[1..]));
      var tail := if |members| == 1 then [] else [COMMA] + RenderMembers(members[1..]);
      Utf8Append(RenderMember(members[0]), tail);
    }
  }

  /** A rendered value reads back exactly when every string in it is UTF-8 and needs no escape. */
  lemma RoundTrip(v: Json)
    ensures Parse(Render(v)) == [v] <==> Clean(v)
  {
    if Clean(v) {
      RenderParses(v, []);
      assert Render(v) + [] == Render(v);
    }
    ParsedClean(Render(v));
  }
}
