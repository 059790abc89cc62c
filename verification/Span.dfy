/** Spans (span.c): the msgpack printer, its two passes, and the parent list. */
module Span {
  import opened Bytes
  import opened Cmp
  import opened CmpUtil
  import opened Formats
  import opened Wrappers

  /** The contents of a span.  `desc` and `prid` are the bytes of the C strings. */
  datatype SpanData = SpanData(
    desc: seq<byte>,
    beginMs: uint64,
    endMs: uint64,
    spanId: uint64,
    prid: Option<seq<byte>>,
    parents: seq<uint64>)

  // ---------------------------------------------------------------- the msgpack form

  const KEY_D: seq<byte> := [0x64]
  const KEY_B: seq<byte> := [0x62]
  const KEY_E: seq<byte> := [0x65]
  const KEY_S: seq<byte> := [0x73]
  const KEY_R: seq<byte> := [0x72]
  const KEY_P: seq<byte> := [0x70]

  /** The keys are the names of the fields. */
  lemma KeyNames()
    ensures KEY_D == Ascii("d") && KEY_B == Ascii("b") && KEY_E == Ascii("e")
    ensures KEY_S == Ascii("s") && KEY_R == Ascii("r") && KEY_P == Ascii("p")
  {
  }

  function MapSize(s: SpanData): nat {
    4 + (if s.prid.Some? then 1 else 0) + (if s.parents != [] then 1 else 0)
  }

  function U64Calls(x: uint64): seq<Call> {
    Header(UInt64(x))
  }

  function KeyU64Calls(key: seq<byte>, x: uint64): seq<Call>
    requires |key| == 1
  {
    FixStrCalls(key) + U64Calls(x)
  }

  function ListCalls(ids: seq<uint64>): seq<Call> {
    if ids == [] then [] else U64Calls(ids[0]) + ListCalls(ids[1..])
  }

  function KeyStrCalls(key: seq<byte>, s: seq<byte>): seq<Call>
    requires |key| == 1
  {
    FixStrCalls(key) + Str16Calls(s)
  }

  function PridCalls(s: SpanData): seq<Call> {
    if s.prid.Some? then KeyStrCalls(KEY_R, s.prid.value) else []
  }

  /** The parent count is cut to uint16_t, the ids that follow are not. */
  function ParentCalls(s: SpanData): seq<Call> {
    if s.parents == [] then []
    else FixStrCalls(KEY_P) + (Header(Array16(|s.parents| % 0x1_0000)) + ListCalls(s.parents))
  }

  /** The write calls of span_write_msgpack. */
  function SpanCalls(s: SpanData): seq<Call> {
    Header(Map16(MapSize(s)))
    + (KeyStrCalls(KEY_D, s.desc)
       + (KeyU64Calls(KEY_B, s.beginMs)
          + (KeyU64Calls(KEY_E, s.endMs)
             + (KeyU64Calls(KEY_S, s.spanId)
                + (PridCalls(s) + ParentCalls(s))))))
  }

  // The MessagePack layouts that occur in a span, written out.

  function U64Bytes(x: uint64): (s: seq<byte>)
    ensures |s| == 9
  {
    LimitIsPower(8);
    [0xCF] + BigEndian(x, 8)
  }

  function Sized16(marker: byte, n: uint16): (s: seq<byte>)
    ensures |s| == 3
  {
    LimitIsPower(2);
    [marker] + BigEndian(n, 2)
  }

  function KeyBytes(key: seq<byte>): seq<byte> {
    [0xA1] + key
  }

  function Str16Bytes(data: seq<byte>): seq<byte> {
    var n := |data| % 0x1_0000;
    Sized16(0xDA, n) + data[..n]
  }

  function ListBytes(ids: seq<uint64>): (s: seq<byte>)
    ensures |s| == 9 * |ids|
  {
    if ids == [] then [] else U64Bytes(ids[0]) + ListBytes(ids[1..])
  }

  function KeyU64Bytes(key: seq<byte>, x: uint64): seq<byte> {
    KeyBytes(key) + U64Bytes(x)
  }

  function KeyStrBytes(key: seq<byte>, data: seq<byte>): seq<byte> {
    KeyBytes(key) + Str16Bytes(data)
  }

  function PridBytes(s: SpanData): seq<byte> {
    if s.prid.Some? then KeyStrBytes(KEY_R, s.prid.value) else []
  }

  function ParentBytes(s: SpanData): seq<byte> {
    if s.parents == [] then []
    else KeyBytes(KEY_P) + Sized16(0xDC, |s.parents| % 0x1_0000) + ListBytes(s.parents)
  }

  /** The msgpack bytes of a span, field by field. */
  function SpanBytes(s: SpanData): seq<byte> {
    Sized16(0xDE, MapSize(s))
    + (KeyStrBytes(KEY_D, s.desc)
       + (KeyU64Bytes(KEY_B, s.beginMs)
          + (KeyU64Bytes(KEY_E, s.endMs)
             + (KeyU64Bytes(KEY_S, s.spanId)
                + (PridBytes(s) + ParentBytes(s))))))
  }

  /** These layouts are the encodings of the objects that the writers are called with. */
  lemma U64Encoding(x: uint64)
    ensures !Refuses(UInt64(x)) && Encoding(UInt64(x)) == U64Bytes(x)
  {
    hide Encoding, BigEndian;
    FormatTable(UInt64(x));
    EightBytes(x);
  }

  lemma Str16Encoding(n: uint16)
    ensures !Refuses(Str16(n)) && Encoding(Str16(n)) == Sized16(0xDA, n)
  {
    hide Encoding, BigEndian;
    FormatTable(Str16(n));
    TwoBytes(n);
  }

  lemma Array16Encoding(n: uint16)
    ensures !Refuses(Array16(n)) && Encoding(Array16(n)) == Sized16(0xDC, n)
  {
    hide Encoding, BigEndian;
    FormatTable(Array16(n));
    TwoBytes(n);
  }

  lemma Map16Encoding(n: uint16)
    ensures !Refuses(Map16(n)) && Encoding(Map16(n)) == Sized16(0xDE, n)
  {
    hide Encoding, BigEndian;
    FormatTable(Map16(n));
    TwoBytes(n);
  }

  lemma KeyEncoding()
    ensures !Refuses(FixStr(1)) && Encoding(FixStr(1)) == [0xA1]
  {
    hide Encoding;
    FormatTable(FixStr(1));
  }

  lemma DataCallsBytes(data: seq<byte>)
    ensures NonEmpty(DataCalls(data)) && Flat(DataCalls(data)) == data
  {
    if data != [] {
      assert Flat([Call(data, DataWriting)]) == data + Flat([]);
    }
  }

  lemma U64CallsBytes(x: uint64)
    ensures NonEmpty(U64Calls(x)) && Flat(U64Calls(x)) == U64Bytes(x)
  {
    HeaderProperties(UInt64(x));
    U64Encoding(x);
  }

  lemma KeyCallsBytes(key: seq<byte>)
    requires |key| == 1
    ensures NonEmpty(FixStrCalls(key)) && Flat(FixStrCalls(key)) == KeyBytes(key)
  {
    hide Encoding, ObjectCalls;
    HeaderProperties(FixStr(1));
    FlatAppend(Header(FixStr(1)), DataCalls(key));
    DataCallsBytes(key);
    KeyEncoding();
  }

  lemma Str16CallsBytes(data: seq<byte>)
    ensures NonEmpty(Str16Calls(data)) && Flat(Str16Calls(data)) == Str16Bytes(data)
  {
    hide Encoding, ObjectCalls;
    var n := |data| % 0x1_0000;
    HeaderProperties(Str16(n));
    FlatAppend(Header(Str16(n)), DataCalls(data[..n]));
    DataCallsBytes(data[..n]);
    Str16Encoding(n);
  }

  lemma KeyStrCallsBytes(key: seq<byte>, s: seq<byte>)
    requires |key| == 1
    ensures NonEmpty(KeyStrCalls(key, s)) && Flat(KeyStrCalls(key, s)) == KeyStrBytes(key, s)
  {
    hide FixStrCalls, Str16Calls;
    KeyCallsBytes(key);
    Str16CallsBytes(s);
    FlatAppend(FixStrCalls(key), Str16Calls(s));
  }

  lemma KeyU64CallsBytes(key: seq<byte>, x: uint64)
    requires |key| == 1
    ensures NonEmpty(KeyU64Calls(key, x)) && Flat(KeyU64Calls(key, x)) == KeyU64Bytes(key, x)
  {
    hide FixStrCalls, U64Calls;
    KeyCallsBytes(key);
    U64CallsBytes(x);
    FlatAppend(FixStrCalls(key), U64Calls(x));
  }

  lemma {:induction false} ListCallsBytes(ids: seq<uint64>)
    ensures NonEmpty(ListCalls(ids)) && Flat(ListCalls(ids)) == ListBytes(ids)
  {
    hide U64Calls;
    if ids != [] {
      U64CallsBytes(ids[0]);
      ListCallsBytes(ids[1..]);
      FlatAppend(U64Calls(ids[0]), ListCalls(ids[1..]));
    }
  }

  lemma ParentCallsBytes(s: SpanData)
    ensures NonEmpty(ParentCalls(s)) && Flat(ParentCalls(s)) == ParentBytes(s)
  {
    hide FixStrCalls, ObjectCalls, Encoding;
    if s.parents != [] {
      var n := |s.parents| % 0x1_0000;
      KeyCallsBytes(KEY_P);
      HeaderProperties(Array16(n));
      Array16Encoding(n);
      ListCallsBytes(s.parents);
      FlatAppend(Header(Array16(n)), ListCalls(s.parents));
      FlatAppend(FixStrCalls(KEY_P), Header(Array16(n)) + ListCalls(s.parents));
    }
  }

  lemma PridCallsBytes(s: SpanData)
    ensures NonEmpty(PridCalls(s)) && Flat(PridCalls(s)) == PridBytes(s)
  {
    if s.prid.Some? {
      KeyStrCallsBytes(KEY_R, s.prid.value);
    }
  }

  lemma TailCallsBytes(s: SpanData)
    ensures NonEmpty(PridCalls(s) + ParentCalls(s))
    ensures Flat(PridCalls(s) + ParentCalls(s)) == PridBytes(s) + ParentBytes(s)
  {
    PridCallsBytes(s);
    ParentCallsBytes(s);
    FlatAppend(PridCalls(s), ParentCalls(s));
  }

  /** The write calls of a span together write its bytes. */
  lemma SpanCallsBytes(s: SpanData)
    ensures NonEmpty(SpanCalls(s)) && Flat(SpanCalls(s)) == SpanBytes(s)
  {
    hide KeyU64Calls, KeyStrCalls, PridCalls, ParentCalls, ObjectCalls, Encoding;
    hide KeyU64Bytes, KeyStrBytes, PridBytes, ParentBytes, Sized16;
    var t4 := PridCalls(s) + ParentCalls(s);
    TailCallsBytes(s);
    KeyU64CallsBytes(KEY_S, s.spanId);
    FlatAppend(KeyU64Calls(KEY_S, s.spanId), t4);
    var t3 := KeyU64Calls(KEY_S, s.spanId) + t4;
    KeyU64CallsBytes(KEY_E, s.endMs);
    FlatAppend(KeyU64Calls(KEY_E, s.endMs), t3);
    var t2 := KeyU64Calls(KEY_E, s.endMs) + t3;
    KeyU64CallsBytes(KEY_B, s.beginMs);
    FlatAppend(KeyU64Calls(KEY_B, s.beginMs), t2);
    var t1 := KeyU64Calls(KEY_B, s.beginMs) + t2;
    KeyStrCallsBytes(KEY_D, s.desc);
    FlatAppend(KeyStrCalls(KEY_D, s.desc), t1);
    var t0 := KeyStrCalls(KEY_D, s.desc) + t1;
    HeaderProperties(Map16(MapSize(s)));
    Map16Encoding(MapSize(s));
    FlatAppend(Header(Map16(MapSize(s))), t0);
  }

  // ---------------------------------------------------------------- sorted parent lists

  predicate Sorted(s: seq<uint64>) {
    forall i, j :: 0 <= i < j < |s| ==> s[i] <= s[j]
  }

  predicate Increasing(s: seq<uint64>) {
    forall i, j :: 0 <= i < j < |s| ==> s[i] < s[j]
  }

  predicate SameIds(a: seq<uint64>, b: seq<uint64>) {
    (forall x <- a :: x in b) && (forall x <- b :: x in a)
  }

  /** There is only one increasing list of a set of ids. */
  lemma {:induction false} IncreasingUnique(a: seq<uint64>, b: seq<uint64>)
    requires Increasing(a) && Increasing(b) && SameIds(a, b)
    ensures a == b
  {
    assert a != [] ==> a[0] in a;
    assert b != [] ==> b[0] in b;
    if a != [] {
      assert a[0] in b && b[0] in a;
      assert a[0] == b[0];
      forall x | x in a[1..]
        ensures x in b[1..]
      {
        assert x in b && x != b[0];
      }
      forall x | x in b[1..]
        ensures x in a[1..]
      {
        assert x in a && x != a[0];
      }
      IncreasingUnique(a[1..], b[1..]);
      assert a == [a[0]] + a[1..] && b == [b[0]] + b[1..];
    }
  }

  function InsertSorted(x: uint64, s: seq<uint64>): seq<uint64> {
    if s == [] || x <= s[0] then [x] + s else [s[0]] + InsertSorted(x, s[1..])
  }

  lemma {:induction false} InsertSortedIds(x: uint64, s: seq<uint64>, y: uint64)
    ensures y in InsertSorted(x, s) <==> y == x || y in s
  {
    if s != [] && x > s[0] {
      InsertSortedIds(x, s[1..], y);
      assert y in s <==> y == s[0] || y in s[1..];
    }
  }

  lemma {:induction false} InsertSortedCounts(x: uint64, s: seq<uint64>)
    ensures |InsertSorted(x, s)| == |s| + 1
    ensures multiset(InsertSorted(x, s)) == multiset(s) + multiset{x}
  {
    if s != [] && x > s[0] {
      InsertSortedCounts(x, s[1..]);
      assert s == [s[0]] + s[1..];
    }
  }

  lemma {:induction false} InsertSortedOk(x: uint64, s: seq<uint64>)
    requires Sorted(s)
    ensures Sorted(InsertSorted(x, s)) && |InsertSorted(x, s)| == |s| + 1
    ensures multiset(InsertSorted(x, s)) == multiset(s) + multiset{x}
  {
    InsertSortedCounts(x, s);
    if s != [] && x > s[0] {
      InsertSortedOk(x, s[1..]);
      var rest := InsertSorted(x, s[1..]);
      forall j | 0 <= j < |rest|
        ensures s[0] <= rest[j]
      {
        InsertSortedIds(x, s[1..], rest[j]);
      }
    }
  }

  function SortIds(s: seq<uint64>): seq<uint64> {
    if s == [] then [] else InsertSorted(s[0], SortIds(s[1..]))
  }

  lemma {:induction false} SortIdsOk(s: seq<uint64>)
    ensures Sorted(SortIds(s)) && SameIds(SortIds(s), s) && |SortIds(s)| == |s|
    ensures multiset(SortIds(s)) == multiset(s)
  {
    if s != [] {
      SortIdsOk(s[1..]);
      InsertSortedOk(s[0], SortIds(s[1..]));
      assert s == [s[0]] + s[1..];
      forall y: uint64
        ensures y in SortIds(s) <==> y in s
      {
        InsertSortedIds(s[0], SortIds(s[1..]), y);
      }
    }
  }

  lemma OneKept(x: uint64, kept: seq<uint64>, done: seq<uint64>)
    requires kept == [x] && done == [x]
    ensures Increasing(kept) && SameIds(kept, done)
  {
  }

  lemma InOrder(s: seq<uint64>, i: nat, j: nat)
    requires Sorted(s) && i < j < |s|
    ensures s[i] <= s[j]
  {
  }

  /** One step of the compaction: the next id of the sorted list is kept if it is new. */
  lemma KeepNext(kept: seq<uint64>, done: seq<uint64>, id: uint64)
    requires kept != [] && Increasing(kept) && SameIds(kept, done) && kept[|kept| - 1] <= id
    ensures var next := if id != kept[|kept| - 1] then kept + [id] else kept;
            Increasing(next) && SameIds(next, done + [id]) && next[|next| - 1] == id
  {
    assert forall k :: 0 <= k < |kept| ==> kept[k] <= kept[|kept| - 1];
  }

  /** The ids kept from the first i of a sorted list; the last of both is prev. */
  ghost predicate KeptSoFar(kept: seq<uint64>, sorted: seq<uint64>, i: nat, prev: uint64)
    requires 1 <= i <= |sorted| && kept != []
  {
    && Increasing(kept) && SameIds(kept, sorted[..i])
    && prev == kept[|kept| - 1] == sorted[i - 1]
  }

  lemma KeepIndex(kept: seq<uint64>, sorted: seq<uint64>, i: nat, prev: uint64)
    requires 1 <= i < |sorted| && kept != [] && Sorted(sorted) && KeptSoFar(kept, sorted, i, prev)
    ensures if sorted[i] != prev then KeptSoFar(kept + [sorted[i]], sorted, i + 1, sorted[i])
            else KeptSoFar(kept, sorted, i + 1, prev)
  {
    hide Increasing, SameIds;
    InOrder(sorted, i - 1, i);
    KeepNext(kept, sorted[..i], sorted[i]);
    assert sorted[..i + 1] == sorted[..i] + [sorted[i]];
  }

  /** Stands for qsort with compare_spanids on the first n elements. */
  method Qsort(a: array<uint64>, n: nat)
    requires n <= a.Length
    modifies a
    ensures Sorted(a[..n]) && SameIds(a[..n], old(a[..n])) && multiset(a[..n]) == multiset(old(a[..n]))
    ensures a[n..] == old(a[n..])
  {
    var sorted := SortIds(a[..n]);
    SortIdsOk(a[..n]);
    forall i | 0 <= i < n {
      a[i] := sorted[i];
    }
    assert a[..n] == sorted;
  }

  // ---------------------------------------------------------------- the span object

  /** struct htrace_span.  One parent is kept in `single`, several in `list`. */
  class HtraceSpan {
    var desc: seq<byte>
    var beginMs: uint64
    var endMs: uint64
    var spanId: uint64
    var prid: Option<seq<byte>>
    var numParents: nat
    var single: uint64
    var list: array<uint64>

    ghost predicate Valid()
      reads this
    {
      numParents > 1 ==> numParents <= list.Length
    }

    ghost function Parents(): seq<uint64>
      reads this, list
      requires Valid()
    {
      if numParents == 0 then [] else if numParents == 1 then [single] else list[..numParents]
    }

    ghost function View(): SpanData
      reads this, list
      requires Valid()
    {
      SpanData(desc, beginMs, endMs, spanId, prid, Parents())
    }

    /** htrace_span_alloc. */
    constructor (desc: seq<byte>, beginMs: uint64, spanId: uint64)
      ensures Valid() && fresh(list)
      ensures View() == SpanData(desc, beginMs, 0, spanId, None, [])
    {
      this.desc, this.beginMs, this.endMs, this.spanId := desc, beginMs, 0, spanId;
      prid, numParents, single := None, 0, 0;
      list := new uint64[0];
    }

    /** htrace_span_sort_and_dedupe_parents: sorted, without repetition, and the same ids. */
    method SortAndDedupeParents()
      requires Valid()
      modifies this`numParents, this`single, this`list, list
      ensures Valid()
      ensures Increasing(Parents()) && SameIds(Parents(), old(Parents()))
    {
      var n := numParents;
      if n <= 1 {
        return;
      }
      Qsort(list, n);
      var j := Compact(n);
      numParents := j;
      if j == 1 {
        single := list[0];
        assert list[..1] == [single];
      } else if j != n {
        Shrink(j);
      }
    }

    /** The loop over the sorted list, which moves every new id down to index j <= i. */
    method Compact(n: nat) returns (j: nat)
      requires 1 < n <= list.Length && Sorted(list[..n])
      modifies list
      ensures 1 <= j <= n
      ensures Increasing(list[..j]) && SameIds(list[..j], old(list[..n]))
    {
      hide Sorted, Increasing, SameIds;
      ghost var sorted := list[..n];
      var prev := list[0];
      j := 1;
      ghost var kept := [list[0]];
      OneKept(list[0], kept, sorted[..1]);
      for i := 1 to n
        invariant 1 <= j == |kept| <= i
        invariant KeptSoFar(kept, sorted, i, prev)
        invariant forall k :: 0 <= k < j ==> list[k] == kept[k]
        invariant forall k :: i <= k < n ==> list[k] == sorted[k]
      {
        var id := list[i];
        KeepIndex(kept, sorted, i, prev);
        if id != prev {
          list[j] := list[i];
          kept := kept + [id];
          j := j + 1;
          prev := id;
        }
      }
      assert sorted[..n] == sorted && list[..j] == kept;
    }

    /** realloc to a smaller size. */
    method Shrink(n: nat)
      requires 1 < n <= list.Length && numParents == n
      modifies this`list
      ensures fresh(list) && list.Length == n && list[..] == old(list[..n])
    {
      var smaller := new uint64[n];
      forall i | 0 <= i < n {
        smaller[i] := list[i];
      }
      assert smaller[..] == list[..n];
      list := smaller;
    }

    /** cmp_write_fixstr of a one-letter key. */
    method WriteKey(ctx: Context, key: seq<byte>) returns (ok: bool)
      requires |key| == 1
      requires ctx.Valid() && Reserved(ctx.View(), |Flat(FixStrCalls(key))|)
      modifies ctx`off, ctx`error, ctx.buf
      ensures ctx.Valid() && Outcome(ctx.View(), ok) == Perform(old(ctx.View()), FixStrCalls(key))
      ensures ctx.OnlyAppended()
    {
      hide Encoding, ObjectCalls;
      ok := ctx.WriteString(FixStr(1), key);
    }

    /** cmp_write_str16 with the length cut to 16 bits. */
    method WriteStr16(ctx: Context, s: seq<byte>) returns (ok: bool)
      requires ctx.Valid() && Reserved(ctx.View(), |Flat(Str16Calls(s))|)
      modifies ctx`off, ctx`error, ctx.buf
      ensures ctx.Valid() && Outcome(ctx.View(), ok) == Perform(old(ctx.View()), Str16Calls(s))
      ensures ctx.OnlyAppended()
    {
      hide Encoding, ObjectCalls;
      var n := |s| % 0x1_0000;
      ok := ctx.WriteString(Str16(n), s[..n]);
    }

    method WriteKeyU64(ctx: Context, key: seq<byte>, x: uint64) returns (ok: bool)
      requires |key| == 1
      requires ctx.Valid() && Reserved(ctx.View(), |Flat(KeyU64Calls(key, x))|)
      modifies ctx`off, ctx`error, ctx.buf
      ensures ctx.Valid() && Outcome(ctx.View(), ok) == Perform(old(ctx.View()), KeyU64Calls(key, x))
      ensures ctx.OnlyAppended()
    {
      hide FixStrCalls, U64Calls;
      KeyCallsBytes(key);
      Advance(ctx.View(), FixStrCalls(key), U64Calls(x));
      ok := WriteKey(ctx, key);
      if ok {
        ok := WriteU64(ctx, x);
      }
    }

    method WriteKeyStr(ctx: Context, key: seq<byte>, s: seq<byte>) returns (ok: bool)
      requires |key| == 1
      requires ctx.Valid() && Reserved(ctx.View(), |Flat(KeyStrCalls(key, s))|)
      modifies ctx`off, ctx`error, ctx.buf
      ensures ctx.Valid() && Outcome(ctx.View(), ok) == Perform(old(ctx.View()), KeyStrCalls(key, s))
      ensures ctx.OnlyAppended()
    {
      hide FixStrCalls, Str16Calls;
      KeyCallsBytes(key);
      Advance(ctx.View(), FixStrCalls(key), Str16Calls(s));
      ok := WriteKey(ctx, key);
      if ok {
        ok := WriteStr16(ctx, s);
      }
    }

    /** The parents: a count cut to 16 bits, then every id. */
    method WriteParents(ctx: Context) returns (ok: bool)
      requires Valid() && numParents > 0
      requires ctx.Valid() && Reserved(ctx.View(), |Flat(ParentCalls(View()))|)
      modifies ctx`off, ctx`error, ctx.buf
      ensures ctx.Valid() && Outcome(ctx.View(), ok) == Perform(old(ctx.View()), ParentCalls(View()))
      ensures ctx.OnlyAppended()
    {
      hide Encoding, ObjectCalls, HeaderCalls;
      var ids := if numParents == 1 then [single] else list[..numParents];
      KeyCallsBytes(KEY_P);
      Advance(ctx.View(), FixStrCalls(KEY_P), Header(Array16(|ids| % 0x1_0000)) + ListCalls(ids));
      ok := WriteKey(ctx, KEY_P);
      if ok {
        ok := WriteList(ctx, ids);
      }
    }

    method WriteList(ctx: Context, ids: seq<uint64>) returns (ok: bool)
      requires ctx.Valid() && Reserved(ctx.View(), |Flat(Header(Array16(|ids| % 0x1_0000)) + ListCalls(ids))|)
      modifies ctx`off, ctx`error, ctx.buf
      ensures ctx.Valid() && ctx.OnlyAppended()
      ensures Outcome(ctx.View(), ok)
              == Perform(old(ctx.View()), Header(Array16(|ids| % 0x1_0000)) + ListCalls(ids))
    {
      hide Encoding, ObjectCalls, ListCalls;
      var n := |ids| % 0x1_0000;
      HeaderProperties(Array16(n));
      Advance(ctx.View(), Header(Array16(n)), ListCalls(ids));
      ok := ctx.WriteObject(Array16(n));
      if ok {
        ok := WriteIds(ctx, ids);
      }
    }

    method WriteIds(ctx: Context, ids: seq<uint64>) returns (ok: bool)
      requires ctx.Valid() && Reserved(ctx.View(), |Flat(ListCalls(ids))|)
      modifies ctx`off, ctx`error, ctx.buf
      ensures ctx.Valid() && Outcome(ctx.View(), ok) == Perform(old(ctx.View()), ListCalls(ids))
      ensures ctx.OnlyAppended()
    {
      hide Encoding, ObjectCalls, U64Calls;
      ghost var before := ctx.View();
      ok := true;
      var i := 0;
      assert ids[0..] == ids;
      while i < |ids|
        invariant 0 <= i <= |ids| && ok
        invariant ctx.Valid() && ctx.OnlyAppended()
        invariant Perform(before, ListCalls(ids)) == Perform(ctx.View(), ListCalls(ids[i..]))
        invariant Reserved(ctx.View(), |Flat(ListCalls(ids[i..]))|)
      {
        assert ids[i..][0] == ids[i] && ids[i..][1..] == ids[i + 1..];
        U64CallsBytes(ids[i]);
        Advance(ctx.View(), U64Calls(ids[i]), ListCalls(ids[i + 1..]));
        ok := WriteU64(ctx, ids[i]);
        if !ok {
          return;
        }
        i := i + 1;
      }
    }

    /** cmp_write_u64. */
    method WriteU64(ctx: Context, x: uint64) returns (ok: bool)
      requires ctx.Valid() && Reserved(ctx.View(), |Flat(U64Calls(x))|)
      modifies ctx`off, ctx`error, ctx.buf
      ensures ctx.Valid() && Outcome(ctx.View(), ok) == Perform(old(ctx.View()), U64Calls(x))
      ensures ctx.OnlyAppended()
    {
      hide Encoding, ObjectCalls;
      HeaderProperties(UInt64(x));
      ok := ctx.WriteObject(UInt64(x));
    }

    /** span_write_msgpack: the same calls whatever the context does with them. */
    method WriteMsgpack(ctx: Context) returns (ok: bool)
      requires Valid()
      requires ctx.Valid() && Reserved(ctx.View(), |SpanBytes(View())|)
      modifies ctx`off, ctx`error, ctx.buf
      ensures ctx.Valid() && Outcome(ctx.View(), ok) == Perform(old(ctx.View()), SpanCalls(View()))
      ensures ctx.OnlyAppended()
    {
      hide Encoding, ObjectCalls, HeaderCalls, KeyStrCalls, KeyU64Calls, PridCalls, ParentCalls;
      hide Flat, SpanBytes, Perform;
      ghost var s := View();
      ghost var c5 := PridCalls(s) + ParentCalls(s);
      ghost var c4 := KeyU64Calls(KEY_S, s.spanId) + c5;
      ghost var c2 := KeyU64Calls(KEY_B, s.beginMs) + (KeyU64Calls(KEY_E, s.endMs) + c4);
      SpanCallsBytes(s);
      ok := WriteHead(ctx, s, c2);
      if !ok { return; }
      ok := WriteTimes(ctx, s, c4);
      if !ok { return; }
      KeyU64CallsBytes(KEY_S, s.spanId);
      Advance(ctx.View(), KeyU64Calls(KEY_S, s.spanId), c5);
      ok := WriteKeyU64(ctx, KEY_S, spanId);
      if !ok { return; }
      ok := WriteTail(ctx);
    }

    /** The map header and the description. */
    method WriteHead(ctx: Context, ghost s: SpanData, ghost rest: seq<Call>) returns (ok: bool)
      requires Valid() && s == View()
      requires ctx.Valid()
      requires Reserved(ctx.View(), |Flat(Header(Map16(MapSize(s))) + (KeyStrCalls(KEY_D, s.desc) + rest))|)
      modifies ctx`off, ctx`error, ctx.buf
      ensures ctx.Valid() && ctx.OnlyAppended() && View() == s
      ensures var r := Perform(old(ctx.View()), Header(Map16(MapSize(s))) + (KeyStrCalls(KEY_D, s.desc) + rest));
              if ok then r == Perform(ctx.View(), rest) else r == Outcome(ctx.View(), false)
      ensures ok ==> Reserved(ctx.View(), |Flat(rest)|)
    {
      hide Encoding, ObjectCalls, HeaderCalls, KeyStrCalls, Flat, Perform;
      var mapSize: nat := 4;
      if prid.Some? {
        mapSize := mapSize + 1;
      }
      if numParents > 0 {
        mapSize := mapSize + 1;
      }
      assert mapSize == MapSize(s);
      HeaderProperties(Map16(mapSize));
      Advance(ctx.View(), Header(Map16(mapSize)), KeyStrCalls(KEY_D, s.desc) + rest);
      ok := ctx.WriteObject(Map16(mapSize));
      if ok {
        KeyStrCallsBytes(KEY_D, s.desc);
        Advance(ctx.View(), KeyStrCalls(KEY_D, s.desc), rest);
        ok := WriteKeyStr(ctx, KEY_D, desc);
      }
    }

    /** The begin and end times. */
    method WriteTimes(ctx: Context, ghost s: SpanData, ghost rest: seq<Call>) returns (ok: bool)
      requires Valid() && s == View()
      requires ctx.Valid()
      requires Reserved(ctx.View(), |Flat(KeyU64Calls(KEY_B, s.beginMs) + (KeyU64Calls(KEY_E, s.endMs) + rest))|)
      modifies ctx`off, ctx`error, ctx.buf
      ensures ctx.Valid() && ctx.OnlyAppended() && View() == s
      ensures var r := Perform(old(ctx.View()), KeyU64Calls(KEY_B, s.beginMs) + (KeyU64Calls(KEY_E, s.endMs) + rest));
              if ok then r == Perform(ctx.View(), rest) else r == Outcome(ctx.View(), false)
      ensures ok ==> Reserved(ctx.View(), |Flat(rest)|)
    {
      hide Encoding, ObjectCalls, HeaderCalls, KeyU64Calls, Flat, Perform;
      KeyU64CallsBytes(KEY_B, s.beginMs);
      Advance(ctx.View(), KeyU64Calls(KEY_B, s.beginMs), KeyU64Calls(KEY_E, s.endMs) + rest);
      ok := WriteKeyU64(ctx, KEY_B, beginMs);
      if ok {
        KeyU64CallsBytes(KEY_E, s.endMs);
        Advance(ctx.View(), KeyU64Calls(KEY_E, s.endMs), rest);
        ok := WriteKeyU64(ctx, KEY_E, endMs);
      }
    }

    /** The process id and the parents, when there are any. */
    method WriteTail(ctx: Context) returns (ok: bool)
      requires Valid()
      requires ctx.Valid() && Reserved(ctx.View(), |Flat(PridCalls(View()) + ParentCalls(View()))|)
      modifies ctx`off, ctx`error, ctx.buf
      ensures ctx.Valid() && ctx.OnlyAppended()
      ensures Outcome(ctx.View(), ok) == Perform(old(ctx.View()), PridCalls(View()) + ParentCalls(View()))
    {
      hide Encoding, ObjectCalls, HeaderCalls, KeyStrCalls;
      ghost var s := View();
      PridCallsBytes(s);
      Advance(ctx.View(), PridCalls(s), ParentCalls(s));
      ok := true;
      if prid.Some? {
        ok := WriteKeyStr(ctx, KEY_R, prid.value);
      }
      if ok && numParents > 0 {
        ok := WriteParents(ctx);
      }
    }
  }
}
