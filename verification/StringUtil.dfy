/** The string helpers of string.c: the validator that lets the JSON printer skip escaping,
    and the printf that moves on through a buffer. */
module StringUtil {
  import opened Bytes

  // ---------------------------------------------------------------- UTF-8

  type CodePoint = c: nat | c <= 0x10FFFF

  /** The UTF-8 form of a code point (section 3 of RFC 3629). */
  function Utf8(c: CodePoint): (s: seq<byte>)
    ensures 1 <= |s| <= 4
  {
    if c < 0x80 then [c]
    else if c < 0x800 then [0xC0 + c / 64, 0x80 + c % 64]
    else if c < 0x1_0000 then [0xE0 + c / 4096, 0x80 + c / 64 % 64, 0x80 + c % 64]
    else [0xF0 + c / 262144, 0x80 + c / 4096 % 64, 0x80 + c / 64 % 64, 0x80 + c % 64]
  }

  function Utf8All(cs: seq<CodePoint>): seq<byte> {
    if cs == [] then [] else Utf8(cs[0]) + Utf8All(cs[1..])
  }

  /** The code points that UTF-8 has a form for. */
  predicate Scalar(c: CodePoint) {
    !(0xD800 <= c <= 0xDFFF)
  }

  predicate Continues(b: byte) {
    0x80 <= b <= 0xBF
  }

  /** The length of the UTF-8 form of a code point in front of a string, or 0 if there is none
      (the table in section 4 of RFC 3629). */
  function Sequence(s: seq<byte>): (n: nat)
    ensures n <= |s| && n <= 4
  {
    var b0 := if |s| > 0 then s[0] else 0xFF;
    var b1 := if |s| > 1 then s[1] else 0;
    var b2 := if |s| > 2 then s[2] else 0;
    var b3 := if |s| > 3 then s[3] else 0;
    if b0 <= 0x7F then 1
    else if 0xC2 <= b0 <= 0xDF && Continues(b1) then 2
    else if b0 == 0xE0 && 0xA0 <= b1 <= 0xBF && Continues(b2) then 3
    else if (0xE1 <= b0 <= 0xEC || 0xEE <= b0 <= 0xEF) && Continues(b1) && Continues(b2) then 3
    else if b0 == 0xED && 0x80 <= b1 <= 0x9F && Continues(b2) then 3
    else if b0 == 0xF0 && 0x90 <= b1 <= 0xBF && Continues(b2) && Continues(b3) then 4
    else if 0xF1 <= b0 <= 0xF3 && Continues(b1) && Continues(b2) && Continues(b3) then 4
    else if b0 == 0xF4 && 0x80 <= b1 <= 0x8F && Continues(b2) && Continues(b3) then 4
    else 0
  }

  predicate IsUtf8(s: seq<byte>) {
    s == [] || (Sequence(s) > 0 && IsUtf8(s[Sequence(s)..]))
  }

  /** The code point in front of a string. */
  function Point(s: seq<byte>): (c: CodePoint)
    requires Sequence(s) > 0
  {
    var n := Sequence(s);
    var b0: int := s[0];
    if n == 1 then b0
    else
      var b1: int := s[1];
      if n == 2 then (b0 - 0xC0) * 64 + (b1 - 0x80)
      else
        var b2: int := s[2];
        if n == 3 then (b0 - 0xE0) * 4096 + (b1 - 0x80) * 64 + (b2 - 0x80)
        else
          var b3: int := s[3];
          (b0 - 0xF0) * 262144 + (b1 - 0x80) * 4096 + (b2 - 0x80) * 64 + (b3 - 0x80)
  }

  /** Four digits of six bits, the first ones of those being all that is above. */
  lemma SixBits(a: nat, b: nat, c: nat, d: nat)
    requires b < 64 && c < 64 && d < 64
    ensures var x := a * 262144 + b * 4096 + c * 64 + d;
            x / 262144 == a && x / 4096 % 64 == b && x / 64 % 64 == c && x % 64 == d
  {
    var x := a * 262144 + b * 4096 + c * 64 + d;
    assert x / 64 == a * 4096 + b * 64 + c;
    assert x / 4096 == a * 64 + b;
  }

  lemma ThreeBytesAreUtf8(s: seq<byte>)
    requires Sequence(s) == 3
    ensures Scalar(Point(s)) && Utf8(Point(s)) == s[..3]
  {
    var c := Point(s);
    SixBits(0, s[0] - 0xE0, s[1] - 0x80, s[2] - 0x80);
    assert 0x800 <= c < 0x1_0000 && Scalar(c) && c / 4096 == s[0] - 0xE0;
  }

  lemma FourBytesAreUtf8(s: seq<byte>)
    requires Sequence(s) == 4
    ensures Scalar(Point(s)) && Utf8(Point(s)) == s[..4]
  {
    SixBits(s[0] - 0xF0, s[1] - 0x80, s[2] - 0x80, s[3] - 0x80);
    assert 0x1_0000 <= Point(s);
  }

  lemma ShortBytesAreUtf8(s: seq<byte>)
    requires 1 <= Sequence(s) <= 2
    ensures Scalar(Point(s)) && Utf8(Point(s)) == s[..Sequence(s)]
  {
    var c := Point(s);
    if Sequence(s) == 1 {
      assert c < 0x80;
    } else {
      SixBits(0, 0, s[0] - 0xC0, s[1] - 0x80);
      assert 0x80 <= c < 0x800 && c / 64 == s[0] - 0xC0;
    }
  }

  lemma SequenceIsUtf8(s: seq<byte>)
    requires Sequence(s) > 0
    ensures Scalar(Point(s)) && Utf8(Point(s)) == s[..Sequence(s)]
  {
    hide Sequence, Point, Utf8, Scalar;
    if Sequence(s) == 3 {
      ThreeBytesAreUtf8(s);
    } else if Sequence(s) == 4 {
      FourBytesAreUtf8(s);
    } else {
      ShortBytesAreUtf8(s);
    }
  }

  lemma Utf8IsSequence(c: CodePoint, rest: seq<byte>)
    requires Scalar(c)
    ensures Sequence(Utf8(c) + rest) == |Utf8(c)|
  {
  }

  lemma {:induction false} EncodedIsUtf8(cs: seq<CodePoint>)
    requires forall c <- cs :: Scalar(c)
    ensures IsUtf8(Utf8All(cs))
  {
    hide Sequence, Utf8;
    if cs != [] {
      var rest := Utf8All(cs[1..]);
      Utf8IsSequence(cs[0], rest);
      assert forall c <- cs[1..] :: c in cs;
      EncodedIsUtf8(cs[1..]);
      assert (Utf8(cs[0]) + rest)[|Utf8(cs[0])|..] == rest;
    }
  }

  lemma {:induction false} Utf8IsEncoded(s: seq<byte>) returns (cs: seq<CodePoint>)
    requires IsUtf8(s)
    ensures (forall c <- cs :: Scalar(c)) && Utf8All(cs) == s
    decreases |s|
  {
    hide Sequence, Utf8, Point;
    if s == [] {
      cs := [];
    } else {
      SequenceIsUtf8(s);
      var rest := Utf8IsEncoded(s[Sequence(s)..]);
      cs := [Point(s)] + rest;
      assert s == s[..Sequence(s)] + s[Sequence(s)..];
      assert cs[1..] == rest;
    }
  }

  /** IsUtf8 holds of exactly the encodings of scalar values. */
  lemma Utf8Meaning(s: seq<byte>)
    ensures IsUtf8(s) <==> exists cs: seq<CodePoint> :: (forall c <- cs :: Scalar(c)) && Utf8All(cs) == s
  {
    if IsUtf8(s) {
      var cs := Utf8IsEncoded(s);
    }
    if exists cs: seq<CodePoint> :: (forall c <- cs :: Scalar(c)) && Utf8All(cs) == s {
      var cs: seq<CodePoint> :| (forall c <- cs :: Scalar(c)) && Utf8All(cs) == s;
      EncodedIsUtf8(cs);
    }
  }

  lemma SequenceStays(s: seq<byte>, rest: seq<byte>)
    requires Sequence(s) > 0
    ensures Sequence(s + rest) == Sequence(s) == Sequence(s[..Sequence(s)] + rest)
    ensures forall i :: 0 <= i < Sequence(s) && Sequence(s) > 1 ==> s[i] >= 0x80
  {
  }

  lemma {:induction false} Utf8Append(a: seq<byte>, b: seq<byte>)
    requires IsUtf8(a) && IsUtf8(b)
    ensures IsUtf8(a + b)
    decreases |a|
  {
    hide Sequence;
    if a == [] {
      assert a + b == b;
    } else {
      SequenceStays(a, b);
      Utf8Append(a[Sequence(a)..], b);
      assert (a + b)[Sequence(a)..] == a[Sequence(a)..] + b;
    }
  }

  lemma {:induction false} AsciiIsUtf8(s: seq<byte>)
    requires forall b <- s :: b <= 0x7F
    ensures IsUtf8(s)
  {
    if s != [] {
      assert s[0] in s && forall b <- s[1..] :: b in s;
      AsciiIsUtf8(s[1..]);
    }
  }

  // ---------------------------------------------------------------- the validator

  /** The code points that validate_json_string lets through: no control characters, no
      quotation mark or backslash, no surrogates, nothing outside the basic plane. */
  predicate Allowed(c: CodePoint) {
    0x20 <= c <= 0xFFFF && c != 0x22 && c != 0x5C && c != 0x7F && !(0xD800 <= c <= 0xDFFF)
  }

  ghost predicate IsAllowedText(s: seq<byte>) {
    exists cs: seq<CodePoint> :: (forall c <- cs :: Allowed(c)) && Utf8All(cs) == s
  }

  /** How many bytes the validator takes at the front of a string, or 0 for its refusal.  The
      zero byte that ends the string satisfies none of the tests. */
  function Unit(s: seq<byte>): (n: nat)
    ensures n <= |s| && n <= 3
  {
    var b0 := if |s| > 0 then s[0] else 0;
    var b1 := if |s| > 1 then s[1] else 0;
    var b2 := if |s| > 2 then s[2] else 0;
    if 0x20 <= b0 <= 0x7E && b0 != 0x22 && b0 != 0x5C then 1
    else if 0xC2 <= b0 <= 0xDF && Continues(b1) then 2
    else if b0 == 0xE0 && 0xA0 <= b1 <= 0xBF && Continues(b2) then 3
    else if (0xE1 <= b0 <= 0xEC || b0 == 0xEE || b0 == 0xEF) && Continues(b1) && Continues(b2) then 3
    else if b0 == 0xED && 0x80 <= b1 <= 0x9F && Continues(b2) then 3
    else 0
  }

  predicate Accepts(s: seq<byte>) {
    s == [] || (Unit(s) > 0 && Accepts(s[Unit(s)..]))
  }

  /** The bytes taken are the form of an allowed code point. */
  lemma UnitIsUtf8(s: seq<byte>)
    requires Unit(s) > 0
    ensures Sequence(s) == Unit(s) && Allowed(Point(s)) && Utf8(Point(s)) == s[..Unit(s)]
  {
    SequenceIsUtf8(s);
  }

  /** The form of an allowed code point is taken as one unit, whatever follows. */
  lemma Utf8IsUnit(c: CodePoint, rest: seq<byte>)
    requires Allowed(c)
    ensures Unit(Utf8(c) + rest) == |Utf8(c)|
  {
  }

  lemma {:induction false} AcceptsEncoded(cs: seq<CodePoint>)
    requires forall c <- cs :: Allowed(c)
    ensures Accepts(Utf8All(cs))
  {
    if cs != [] {
      var rest := Utf8All(cs[1..]);
      Utf8IsUnit(cs[0], rest);
      AcceptsEncoded(cs[1..]);
      assert (Utf8(cs[0]) + rest)[|Utf8(cs[0])|..] == rest;
    }
  }

  lemma {:induction false} AcceptedIsEncoded(s: seq<byte>) returns (cs: seq<CodePoint>)
    requires Accepts(s)
    ensures (forall c <- cs :: Allowed(c)) && Utf8All(cs) == s
  {
    if s == [] {
      cs := [];
    } else {
      UnitIsUtf8(s);
      var rest := AcceptedIsEncoded(s[Unit(s)..]);
      cs := [Point(s)] + rest;
      assert s == s[..Unit(s)] + s[Unit(s)..];
    }
  }

  /** validate_json_string accepts exactly the UTF-8 texts of allowed code points. */
  lemma ValidatorMeaning(s: seq<byte>)
    ensures Accepts(s) <==> IsAllowedText(s)
  {
    if Accepts(s) {
      var cs := AcceptedIsEncoded(s);
    }
    if IsAllowedText(s) {
      var cs :| (forall c <- cs :: Allowed(c)) && Utf8All(cs) == s;
      AcceptsEncoded(cs);
    }
  }

  /** Nothing in a validated string needs an escape in JSON (section 7 of RFC 8259). */
  predicate NeedsNoEscape(s: seq<byte>) {
    forall b <- s :: b >= 0x20 && b != 0x22 && b != 0x5C
  }

  lemma {:induction false} ValidatedNeedsNoEscape(s: seq<byte>)
    requires Accepts(s)
    ensures NeedsNoEscape(s)
    decreases |s|
  {
    if s != [] {
      ValidatedNeedsNoEscape(s[Unit(s)..]);
      assert s == s[..Unit(s)] + s[Unit(s)..];
    }
  }

  /** The other half of what the validator is for. */
  lemma ValidatedIsUtf8(s: seq<byte>)
    requires Accepts(s)
    ensures IsUtf8(s)
  {
    var cs := AcceptedIsEncoded(s);
    EncodedIsUtf8(cs);
  }

  predicate CString(memory: seq<byte>) {
    memory != [] && memory[|memory| - 1] == 0 && forall i :: 0 <= i < |memory| - 1 ==> memory[i] != 0
  }

  /** validate_json_string.  The memory ends with the terminator, so that no read goes past it. */
  method ValidateJsonString(memory: seq<byte>) returns (ok: bool)
    requires CString(memory)
    ensures ok == Accepts(memory[..|memory| - 1])
    ensures ok <==> IsAllowedText(memory[..|memory| - 1])
  {
    ghost var s := memory[..|memory| - 1];
    ValidatorMeaning(s);
    var b := 0;
    while memory[b] != 0
      invariant 0 <= b < |memory| && Accepts(s) == Accepts(s[b..])
      decreases |memory| - b
    {
      ghost var rest := s[b..];
      assert |rest| > 0 && rest[0] == memory[b];
      assert |rest| > 1 ==> rest[1] == memory[b + 1];
      assert |rest| > 2 ==> rest[2] == memory[b + 2];
      assert forall n :: 0 <= n <= |rest| ==> rest[n..] == s[b + n..];
      if 0x20 <= memory[b] <= 0x7E && memory[b] != 0x22 && memory[b] != 0x5C {
        b := b + 1;
        continue;
      }
      if 0xC2 <= memory[b] <= 0xDF && 0x80 <= memory[b + 1] <= 0xBF {
        b := b + 2;
        continue;
      }
      if (memory[b] == 0xE0
          && 0xA0 <= memory[b + 1] <= 0xBF
          && 0x80 <= memory[b + 2] <= 0xBF)
         || ((0xE1 <= memory[b] <= 0xEC || memory[b] == 0xEE || memory[b] == 0xEF)
             && 0x80 <= memory[b + 1] <= 0xBF
             && 0x80 <= memory[b + 2] <= 0xBF)
         || (memory[b] == 0xED
             && 0x80 <= memory[b + 1] <= 0x9F
             && 0x80 <= memory[b + 2] <= 0xBF)
      {
        b := b + 3;
        continue;
      }
      return false;
    }
    return true;
  }

  // ---------------------------------------------------------------- printing into a buffer

  /** The `char *buf` and the `int max` of a printer, which its calls to fwdprintf move on.
      The buffer of a printer that only measures has no room at all.  `text` is what has been
      printed so far, whether there was room for it or not. */
  class Printer {
    const buf: array<byte>
    const start: nat
    const max: nat
    var pos: nat
    var rem: nat
    ghost var text: seq<byte>

    /** The first max - 1 bytes of the text are in the buffer, or all of them if they are
        fewer, with a zero byte behind them once something was printed. */
    ghost predicate Valid()
      reads this, buf
    {
      && start + max <= buf.Length
      && pos == start + Min(|text|, max) && rem == max - Min(|text|, max)
      && (max > 0 && text != [] ==> Holds())
    }

    ghost predicate Holds()
      requires max > 0 && start + max <= buf.Length
      reads this, buf
    {
      var n := Min(|text|, max - 1);
      (forall i :: start <= i < start + n ==> buf[i] == text[i - start]) && buf[start + n] == 0
    }

    /** The bytes that printing the text has written: the part of it that is kept, and the
        zero byte. */
    ghost predicate Touched(i: nat)
      reads this
    {
      max > 0 && start <= i <= start + Min(|text|, max - 1)
    }

    constructor (buf: array<byte>, start: nat, max: nat)
      requires start + max <= buf.Length
      ensures Valid() && text == []
      ensures this.buf == buf && this.start == start && this.max == max
    {
      this.buf, this.start, this.max := buf, start, max;
      pos, rem, text := start, max, [];
    }

    /** vsnprintf of an already formatted text. */
    method Vsnprintf(at: nat, amt: nat, piece: seq<byte>)
      requires at + amt <= buf.Length
      modifies buf
      ensures amt > 0 ==>
                var n := Min(|piece|, amt - 1);
                (forall i :: at <= i < at + n ==> buf[i] == piece[i - at]) && buf[at + n] == 0
      ensures forall i :: 0 <= i < buf.Length && (amt == 0 || !(at <= i <= at + Min(|piece|, amt - 1))) ==>
                buf[i] == old(buf[i])
    {
      if amt > 0 {
        var n := Min(|piece|, amt - 1);
        forall i | at <= i < at + n {
          buf[i] := piece[i - at];
        }
        buf[at + n] := 0;
      }
    }

    /** fwdprintf: the length of the text is returned even if it was cut. */
    method FwdPrintf(piece: seq<byte>) returns (res: nat)
      requires Valid()
      modifies this`pos, this`rem, this`text, buf
      ensures Valid() && text == old(text) + piece && res == |piece|
      ensures max > 0 ==> Holds()
      ensures forall i :: 0 <= i < buf.Length && !Touched(i) ==> buf[i] == old(buf[i])
    {
      var amt := rem;
      ghost var done, at := |text|, pos;
      Vsnprintf(pos, amt, piece);
      res := |piece|;
      var sub := if amt < res then amt else res;
      rem := amt - sub;
      pos := pos + sub;
      text := text + piece;
      if done < max {
        assert at == start + done;
        forall i | start <= i < start + Min(|text|, max - 1)
          ensures buf[i] == text[i - start]
        {
          assert i < at ==> buf[i] == old(buf[i]);
        }
      }
    }
  }
}
