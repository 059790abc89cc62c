/** Machine bytes, fixed-width integers and byte order.

    A C value of `n` bytes is modelled by its unsigned value; what lies in memory is the
    little- or big-endian byte sequence of the host that runs the code. */
module Bytes {

  type byte = x: int | 0 <= x < 0x100
  type uint16 = x: int | 0 <= x < 0x1_0000
  type uint32 = x: int | 0 <= x < 0x1_0000_0000
  type uint64 = x: int | 0 <= x < 0x1_0000_0000_0000_0000
  type int8 = x: int | -0x80 <= x < 0x80
  type int16 = x: int | -0x8000 <= x < 0x8000
  type int32 = x: int | -0x8000_0000 <= x < 0x8000_0000
  type int64 = x: int | -0x8000_0000_0000_0000 <= x < 0x8000_0000_0000_0000

  /** 256 to the power n: the number of values of an n-byte integer. */
  function Pow256(n: nat): (p: nat)
    ensures p >= 1
  {
    if n == 0 then 1 else 256 * Pow256(n - 1)
  }

  /** The number of values of a field of 0, 1, 2, 4 or 8 bytes. */
  function Limit(w: nat): (n: nat)
    requires w == 0 || w == 1 || w == 2 || w == 4 || w == 8
  {
    if w == 0 then 1
    else if w == 1 then 0x100
    else if w == 2 then 0x1_0000
    else if w == 4 then 0x1_0000_0000
    else 0x1_0000_0000_0000_0000
  }

  lemma LimitIsPower(w: nat)
    requires w == 0 || w == 1 || w == 2 || w == 4 || w == 8
    ensures Limit(w) == Pow256(w)
  {
    assert Pow256(1) == 256 * Pow256(0);
    assert Pow256(2) == 256 * Pow256(1);
    assert Pow256(4) == 256 * Pow256(3) == 65536 * Pow256(2);
    assert Pow256(6) == 256 * Pow256(5) == 65536 * Pow256(4);
    assert Pow256(8) == 256 * Pow256(7) == 65536 * Pow256(6);
  }

  /** The n bytes of x, most significant first. */
  function BigEndian(x: nat, n: nat): (s: seq<byte>)
    requires x < Pow256(n)
    ensures |s| == n
  {
    if n == 0 then [] else BigEndian(x / 256, n - 1) + [x % 256]
  }

  /** The value of a byte sequence, most significant byte first. */
  function FromBigEndian(s: seq<byte>): (x: nat)
    ensures x < Pow256(|s|)
  {
    if s == [] then 0 else FromBigEndian(s[..|s| - 1]) * 256 + s[|s| - 1]
  }

  lemma {:induction false} BigEndianRoundTrip(x: nat, n: nat)
    requires x < Pow256(n)
    ensures FromBigEndian(BigEndian(x, n)) == x
  {
    if n > 0 {
      BigEndianRoundTrip(x / 256, n - 1);
      assert BigEndian(x, n)[..n - 1] == BigEndian(x / 256, n - 1);
    }
  }

  lemma {:induction false} FromBigEndianRoundTrip(s: seq<byte>)
    ensures BigEndian(FromBigEndian(s), |s|) == s
  {
    if s != [] {
      FromBigEndianRoundTrip(s[..|s| - 1]);
      assert s == s[..|s| - 1] + [s[|s| - 1]];
    }
  }

  lemma DivideTwice(x: nat, b: nat, p: nat)
    requires b > 0 && p > 0
    ensures b * p > 0 && x / b / p == x / (b * p)
  {
    var y := x / b;
    Nested(x, b, p, y, x % b, y / p, y % p);
    QuotientIs(x, b * p, y / p, b * (y % p) + x % b);
  }

  lemma Nested(x: nat, b: nat, p: nat, y: nat, e: nat, q: nat, r: nat)
    requires x == b * y + e && e < b && y == p * q + r && r < p
    ensures 0 <= b * r + e < b * p && x == (b * p) * q + (b * r + e)
  {
    Distribute(b, p, q, r);
    assert b * (r + 1) <= b * p;
  }

  lemma Distribute(b: nat, p: nat, q: nat, r: nat)
    ensures b * (p * q + r) == (b * p) * q + b * r
  {
  }

  lemma QuotientIs(x: nat, d: nat, q: nat, r: nat)
    requires 0 <= r < d && x == d * q + r
    ensures x / d == q
  {
    var k: int := x / d - q;
    assert d * k == d * (x / d) - d * q == r - x % d;
    assert k >= 1 ==> d * k >= d;
    assert k <= -1 ==> d * k + d <= 0;
  }

  /** What the bytes are: the digits of x in base 256, by their place. */
  lemma {:induction false} PlaceValue(x: nat, n: nat, i: nat)
    requires x < Pow256(n) && i < n
    ensures BigEndian(x, n)[i] == x / Pow256(n - 1 - i) % 256
  {
    if i < n - 1 {
      PlaceValue(x / 256, n - 1, i);
      DivideTwice(x, 256, Pow256(n - 2 - i));
    }
  }

  // ---------------------------------------------------------------- host byte order

  function Reversed<T>(s: seq<T>): (r: seq<T>)
    ensures |r| == |s|
    ensures forall k :: 0 <= k < |s| ==> r[k] == s[|s| - 1 - k]
  {
    if s == [] then [] else Reversed(s[1..]) + [s[0]]
  }

  /** The bytes that an n-byte C variable holding x occupies in memory. */
  function InMemory(x: nat, n: nat, bigEndianHost: bool): (s: seq<byte>)
    requires x < Pow256(n)
    ensures |s| == n
  {
    if bigEndianHost then BigEndian(x, n) else Reversed(BigEndian(x, n))
  }

  /** On a little-endian host the byte at index i has the weight 256 to the power i. */
  lemma LittleEndian(x: nat, n: nat, i: nat)
    requires x < Pow256(n) && i < n
    ensures InMemory(x, n, false)[i] == x / Pow256(i) % 256
    ensures InMemory(x, n, true)[n - 1 - i] == x / Pow256(i) % 256
  {
    PlaceValue(x, n, n - 1 - i);
  }

  /** The value a C variable has when its memory holds s. */
  function FromMemory(s: seq<byte>, bigEndianHost: bool): (x: nat)
    ensures x < Pow256(|s|)
  {
    FromBigEndian(if bigEndianHost then s else Reversed(s))
  }

  /** be16, be32, be64, befloat and bedouble: the in-place exchange of the bytes of a
      variable, skipped on a big-endian host. */
  method ToNetworkOrder(b: array<byte>, bigEndianHost: bool)
    requires b.Length == 2 || b.Length == 4 || b.Length == 8
    modifies b
    ensures b[..] == if bigEndianHost then old(b[..]) else Reversed(old(b[..]))
  {
    if !bigEndianHost {
      var last := b.Length - 1;
      b[0], b[last] := b[last], b[0];
      if 4 <= b.Length {
        b[1], b[last - 1] := b[last - 1], b[1];
      }
      if 8 <= b.Length {
        b[2], b[last - 2] := b[last - 2], b[2];
        b[3], b[last - 3] := b[last - 3], b[3];
      }
    }
  }

  /** On either kind of host, a variable that went through the exchange occupies memory as
      the big-endian bytes of its original value, which is what the writers copy out. */
  lemma NetworkOrderOut(x: nat, n: nat, bigEndianHost: bool)
    requires x < Pow256(n)
    ensures var m := InMemory(x, n, bigEndianHost);
            (if bigEndianHost then m else Reversed(m)) == BigEndian(x, n)
  {
    var s := BigEndian(x, n);
    assert Reversed(Reversed(s)) == s;
  }

  /** And bytes read from the wire into a variable have, after the exchange, their
      big-endian value. */
  lemma NetworkOrderIn(wire: seq<byte>, bigEndianHost: bool)
    ensures FromMemory(if bigEndianHost then wire else Reversed(wire), bigEndianHost) == FromBigEndian(wire)
  {
    assert Reversed(Reversed(wire)) == wire;
  }

  // ---------------------------------------------------------------- two's complement

  /** The unsigned image of a signed value, and back. */
  function Unsigned(d: int, modulus: int): (u: nat)
    requires modulus > 0 && modulus % 2 == 0
    requires -modulus / 2 <= d < modulus / 2
    ensures u < modulus && (u == d || u == d + modulus)
  {
    if d < 0 then d + modulus else d
  }

  function Signed(u: nat, modulus: int): (d: int)
    requires u < modulus && modulus % 2 == 0
    ensures -modulus / 2 <= d < modulus / 2 && (d == u || d == u - modulus)
    ensures Unsigned(d, modulus) == u
  {
    if u < modulus / 2 then u else u - modulus
  }

  // ---------------------------------------------------------------- readers

  /** The bytes of a text in ASCII. */
  function Ascii(text: string): (s: seq<byte>)
    ensures |s| == |text|
  {
    seq(|text|, i requires 0 <= i < |text| => text[i] as int % 0x100)
  }

  /** A value at the front of an input, and the input behind it. */
  datatype Parsed<+T> = Bad | Good(value: T, rest: seq<byte>)

  function Min(a: nat, b: nat): nat {
    if a < b then a else b
  }
}
