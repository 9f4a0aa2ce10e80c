/**
 * Bytes and the little-endian unsigned 32-bit words that the ctypes structures,
 * the `struct` module ("=I") and the C client (`int32_t` through `memcpy`) use.
 * The model fixes the byte order to little-endian.
 */
module Bytes {

  /** An unsigned byte (ctypes.c_uint8, one element of `bytes`/`bytearray`). */
  type Byte = x: int | 0 <= x < 256

  /** An unsigned 32-bit value (ctypes.c_uint32, struct "=I"). */
  type U32 = x: int | 0 <= x < 0x1_0000_0000

  /** `n` zero bytes, as a freshly allocated ctypes array or `bytearray(n)` holds. */
  function Zeros(n: nat): (r: seq<Byte>)
    ensures |r| == n
    ensures forall i :: 0 <= i < n ==> r[i] == 0
  {
    seq(n, _ => 0)
  }

  /** The four bytes of `v`, least significant first. */
  function LE32(v: U32): (r: seq<Byte>)
  {
    [v % 256, (v / 256) % 256, (v / 65536) % 256, v / 16777216]
  }

  /** The unsigned value of four little-endian bytes. */
  function FromLE32(b: seq<Byte>): (v: U32)
    requires |b| == 4
  {
    b[0] as int + 256 * (b[1] as int) + 65536 * (b[2] as int) + 16777216 * (b[3] as int)
  }

  /** Decoding the encoding of a word gives the word back. */
  lemma LE32RoundTrip(v: U32)
    ensures |LE32(v)| == 4 && FromLE32(LE32(v)) == v
  {
    assert v / 65536 == (v / 256) / 256;
    assert v / 16777216 == (v / 65536) / 256;
  }

  /** Encoding the value of four bytes gives the bytes back. */
  lemma FromLE32RoundTrip(b: seq<Byte>)
    requires |b| == 4
    ensures LE32(FromLE32(b)) == b
  {
    var v := FromLE32(b);
    var b0, b1, b2, b3 := b[0] as int, b[1] as int, b[2] as int, b[3] as int;
    assert v == b0 + 256 * (b1 + 256 * (b2 + 256 * b3));
    assert v % 256 == b0 && v / 256 == b1 + 256 * (b2 + 256 * b3);
    var v1 := v / 256;
    assert v1 % 256 == b1 && v1 / 256 == b2 + 256 * b3;
    var v2 := v1 / 256;
    assert v2 % 256 == b2 && v2 / 256 == b3;
    assert v / 65536 == v2;
    assert v / 16777216 == v2 / 256;
    var r := LE32(v);
    assert r[0] == b[0] && r[1] == b[1] && r[2] == b[2] && r[3] == b[3];
  }

  /** The signed reading of four little-endian bytes (C `int32_t`, two's complement). */
  function FromLE32Signed(b: seq<Byte>): (v: int)
    requires |b| == 4
    ensures -0x8000_0000 <= v < 0x8000_0000
    ensures v % 0x1_0000_0000 == FromLE32(b)
  {
    var u := FromLE32(b);
    if u < 0x8000_0000 then u else u - 0x1_0000_0000
  }

  /** The little-endian bytes of a sequence of words, one word after the other. */
  function LE32s(ws: seq<U32>): (r: seq<Byte>)
    ensures |r| == 4 * |ws|
  {
    if ws == [] then [] else LE32(ws[0]) + LE32s(ws[1..])
  }

  /** The words of a byte sequence read four bytes at a time. */
  function FromLE32s(b: seq<Byte>): (ws: seq<U32>)
    requires |b| % 4 == 0
    ensures |ws| == |b| / 4
  {
    if b == [] then [] else [FromLE32(b[..4])] + FromLE32s(b[4..])
  }

  /** Word `k` of an encoded word sequence sits at bytes 4k .. 4k+3. */
  lemma {:induction false} LE32sAt(ws: seq<U32>, k: nat)
    requires k < |ws|
    ensures LE32s(ws)[4 * k .. 4 * k + 4] == LE32(ws[k])
  {
    if k > 0 {
      LE32sAt(ws[1..], k - 1);
      assert LE32s(ws) == LE32(ws[0]) + LE32s(ws[1..]);
      assert LE32s(ws)[4 * k .. 4 * k + 4] == LE32s(ws[1..])[4 * (k - 1) .. 4 * (k - 1) + 4];
    }
  }

  /** Reading back encoded words gives the words. */
  lemma {:induction false} LE32sRoundTrip(ws: seq<U32>)
    ensures FromLE32s(LE32s(ws)) == ws
  {
    if ws != [] {
      var b := LE32s(ws);
      assert b[..4] == LE32(ws[0]);
      assert b[4..] == LE32s(ws[1..]);
      LE32RoundTrip(ws[0]);
      LE32sRoundTrip(ws[1..]);
    }
  }

  /** Encoding words read from bytes gives the bytes back. */
  lemma {:induction false} FromLE32sRoundTrip(b: seq<Byte>)
    requires |b| % 4 == 0
    ensures LE32s(FromLE32s(b)) == b
  {
    if b != [] {
      FromLE32RoundTrip(b[..4]);
      FromLE32sRoundTrip(b[4..]);
      assert b == b[..4] + b[4..];
    }
  }

  /** Bitwise XOR of two naturals (Python `^` on non-negative ints), defined bit by bit. */
  function XorNat(a: nat, b: nat): nat
    decreases a + b
  {
    if a == 0 then b
    else if b == 0 then a
    else 2 * XorNat(a / 2, b / 2) + (if a % 2 == b % 2 then 0 else 1)
  }

  function Pow2(k: nat): (r: nat)
    ensures r >= 1
  {
    if k == 0 then 1 else 2 * Pow2(k - 1)
  }

  /** XOR never sets a bit above the highest bit of its arguments. */
  lemma {:induction false} XorNatBound(a: nat, b: nat, k: nat)
    requires a < Pow2(k) && b < Pow2(k)
    ensures XorNat(a, b) < Pow2(k)
    decreases a + b
  {
    if a != 0 && b != 0 {
      XorNatBound(a / 2, b / 2, k - 1);
    }
  }

  lemma {:induction false} XorNatComm(a: nat, b: nat)
    ensures XorNat(a, b) == XorNat(b, a)
    decreases a + b
  {
    if a != 0 && b != 0 {
      XorNatComm(a / 2, b / 2);
    }
  }

  lemma {:induction false} XorNatSelf(a: nat)
    ensures XorNat(a, a) == 0
  {
    if a != 0 {
      XorNatSelf(a / 2);
    }
  }

  lemma XorNatZero(a: nat)
    ensures XorNat(0, a) == a && XorNat(a, 0) == a
  {
  }

  /** The bit decomposition of XorNat, valid also when an argument is zero. */
  lemma XorNatStep(a: nat, b: nat)
    ensures XorNat(a, b) == 2 * XorNat(a / 2, b / 2) + (if a % 2 == b % 2 then 0 else 1)
  {
    if a == 0 {
      XorNatZero(b / 2);
    } else if b == 0 {
      XorNatZero(a / 2);
    }
  }

  lemma {:induction false} XorNatAssoc(a: nat, b: nat, c: nat)
    ensures XorNat(XorNat(a, b), c) == XorNat(a, XorNat(b, c))
    decreases a + b + c
  {
    if a == 0 || b == 0 || c == 0 {
      XorNatZero(a);
      XorNatZero(b);
      XorNatZero(c);
      XorNatZero(XorNat(a, b));
      XorNatZero(XorNat(b, c));
    } else {
      XorNatStep(a, b);
      XorNatStep(b, c);
      var ab, bc := XorNat(a, b), XorNat(b, c);
      XorNatStep(ab, c);
      XorNatStep(a, bc);
      assert ab / 2 == XorNat(a / 2, b / 2);
      assert bc / 2 == XorNat(b / 2, c / 2);
      XorNatAssoc(a / 2, b / 2, c / 2);
    }
  }

  /** Bitwise XOR of two bytes. */
  function XorByte(a: Byte, b: Byte): Byte
  {
    assert Pow2(8) == 256;
    XorNatBound(a, b, 8);
    XorNat(a, b)
  }

  /** XOR on bytes is associative, commutative, has 0 as identity and cancels itself. */
  lemma XorByteLaws(a: Byte, b: Byte, c: Byte)
    ensures XorByte(XorByte(a, b), c) == XorByte(a, XorByte(b, c))
    ensures XorByte(a, b) == XorByte(b, a)
    ensures XorByte(a, 0) == a && XorByte(a, a) == 0
  {
    XorNatAssoc(a, b, c);
    XorNatComm(a, b);
    XorNatZero(a);
    XorNatSelf(a);
  }

  /** XOR of all bytes, folded from the first to the last (the order of a `for i in range` loop). */
  function Xor(s: seq<Byte>): Byte
  {
    if s == [] then 0 else XorByte(Xor(s[..|s| - 1]), s[|s| - 1])
  }

  /** The XOR of a concatenation is the XOR of the two XORs. */
  lemma {:induction false} XorAppend(a: seq<Byte>, b: seq<Byte>)
    ensures Xor(a + b) == XorByte(Xor(a), Xor(b))
  {
    if b != [] {
      var b' := b[..|b| - 1];
      assert (a + b)[..|a + b| - 1] == a + b';
      XorAppend(a, b');
      XorByteLaws(Xor(a), Xor(b'), b[|b| - 1]);
    } else {
      assert a + b == a;
      XorByteLaws(Xor(a), 0, 0);
    }
  }

  /** The XOR of zero bytes is zero. */
  lemma {:induction false} XorZeros(n: nat)
    ensures Xor(Zeros(n)) == 0
  {
    if n > 0 {
      assert Zeros(n)[..n - 1] == Zeros(n - 1);
      XorZeros(n - 1);
      XorByteLaws(0, 0, 0);
    }
  }

  /** The XOR of a single byte is that byte. */
  lemma XorSingle(x: Byte)
    ensures Xor([x]) == x
  {
    assert [x][..0] == [];
    XorByteLaws(x, 0, 0);
    XorByteLaws(0, x, 0);
  }

  /** Replacing byte `i` by `x` changes the XOR by exactly `s[i] ^ x`. */
  lemma XorUpdate(s: seq<Byte>, i: nat, x: Byte)
    requires i < |s|
    ensures Xor(s[i := x]) == XorByte(XorByte(Xor(s), s[i]), x)
  {
    var pre, post := s[..i], s[i + 1..];
    assert s == pre + [s[i]] + post;
    assert s[i := x] == pre + [x] + post;
    XorAppend(pre + [s[i]], post);
    XorAppend(pre + [x], post);
    XorAppend(pre, [s[i]]);
    XorAppend(pre, [x]);
    XorSingle(s[i]);
    XorSingle(x);
    var p, q, c := Xor(pre), Xor(post), s[i];
    // (p^c^q)^c^x == (p^x)^q
    XorByteLaws(p, c, q);
    XorByteLaws(c, q, 0);
    XorByteLaws(p, XorByte(c, q), c);
    XorByteLaws(XorByte(c, q), c, 0);
    XorByteLaws(q, c, c);
    XorByteLaws(c, c, 0);
    XorByteLaws(q, 0, 0);
    XorByteLaws(p, q, x);
    XorByteLaws(q, x, 0);
    XorByteLaws(p, x, q);
  }

  /** Consequently, changing one byte always changes the XOR. */
  lemma XorDetectsOneByteChange(s: seq<Byte>, i: nat, x: Byte)
    requires i < |s| && x != s[i]
    ensures Xor(s[i := x]) != Xor(s)
  {
    XorUpdate(s, i, x);
    var t, c := Xor(s), s[i];
    XorByteLaws(t, c, x);
    var d := XorByte(c, x);
    // d is not 0: (c ^ x) ^ x == c, while 0 ^ x == x != c
    XorByteLaws(c, x, x);
    XorByteLaws(x, 0, 0);
    XorByteLaws(0, x, 0);
    assert d != 0;
    // t ^ (t ^ d) == d, so t ^ d != t
    XorByteLaws(t, t, d);
    XorByteLaws(d, 0, 0);
    XorByteLaws(0, d, 0);
  }
}
