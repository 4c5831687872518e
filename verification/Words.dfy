/**
 Machine words. The codec works on `uint32_t`, `uint64_t` and their signed
 counterparts; here a word is a mathematical integer together with the width it
 is stored in, and every operation that can leave the range wraps explicitly.
 */
module Words {

  datatype Width = W32 | W64 {

    function Modulus(): int {
      match this
      case W32 => 0x1_0000_0000
      case W64 => 0x1_0000_0000_0000_0000
    }

    function Half(): int {
      match this
      case W32 => 0x8000_0000
      case W64 => 0x8000_0000_0000_0000
    }

    /** Conversion of any integer to an unsigned word: reduction modulo 2^32 or 2^64. */
    function Wrap(x: int): (r: nat)
      ensures r < Modulus()
    {
      match this
      case W32 => x % 0x1_0000_0000
      case W64 => x % 0x1_0000_0000_0000_0000
    }

    predicate Unsigned(x: int) { 0 <= x < Modulus() }

    predicate Signed(x: int) { -Half() <= x < Half() }

    /** The two's complement reading of an unsigned word. */
    function ToSigned(u: int): (d: int)
      requires Unsigned(u)
      ensures Signed(d)
    {
      if u < Half() then u else u - Modulus()
    }

    /** Exclusive or with a word that is either all zeros or all ones. */
    function XorMask(u: nat, ones: bool): (r: nat)
      requires Unsigned(u)
      ensures Unsigned(r)
    {
      if ones then Modulus() - 1 - u else u
    }

    /** `(d << 1) ^ (d >> 31)`, or `>> 63`: the arithmetic right shift is a mask of sign bits. */
    function ZigZag(d: int): (u: nat)
      requires Signed(d)
      ensures Unsigned(u)
    {
      XorMask(Wrap(2 * d), d < 0)
    }

    /** `(u >> 1) ^ -(u & 1)`, still as an unsigned word. */
    function UnZigZagWord(u: nat): (r: nat)
      requires Unsigned(u)
      ensures Unsigned(r)
    {
      XorMask(u / 2, u % 2 == 1)
    }

    function UnZigZag(u: nat): (d: int)
      requires Unsigned(u)
      ensures Signed(d)
    {
      ToSigned(UnZigZagWord(u))
    }
  }

  ghost predicate AllUnsigned(w: Width, s: seq<nat>) {
    forall i :: 0 <= i < |s| ==> w.Unsigned(s[i])
  }

  ghost predicate AllSigned(w: Width, s: seq<int>) {
    forall i :: 0 <= i < |s| ==> w.Signed(s[i])
  }

  lemma ZigZagForms(w: Width, d: int)
    requires w.Signed(d)
    ensures w.ZigZag(d) == if d >= 0 then 2 * d else -2 * d - 1
  {
    match w
    case W32 => assert w.Wrap(2 * d) == if d >= 0 then 2 * d else 2 * d + 0x1_0000_0000;
    case W64 => assert w.Wrap(2 * d) == if d >= 0 then 2 * d else 2 * d + 0x1_0000_0000_0000_0000;
  }

  lemma UnZigZagForms(w: Width, u: nat)
    requires w.Unsigned(u)
    ensures w.UnZigZag(u) == if u % 2 == 0 then u / 2 else -(u / 2) - 1
  {
    match w
    case W32 =>
    case W64 =>
  }

  /** Zig-zag is a bijection between signed and unsigned words; small magnitudes get small codes. */
  lemma ZigZagBijection(w: Width, d: int, u: nat)
    requires w.Signed(d) && w.Unsigned(u)
    ensures w.UnZigZag(w.ZigZag(d)) == d
    ensures w.ZigZag(w.UnZigZag(u)) == u
    ensures w.ZigZag(d) == if d >= 0 then 2 * d else -2 * d - 1
  {
    hide Width.ZigZag, Width.UnZigZag;
    ZigZagForms(w, d);
    ZigZagForms(w, w.UnZigZag(u));
    UnZigZagForms(w, u);
    UnZigZagForms(w, w.ZigZag(d));
  }

  /** A signed word survives the trip through its unsigned pattern. */
  lemma SignedPattern(w: Width, x: int)
    requires w.Signed(x)
    ensures w.ToSigned(w.Wrap(x)) == x
  {
    match w
    case W32 =>
    case W64 =>
  }

  /** Wrapping changes a number by a multiple of the modulus, and such a multiple does not matter. */
  lemma WrapCongruence(w: Width, x: int) returns (k: int)
    ensures w.Wrap(x) == x + k * w.Modulus()
    ensures forall y :: w.Wrap(y + k * w.Modulus()) == w.Wrap(y)
  {
    match w
    case W32 =>
      k := -(x / 0x1_0000_0000);
    case W64 =>
      k := -(x / 0x1_0000_0000_0000_0000);
  }

  /** Adding back a wrapped difference restores the minuend: `base + (x - base) == x` in wrap-around arithmetic. */
  lemma WrapCancels(w: Width, base: int, x: int)
    ensures w.Wrap(base + w.Wrap(x - base)) == w.Wrap(x)
    ensures w.Wrap(base + w.ToSigned(w.Wrap(x - base))) == w.Wrap(x)
  {
    var k := WrapCongruence(w, x - base);
    WrapPeriod(w, x + k * w.Modulus());
  }

  lemma WrapPeriod(w: Width, x: int)
    ensures w.Wrap(x - w.Modulus()) == w.Wrap(x)
  {
    match w
    case W32 =>
    case W64 =>
  }

  lemma WrapSmall(w: Width, x: int)
    requires w.Unsigned(x)
    ensures w.Wrap(x) == x
  {
    match w
    case W32 =>
    case W64 =>
  }

  // The bit expressions of the encoder and the decoder, on real words, are mutually inverse.

  function EncodeBits32(x: bv32): bv32 { (x << 1) ^ (if x & 0x8000_0000 != 0 then 0xFFFF_FFFF else 0) }

  function DecodeBits32(u: bv32): bv32 { (u >> 1) ^ (0 - (u & 1)) }

  lemma DecodeEven32(u: bv32)
    requires u & 1 == 0
    ensures DecodeBits32(u) == u >> 1
  {
  }

  lemma DecodeOdd32(u: bv32)
    requires u & 1 == 1
    ensures DecodeBits32(u) == (u >> 1) ^ 0xFFFF_FFFF
  {
    assert 0 - (u & 1) == 0xFFFF_FFFF;
  }

  lemma ShiftBack32(x: bv32)
    requires x & 0x8000_0000 == 0
    ensures ((x << 1) >> 1) == x && (x << 1) & 1 == 0
  {
  }

  lemma FlipBack32(x: bv32)
    requires x & 0x8000_0000 != 0
    ensures (((x << 1) ^ 0xFFFF_FFFF) >> 1) ^ 0xFFFF_FFFF == x && ((x << 1) ^ 0xFFFF_FFFF) & 1 == 1
  {
  }

  lemma PositiveBits32(x: bv32)
    requires x & 0x8000_0000 == 0
    ensures DecodeBits32(x << 1) == x
  {
    hide DecodeBits32;
    ShiftBack32(x);
    DecodeEven32(x << 1);
  }

  lemma NegativeBits32(x: bv32)
    requires x & 0x8000_0000 != 0
    ensures DecodeBits32((x << 1) ^ 0xFFFF_FFFF) == x
  {
    hide DecodeBits32;
    FlipBack32(x);
    DecodeOdd32((x << 1) ^ 0xFFFF_FFFF);
  }

  lemma EncodedPositive32(x: bv32)
    requires x & 0x8000_0000 == 0
    ensures EncodeBits32(x) == x << 1
  {
  }

  lemma EncodedNegative32(x: bv32)
    requires x & 0x8000_0000 != 0
    ensures EncodeBits32(x) == (x << 1) ^ 0xFFFF_FFFF
  {
  }

  lemma ZigZagBits32(x: bv32)
    ensures DecodeBits32(EncodeBits32(x)) == x
  {
    hide *;
    if x & 0x8000_0000 == 0 {
      EncodedPositive32(x);
      PositiveBits32(x);
    } else {
      EncodedNegative32(x);
      NegativeBits32(x);
    }
  }

  function EncodeBits64(x: bv64): bv64 {
    (x << 1) ^ (if x & 0x8000_0000_0000_0000 != 0 then 0xFFFF_FFFF_FFFF_FFFF else 0)
  }

  function DecodeBits64(u: bv64): bv64 { (u >> 1) ^ (0 - (u & 1)) }

  lemma DecodeEven64(u: bv64)
    requires u & 1 == 0
    ensures DecodeBits64(u) == u >> 1
  {
  }

  lemma DecodeOdd64(u: bv64)
    requires u & 1 == 1
    ensures DecodeBits64(u) == (u >> 1) ^ 0xFFFF_FFFF_FFFF_FFFF
  {
    assert 0 - (u & 1) == 0xFFFF_FFFF_FFFF_FFFF;
  }

  lemma ShiftBack64(x: bv64)
    requires x & 0x8000_0000_0000_0000 == 0
    ensures ((x << 1) >> 1) == x && (x << 1) & 1 == 0
  {
  }

  lemma FlipBack64(x: bv64)
    requires x & 0x8000_0000_0000_0000 != 0
    ensures (((x << 1) ^ 0xFFFF_FFFF_FFFF_FFFF) >> 1) ^ 0xFFFF_FFFF_FFFF_FFFF == x
            && ((x << 1) ^ 0xFFFF_FFFF_FFFF_FFFF) & 1 == 1
  {
  }

  lemma PositiveBits64(x: bv64)
    requires x & 0x8000_0000_0000_0000 == 0
    ensures DecodeBits64(x << 1) == x
  {
    hide DecodeBits64;
    ShiftBack64(x);
    DecodeEven64(x << 1);
  }

  lemma NegativeBits64(x: bv64)
    requires x & 0x8000_0000_0000_0000 != 0
    ensures DecodeBits64((x << 1) ^ 0xFFFF_FFFF_FFFF_FFFF) == x
  {
    hide DecodeBits64;
    FlipBack64(x);
    DecodeOdd64((x << 1) ^ 0xFFFF_FFFF_FFFF_FFFF);
  }

  lemma EncodedPositive64(x: bv64)
    requires x & 0x8000_0000_0000_0000 == 0
    ensures EncodeBits64(x) == x << 1
  {
  }

  lemma EncodedNegative64(x: bv64)
    requires x & 0x8000_0000_0000_0000 != 0
    ensures EncodeBits64(x) == (x << 1) ^ 0xFFFF_FFFF_FFFF_FFFF
  {
  }

  lemma ZigZagBits64(x: bv64)
    ensures DecodeBits64(EncodeBits64(x)) == x
  {
    hide *;
    if x & 0x8000_0000_0000_0000 == 0 {
      EncodedPositive64(x);
      PositiveBits64(x);
    } else {
      EncodedNegative64(x);
      NegativeBits64(x);
    }
  }

  // ---------------------------------------------------------------------------
  // Bit fields of unbounded naturals, one bit at a time
  // ---------------------------------------------------------------------------

  function ShiftLeft(x: nat, k: nat): nat { if k == 0 then x else 2 * ShiftLeft(x, k - 1) }

  function ShiftRight(x: nat, k: nat): nat { if k == 0 then x else ShiftRight(x / 2, k - 1) }

  /** `x & ((1 << k) - 1)`. */
  function LowBits(x: nat, k: nat): nat { if k == 0 then 0 else x % 2 + 2 * LowBits(x / 2, k - 1) }

  lemma {:induction false} ShiftLeftPositive(k: nat)
    ensures ShiftLeft(1, k) > 0
  {
    if k > 0 { ShiftLeftPositive(k - 1); }
  }

  lemma {:induction false} ShiftLeftStrict(a: nat, b: nat, k: nat)
    requires a < b
    ensures ShiftLeft(a, k) + ShiftLeft(1, k) <= ShiftLeft(b, k)
  {
    if k > 0 { ShiftLeftStrict(a, b, k - 1); }
  }

  lemma {:induction false} ShiftLeftTwice(x: nat, a: nat, b: nat)
    ensures ShiftLeft(ShiftLeft(x, a), b) == ShiftLeft(x, a + b)
  {
    if b > 0 { ShiftLeftTwice(x, a, b - 1); }
  }

  lemma {:induction false} ShiftRightTwice(x: nat, a: nat, b: nat)
    ensures ShiftRight(ShiftRight(x, a), b) == ShiftRight(x, a + b)
  {
    if a > 0 { ShiftRightTwice(x / 2, a - 1, b); }
  }

  lemma ShiftLeftByte(x: nat)
    ensures ShiftLeft(x, 8) == 0x100 * x
  {
    assert ShiftLeft(x, 1) == 2 * x;
    assert ShiftLeft(x, 2) == 4 * x;
    assert ShiftLeft(x, 3) == 8 * x;
    assert ShiftLeft(x, 4) == 16 * x;
    assert ShiftLeft(x, 5) == 32 * x;
    assert ShiftLeft(x, 6) == 64 * x;
    assert ShiftLeft(x, 7) == 128 * x;
  }

  lemma ShiftLeftHalf()
    ensures ShiftLeft(1, 31) == W32.Half() && ShiftLeft(1, 63) == W64.Half()
  {
    assert ShiftLeft(1, 1) == 2;
    ShiftLeftByte(1);
    ShiftLeftByte(0x100);
    ShiftLeftByte(0x1_0000);
    ShiftLeftByte(0x100_0000);
    ShiftLeftByte(0x1_0000_0000);
    ShiftLeftByte(0x100_0000_0000);
    ShiftLeftByte(0x1_0000_0000_0000);
    ShiftLeftTwice(1, 8, 8);
    ShiftLeftTwice(1, 16, 8);
    ShiftLeftTwice(1, 24, 8);
    ShiftLeftTwice(1, 32, 8);
    ShiftLeftTwice(1, 40, 8);
    ShiftLeftTwice(1, 48, 8);
    ShiftLeftTwice(1, 56, 8);
    assert ShiftLeft(1, 32) == 2 * ShiftLeft(1, 31);
    assert ShiftLeft(1, 64) == 2 * ShiftLeft(1, 63);
  }

  /** Below a field of `k` bits and a higher field, a tag bit: each part reads back. */
  lemma {:induction false} FieldsSeparate(low: nat, high: nat, k: nat)
    requires low < ShiftLeft(1, k)
    ensures LowBits(low + ShiftLeft(high, k), k) == low
    ensures ShiftRight(low + ShiftLeft(high, k), k) == high
    ensures (2 * low + 1 + ShiftLeft(high, k + 1)) / 2 == low + ShiftLeft(high, k)
    ensures ShiftRight(2 * low + 1 + ShiftLeft(high, k + 1), k + 1) == high
  {
    if k > 0 {
      FieldsSeparate(low / 2, high, k - 1);
    }
  }
}
