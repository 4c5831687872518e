/** Byte buffers: variable-length integers, fixed-width little-endian integers, and list packers. */
module Bytes {
  import opened Words
  import Sequences

  type byte = x: nat | x < 256

  /** A read at an offset: the value and the offset after it, or no value when the buffer ends too early. */
  datatype Parsed<+T> = Parsed(value: T, next: nat) | Truncated

  /** `chunk` is what the buffer holds at `offset`. */
  ghost predicate At(buffer: seq<byte>, offset: nat, chunk: seq<byte>) {
    offset + |chunk| <= |buffer| && buffer[offset..offset + |chunk|] == chunk
  }

  lemma AtSplit(buffer: seq<byte>, offset: nat, a: seq<byte>, b: seq<byte>)
    requires At(buffer, offset, a + b)
    ensures At(buffer, offset, a) && At(buffer, offset + |a|, b)
  {
    var both := buffer[offset..offset + |a + b|];
    assert both[..|a|] == a && both[|a|..] == b;
  }

  lemma AtStart(data: seq<byte>)
    ensures At(data, 0, data)
  {
  }

  // ---------------------------------------------------------------------------
  // Seven-bit groups with a continuation bit
  // ---------------------------------------------------------------------------

  function VByte(v: nat): (s: seq<byte>)
    ensures s != []
  {
    if v < 128 then [v] else [128 + v % 128] + VByte(v / 128)
  }

  function ReadVByte(buffer: seq<byte>, offset: nat): (r: Parsed<nat>)
    ensures r.Parsed? ==> offset < r.next <= |buffer|
    decreases |buffer| - offset
  {
    if offset >= |buffer| then Truncated
    else if buffer[offset] < 128 then Parsed(buffer[offset], offset + 1)
    else match ReadVByte(buffer, offset + 1)
      case Truncated => Truncated
      case Parsed(high, next) => Parsed(buffer[offset] - 128 + 128 * high, next)
  }

  /** Byte `i` holds bits 7i to 7i + 6 of the number, and a set top bit says that more bytes follow. */
  lemma {:induction false} VByteGroups(v: nat, i: nat)
    requires i < |VByte(v)|
    ensures VByte(v)[i] == ShiftRight(v, 7 * i) % 128 + if i + 1 < |VByte(v)| then 128 else 0
    ensures ShiftRight(v, 7 * |VByte(v)|) == 0 && (|VByte(v)| > 1 ==> ShiftRight(v, 7 * (|VByte(v)| - 1)) != 0)
    decreases v
  {
    if v >= 128 {
      var rest := VByte(v / 128);
      VByteGroups(v / 128, if i > 0 then i - 1 else 0);
      ShiftRightBySeven(v);
      ShiftRightTwice(v, 7, 7 * (if i > 0 then i - 1 else 0));
      ShiftRightTwice(v, 7, 7 * |rest|);
      ShiftRightTwice(v, 7, 7 * (|rest| - 1));
    } else {
      ShiftRightBySeven(v);
    }
  }

  lemma ShiftRightBySeven(v: nat)
    ensures ShiftRight(v, 7) == v / 128
  {
    assert ShiftRight(v, 7) == ShiftRight(v / 2, 6) == ShiftRight(v / 4, 5) == ShiftRight(v / 8, 4);
    assert ShiftRight(v / 8, 4) == ShiftRight(v / 16, 3) == ShiftRight(v / 32, 2) == ShiftRight(v / 64, 1);
  }

  lemma ShiftRightByEight(v: nat)
    ensures ShiftRight(v, 8) == v / 256
  {
    ShiftRightBySeven(v / 2);
  }

  /** A number reads back from wherever it was written, and the reader stops exactly after it. */
  lemma {:induction false} VByteRoundTrip(v: nat, buffer: seq<byte>, offset: nat)
    requires At(buffer, offset, VByte(v))
    ensures ReadVByte(buffer, offset) == Parsed(v, offset + |VByte(v)|)
    decreases v
  {
    var chunk := buffer[offset..offset + |VByte(v)|];
    assert buffer[offset] == chunk[0];
    if v >= 128 {
      AtSplit(buffer, offset, [128 + v % 128], VByte(v / 128));
      VByteRoundTrip(v / 128, buffer, offset + 1);
    }
  }

  function VBytes(vs: seq<nat>): seq<byte> {
    if vs == [] then [] else VByte(vs[0]) + VBytes(vs[1..])
  }

  function ReadVBytes(buffer: seq<byte>, offset: nat, count: nat): Parsed<seq<nat>>
    decreases count
  {
    if count == 0 then Parsed([], offset)
    else match ReadVByte(buffer, offset)
      case Truncated => Truncated
      case Parsed(v, next) =>
        match ReadVBytes(buffer, next, count - 1)
        case Truncated => Truncated
        case Parsed(rest, end) => Parsed([v] + rest, end)
  }

  lemma ReadVBytesStep(buffer: seq<byte>, offset: nat, vs: seq<nat>, next: nat, end: nat)
    requires vs != [] && ReadVByte(buffer, offset) == Parsed(vs[0], next)
    requires ReadVBytes(buffer, next, |vs[1..]|) == Parsed(vs[1..], end)
    ensures ReadVBytes(buffer, offset, |vs|) == Parsed(vs, end)
  {
    hide ReadVByte;
    Sequences.HeadTail(vs);
  }

  lemma VBytesStep(vs: seq<nat>)
    requires vs != []
    ensures VBytes(vs) == VByte(vs[0]) + VBytes(vs[1..])
  {
    hide VByte;
  }

  lemma {:induction false} VBytesRoundTrip(vs: seq<nat>, buffer: seq<byte>, offset: nat)
    requires At(buffer, offset, VBytes(vs))
    ensures ReadVBytes(buffer, offset, |vs|) == Parsed(vs, offset + |VBytes(vs)|)
    decreases |vs|
  {
    if vs == [] {
      hide VByte, ReadVByte;
    } else {
      hide *;
      var first, rest := VByte(vs[0]), VBytes(vs[1..]);
      VBytesStep(vs);
      AtSplit(buffer, offset, first, rest);
      assert |VBytes(vs)| == |first| + |rest|;
      VByteRoundTrip(vs[0], buffer, offset);
      VBytesRoundTrip(vs[1..], buffer, offset + |first|);
      ReadVBytesStep(buffer, offset, vs, offset + |first|, offset + |first| + |rest|);
    }
  }

  // ---------------------------------------------------------------------------
  // Packers of 32-bit lists
  // ---------------------------------------------------------------------------

  /** A list packer, given by its two directions; the count of values is known to the reader. */
  datatype Packer = Packer(pack: seq<nat> -> seq<byte>, unpack: (seq<byte>, nat, nat) -> Parsed<seq<nat>>) {

    /** What the codec relies on: unpacking returns the list and consumes exactly the bytes written. */
    ghost predicate Lawful() {
      forall vs: seq<nat>, buffer: seq<byte>, offset: nat ::
        AllUnsigned(W32, vs) && At(buffer, offset, pack(vs))
        ==> unpack(buffer, offset, |vs|) == Parsed(vs, offset + |pack(vs)|)
    }
  }

  lemma UnpackPacked(packer: Packer, vs: seq<nat>, buffer: seq<byte>, offset: nat)
    requires packer.Lawful()
    requires AllUnsigned(W32, vs) && At(buffer, offset, packer.pack(vs))
    ensures packer.unpack(buffer, offset, |vs|) == Parsed(vs, offset + |packer.pack(vs)|)
  {
  }

  /** The contract can be met: the seven-bit groups are one lawful packer. */
  lemma VBytePackerIsLawful()
    ensures Packer(VBytes, ReadVBytes).Lawful()
  {
    forall vs: seq<nat>, buffer: seq<byte>, offset: nat
      | AllUnsigned(W32, vs) && At(buffer, offset, VBytes(vs))
      ensures ReadVBytes(buffer, offset, |vs|) == Parsed(vs, offset + |VBytes(vs)|)
    {
      VBytesRoundTrip(vs, buffer, offset);
    }
  }

  // ---------------------------------------------------------------------------
  // Fixed-width little-endian integers
  // ---------------------------------------------------------------------------

  function LittleEndian(v: nat, width: nat): (s: seq<byte>)
    ensures |s| == width
  {
    if width == 0 then [] else [v % 256] + LittleEndian(v / 256, width - 1)
  }

  function FromLittleEndian(s: seq<byte>): nat {
    if s == [] then 0 else s[0] + 256 * FromLittleEndian(s[1..])
  }

  /** Byte `i` holds bits 8i to 8i + 7 of the number. */
  lemma {:induction false} LittleEndianBytes(v: nat, width: nat, i: nat)
    requires i < width
    ensures LittleEndian(v, width)[i] == ShiftRight(v, 8 * i) % 256
  {
    if i > 0 {
      LittleEndianBytes(v / 256, width - 1, i - 1);
      ShiftRightByEight(v);
      ShiftRightTwice(v, 8, 8 * (i - 1));
    }
  }

  /** The number fits in `width` bytes. */
  predicate FitsBytes(v: nat, width: nat) {
    if width == 0 then v == 0 else FitsBytes(v / 256, width - 1)
  }

  lemma {:induction false} LittleEndianRoundTrip(v: nat, width: nat)
    requires FitsBytes(v, width)
    ensures FromLittleEndian(LittleEndian(v, width)) == v
  {
    if width > 0 {
      LittleEndianRoundTrip(v / 256, width - 1);
      assert LittleEndian(v, width)[1..] == LittleEndian(v / 256, width - 1);
    }
  }

  lemma FitsStandardWidths(v: nat)
    ensures v < 0x1_0000 ==> FitsBytes(v, 2)
    ensures v < 0x1_0000_0000 ==> FitsBytes(v, 4)
    ensures v < 0x1_0000_0000_0000_0000 ==> FitsBytes(v, 8)
    ensures v < 256 ==> FitsBytes(v, 1)
  {
    var a := v / 0x1_0000;
    var b := a / 0x1_0000;
    var c := b / 0x1_0000;
    FitsTwoMore(c, 0);
    FitsTwoMore(b, 2);
    FitsTwoMore(a, 4);
    FitsTwoMore(v, 6);
    FitsTwoMore(a, 0);
    FitsTwoMore(v, 2);
    FitsTwoMore(v, 0);
    assert v < 256 ==> FitsBytes(v / 256, 0);
  }

  lemma FitsTwoMore(v: nat, width: nat)
    ensures FitsBytes(v, width + 2) == FitsBytes(v / 0x1_0000, width)
  {
    assert v / 256 / 256 == v / 0x1_0000;
    assert FitsBytes(v, width + 2) == FitsBytes(v / 256, width + 1);
  }

  function ReadLittleEndian(buffer: seq<byte>, offset: nat, width: nat): (r: Parsed<nat>)
    ensures r.Parsed? ==> r.next == offset + width <= |buffer|
  {
    if offset + width > |buffer| then Truncated
    else Parsed(FromLittleEndian(buffer[offset..offset + width]), offset + width)
  }

  lemma ReadsBackLittleEndian(v: nat, width: nat, buffer: seq<byte>, offset: nat)
    requires FitsBytes(v, width)
    requires At(buffer, offset, LittleEndian(v, width))
    ensures ReadLittleEndian(buffer, offset, width) == Parsed(v, offset + width)
  {
    LittleEndianRoundTrip(v, width);
  }
}
