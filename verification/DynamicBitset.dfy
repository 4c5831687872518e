/**
 A bitset over 64-bit blocks. Positions from the declared size on exist in the last block
 but are not part of the set.
 */
module DynamicBitset {
  import opened Words
  import opened BlockBits

  // ---------------------------------------------------------------------------
  // Meaning of a list of blocks
  // ---------------------------------------------------------------------------

  function BlockCount(numBits: nat): nat { (numBits + 63) / 64 }

  ghost predicate Blocks(s: seq<nat>) { forall i :: 0 <= i < |s| ==> Fits(s[i], BLOCK_BITS) }

  /** The bit at any position of the blocks, inside the declared size or not. */
  predicate BitAt(s: seq<nat>, pos: nat) {
    pos / 64 < |s| && Bit(s[pos / 64], pos % 64)
  }

  /** No bit is set in the unused part of the last block. */
  ghost predicate Clean(s: seq<nat>, numBits: nat) {
    forall q: nat :: q >= numBits ==> !BitAt(s, q)
  }

  function Zeros(n: nat): seq<nat> { seq(n, i => 0) }

  /** Block `i` after a left shift of the whole list. */
  function ShlBlock(s: seq<nat>, shift: nat, i: nat): nat
    requires i < |s|
  {
    Or(if i >= shift / 64 then Shl(s[i - shift / 64], shift % 64) else 0,
       if shift % 64 != 0 && i >= shift / 64 + 1 then Shr(s[i - shift / 64 - 1], 64 - shift % 64) else 0)
  }

  function ShrBlock(s: seq<nat>, shift: nat, i: nat): nat
    requires i < |s|
  {
    Or(if i + shift / 64 < |s| then Shr(s[i + shift / 64], shift % 64) else 0,
       if shift % 64 != 0 && i + shift / 64 + 1 < |s| then Shl(s[i + shift / 64 + 1], 64 - shift % 64) else 0)
  }

  function ShiftedLeft(s: seq<nat>, numBits: nat, shift: nat): (r: seq<nat>)
    ensures |r| == |s|
  {
    if shift >= numBits then Zeros(|s|) else seq(|s|, i requires 0 <= i < |s| => ShlBlock(s, shift, i))
  }

  function ShiftedRight(s: seq<nat>, numBits: nat, shift: nat): (r: seq<nat>)
    ensures |r| == |s|
  {
    if shift >= numBits then Zeros(|s|) else seq(|s|, i requires 0 <= i < |s| => ShrBlock(s, shift, i))
  }

  // ---------------------------------------------------------------------------
  // The shifts, bit by bit
  // ---------------------------------------------------------------------------

  lemma ShlBlockBit(s: seq<nat>, shift: nat, i: nat, k: nat)
    requires Blocks(s) && i < |s| && k < 64
    ensures Bit(ShlBlock(s, shift, i), k) == (64 * i + k >= shift && BitAt(s, 64 * i + k - shift))
  {
    var bs, b := shift / 64, shift % 64;
    var low := if i >= bs then Shl(s[i - bs], b) else 0;
    var high := if b != 0 && i >= bs + 1 then Shr(s[i - bs - 1], 64 - b) else 0;
    BitsOfOr(low, high, k);
    NoBits(0, 0, k);
    if i >= bs { BitsOfShl(s[i - bs], b, k); }
    if b != 0 && i >= bs + 1 {
      BitsOfShr(s[i - bs - 1], 64 - b, k);
      if k >= b { NoBits(s[i - bs - 1], 64, k + 64 - b); }
    }
    if k >= b {
      Divides(i - bs, k - b);
    } else {
      Divides(i - bs - 1, k + 64 - b);
    }
  }

  lemma Divides(q: int, r: int)
    requires 0 <= r < 64
    ensures (64 * q + r) / 64 == q && (64 * q + r) % 64 == r
  {
  }

  lemma ShrBlockBit(s: seq<nat>, shift: nat, i: nat, k: nat)
    requires Blocks(s) && i < |s| && k < 64
    ensures Bit(ShrBlock(s, shift, i), k) == BitAt(s, 64 * i + k + shift)
  {
    var bs, b := shift / 64, shift % 64;
    var low := if i + bs < |s| then Shr(s[i + bs], b) else 0;
    var high := if b != 0 && i + bs + 1 < |s| then Shl(s[i + bs + 1], 64 - b) else 0;
    BitsOfOr(low, high, k);
    NoBits(0, 0, k);
    if i + bs < |s| {
      BitsOfShr(s[i + bs], b, k);
      if k + b >= 64 { NoBits(s[i + bs], 64, k + b); }
    }
    if b != 0 && i + bs + 1 < |s| { BitsOfShl(s[i + bs + 1], 64 - b, k); }
    if k + b < 64 {
      Divides(i + bs, k + b);
    } else {
      Divides(i + bs + 1, k + b - 64);
    }
  }

  lemma ZerosHaveNoBits(n: nat, pos: nat)
    ensures !BitAt(Zeros(n), pos)
  {
    NoBits(0, 0, pos % 64);
  }

  /**
   `<<` moves every bit up by `shift`: on the declared positions it is the logical shift,
   whatever the unused bits hold.
   */
  lemma LeftShiftIsLogical(s: seq<nat>, numBits: nat, shift: nat, pos: nat)
    requires Blocks(s) && |s| == BlockCount(numBits) && pos < numBits
    ensures BitAt(ShiftedLeft(s, numBits, shift), pos) == (pos >= shift && BitAt(s, pos - shift))
  {
    if shift >= numBits {
      ZerosHaveNoBits(|s|, pos);
    } else {
      ShlBlockBit(s, shift, pos / 64, pos % 64);
    }
  }

  /** The positions whose unused bits a right shift by less than the size brings into the set. */
  ghost predicate NothingStrayWithin(s: seq<nat>, numBits: nat, shift: nat) {
    shift >= numBits || forall q: nat :: numBits <= q < numBits + shift ==> !BitAt(s, q)
  }

  ghost predicate RightShiftIsLogical(s: seq<nat>, numBits: nat, shift: nat) {
    forall pos: nat :: pos < numBits ==>
      BitAt(ShiftedRight(s, numBits, shift), pos) == (pos + shift < numBits && BitAt(s, pos + shift))
  }

  lemma RightShiftBit(s: seq<nat>, numBits: nat, shift: nat, pos: nat)
    requires Blocks(s) && |s| == BlockCount(numBits) && shift < numBits
    ensures BitAt(ShiftedRight(s, numBits, shift), pos) == BitAt(s, pos + shift)
  {
    if pos / 64 < |s| { ShrBlockBit(s, shift, pos / 64, pos % 64); }
  }

  /** `>>` is the logical shift exactly when no unused bit is set just above the declared size. */
  lemma RightShiftLaw(s: seq<nat>, numBits: nat, shift: nat)
    requires Blocks(s) && |s| == BlockCount(numBits)
    ensures RightShiftIsLogical(s, numBits, shift) <==> NothingStrayWithin(s, numBits, shift)
    ensures Clean(s, numBits) ==> NothingStrayWithin(s, numBits, shift)
  {
    if shift >= numBits {
      forall pos: nat ensures !BitAt(ShiftedRight(s, numBits, shift), pos) { ZerosHaveNoBits(|s|, pos); }
    } else {
      forall pos: nat ensures BitAt(ShiftedRight(s, numBits, shift), pos) == BitAt(s, pos + shift) {
        RightShiftBit(s, numBits, shift, pos);
      }
      if RightShiftIsLogical(s, numBits, shift) {
        forall q: nat | numBits <= q < numBits + shift ensures !BitAt(s, q) {
          assert BitAt(ShiftedRight(s, numBits, shift), q - shift) == BitAt(s, q - shift + shift);
        }
      }
    }
  }

  /** A right shift leaves nothing in the unused part, if nothing was there. */
  lemma RightShiftKeepsClean(s: seq<nat>, numBits: nat, shift: nat)
    requires Blocks(s) && |s| == BlockCount(numBits) && Clean(s, numBits)
    ensures Clean(ShiftedRight(s, numBits, shift), numBits)
  {
    forall q: nat | q >= numBits ensures !BitAt(ShiftedRight(s, numBits, shift), q) {
      if shift >= numBits { ZerosHaveNoBits(|s|, q); } else { RightShiftBit(s, numBits, shift, q); }
    }
  }

  /**
   A left shift keeps the unused part clear exactly when no bit passes the declared size
   and stays in the last block.
   */
  lemma LeftShiftKeepsClean(s: seq<nat>, numBits: nat, shift: nat)
    requires Blocks(s) && |s| == BlockCount(numBits) && shift < numBits
    ensures Clean(ShiftedLeft(s, numBits, shift), numBits) <==>
            forall q: nat :: numBits - shift <= q < 64 * |s| - shift ==> !BitAt(s, q)
  {
    var r := ShiftedLeft(s, numBits, shift);
    forall pos: nat ensures BitAt(r, pos) == (pos < 64 * |s| && pos >= shift && BitAt(s, pos - shift)) {
      if pos / 64 < |s| { ShlBlockBit(s, shift, pos / 64, pos % 64); }
    }
    if Clean(r, numBits) {
      forall q: nat | numBits - shift <= q < 64 * |s| - shift ensures !BitAt(s, q) {
        assert BitAt(r, q + shift) == BitAt(s, q + shift - shift);
      }
    }
  }

  /**
   Two bits, the upper one set: shifted up and down again by one, the upper one is back
   although it had left the set.
   */
  lemma StrayBitReturns()
    ensures var up := ShiftedLeft([2], 2, 1);
            !BitAt(up, 0) && !BitAt(up, 1) && BitAt(ShiftedRight(up, 2, 1), 1)
  {
    var s := [2];
    OneFits(1, 64);
    assert ShiftLeft(1, 1) == 2;
    LeftShiftIsLogical(s, 2, 1, 0);
    LeftShiftIsLogical(s, 2, 1, 1);
    ShlBlockBit(s, 1, 0, 2);
    var up := ShiftedLeft(s, 2, 1);
    BlocksShifted(s, 2, 1);
    RightShiftBit(up, 2, 1, 1);
    assert BitAt(s, 1) && !BitAt(s, 0);
  }

  lemma ShlFits(x: nat, b: nat)
    ensures Fits(Shl(x, b), BLOCK_BITS)
  {
    LowBitsFits(ShiftLeft(x, b), BLOCK_BITS);
  }

  lemma BlocksShifted(s: seq<nat>, numBits: nat, shift: nat)
    requires Blocks(s)
    ensures Blocks(ShiftedLeft(s, numBits, shift)) && Blocks(ShiftedRight(s, numBits, shift))
  {
    var bs, b := shift / 64, shift % 64;
    ZeroFits(64);
    forall i | 0 <= i < |s| ensures Fits(ShlBlock(s, shift, i), 64) && Fits(ShrBlock(s, shift, i), 64) {
      if i >= bs { ShlFits(s[i - bs], b); }
      if i >= bs + 1 { ShrFits(s[i - bs - 1], 64 - b, 64); }
      if i + bs < |s| { ShrFits(s[i + bs], b, 64); }
      if i + bs + 1 < |s| { ShlFits(s[i + bs + 1], 64 - b); }
      OrFits(if i >= bs then Shl(s[i - bs], b) else 0,
          if b != 0 && i >= bs + 1 then Shr(s[i - bs - 1], 64 - b) else 0, 64);
      OrFits(if i + bs < |s| then Shr(s[i + bs], b) else 0,
          if b != 0 && i + bs + 1 < |s| then Shl(s[i + bs + 1], 64 - b) else 0, 64);
    }
  }

  // ---------------------------------------------------------------------------
  // The two forms of a shift
  // ---------------------------------------------------------------------------

  /** Block `t` of the new object after its loop has read the blocks below `i`. */
  function LeftSoFar(s: seq<nat>, shift: nat, t: nat, i: nat): nat
    requires t < |s|
  {
    var spill := if shift % 64 != 0 && t >= shift / 64 + 1 && t - shift / 64 - 1 < i
                 then Or(0, Shr(s[t - shift / 64 - 1], 64 - shift % 64)) else 0;
    if t >= shift / 64 && t - shift / 64 < i then Or(spill, Shl(s[t - shift / 64], shift % 64)) else spill
  }

  function RightSoFar(s: seq<nat>, shift: nat, t: nat, i: nat): nat
    requires t < |s|
  {
    var low := if t + shift / 64 < |s| && t + shift / 64 < i then Or(0, Shr(s[t + shift / 64], shift % 64)) else 0;
    if shift % 64 != 0 && t + shift / 64 + 1 < |s| && t + shift / 64 + 1 < i
    then Or(low, Shl(s[t + shift / 64 + 1], 64 - shift % 64)) else low
  }

  lemma SoFarIsWhole(s: seq<nat>, shift: nat, t: nat)
    requires t < |s|
    ensures LeftSoFar(s, shift, t, |s|) == ShlBlock(s, shift, t)
    ensures RightSoFar(s, shift, t, |s|) == ShrBlock(s, shift, t)
  {
    var bs, b := shift / 64, shift % 64;
    var low := if t >= bs then Shl(s[t - bs], b) else 0;
    var high := if b != 0 && t >= bs + 1 then Shr(s[t - bs - 1], 64 - b) else 0;
    OrZero(low);
    OrZero(high);
    OrCommutes(low, high);
    OrZero(if t + bs < |s| then Shr(s[t + bs], b) else 0);
  }

  /** All blocks moved up by whole blocks, zeros below. */
  function MovedUp(s: seq<nat>, blocks: nat): seq<nat>
    requires blocks <= |s|
  {
    Zeros(blocks) + s[..|s| - blocks]
  }

  function MovedDown(s: seq<nat>, blocks: nat): seq<nat>
    requires blocks <= |s|
  {
    s[blocks..] + Zeros(blocks)
  }

  /** One block and the carry from its neighbour. */
  function CarriedUp(t: seq<nat>, b: nat, i: nat): nat
    requires b < 64 && i < |t|
  {
    Or(Shl(t[i], b), if i == 0 then 0 else Shr(t[i - 1], 64 - b))
  }

  function CarriedDown(t: seq<nat>, b: nat, i: nat): nat
    requires b < 64 && i < |t|
  {
    Or(Shr(t[i], b), if i == |t| - 1 then 0 else Shl(t[i + 1], 64 - b))
  }

  lemma {:induction false} ShiftsOfZero(b: nat)
    ensures ShiftLeft(0, b) == 0 && Shr(0, b) == 0 && Shl(0, b) == 0
  {
    if b > 0 { ShiftsOfZero(b - 1); }
    ZeroFits(64);
    LowBitsFits(0, 64);
  }

  lemma ShiftByNone(x: nat)
    requires Fits(x, 64)
    ensures Shl(x, 0) == x && Shr(x, 0) == x
  {
    LowBitsFits(x, 64);
  }

  /** Moving whole blocks and then carrying bits is the shift by both at once. */
  lemma StagedLeft(s: seq<nat>, shift: nat, i: nat)
    requires Blocks(s) && shift / 64 <= |s| && i < |s|
    ensures
      var up := MovedUp(s, shift / 64);
      ShlBlock(s, shift, i) == if shift % 64 == 0 then up[i] else CarriedUp(up, shift % 64, i)
  {
    hide Shl, Shr, Or;
    var bs, b := shift / 64, shift % 64;
    ShiftsOfZero(b);
    ShiftsOfZero(64 - b);
    OrZero(0);
    if i >= bs { ShiftByNone(s[i - bs]); OrZero(s[i - bs]); }
  }

  lemma StagedRight(s: seq<nat>, shift: nat, i: nat)
    requires Blocks(s) && shift / 64 <= |s| && i < |s|
    ensures
      var down := MovedDown(s, shift / 64);
      ShrBlock(s, shift, i) == if shift % 64 == 0 then down[i] else CarriedDown(down, shift % 64, i)
  {
    hide Shl, Shr, Or;
    var bs, b := shift / 64, shift % 64;
    ShiftsOfZero(b);
    ShiftsOfZero(64 - b);
    OrZero(0);
    if i + bs < |s| { ShiftByNone(s[i + bs]); OrZero(s[i + bs]); }
  }

  // ---------------------------------------------------------------------------
  // The class
  // ---------------------------------------------------------------------------

  class DynamicBitset {
    var bits: array<nat>
    var numBits: nat

    ghost predicate Valid()
      reads this, bits
    {
      bits.Length == BlockCount(numBits) && Blocks(bits[..])
    }

    /** The bit at any position of the blocks. */
    ghost predicate Has(pos: nat)
      reads this, bits
    {
      BitAt(bits[..], pos)
    }

    /** No bit above the declared size. */
    ghost predicate Tidy()
      reads this, bits
    {
      Clean(bits[..], numBits)
    }

    constructor (size: nat)
      ensures Valid() && Tidy() && fresh(bits) && numBits == size
      ensures bits[..] == Zeros(BlockCount(size))
    {
      bits := new nat[BlockCount(size)](i => 0);
      numBits := size;
      new;
      assert bits[..] == Zeros(BlockCount(size));
      ZeroFits(64);
      forall pos: nat ensures !BitAt(bits[..], pos) { ZerosHaveNoBits(BlockCount(size), pos); }
    }

    /** Keeps the blocks that remain and appends zero blocks; the unused bits of the last block are not cleared. */
    method Resize(size: nat)
      requires Valid()
      modifies this
      ensures Valid() && fresh(bits) && numBits == size
      ensures forall pos: nat :: Has(pos) == (pos < 64 * BlockCount(size) && old(Has(pos)))
      ensures old(Tidy()) && size >= old(numBits) ==> Tidy()
    {
      ghost var s := bits[..];
      var n := BlockCount(size);
      var was := bits;
      var grown := new nat[n](i reads was => if 0 <= i < was.Length then was[i] else 0);
      bits, numBits := grown, size;
      ZeroFits(64);
      forall pos: nat ensures BitAt(grown[..], pos) == (pos < 64 * n && BitAt(s, pos)) {
        NoBits(0, 0, pos % 64);
      }
    }

    /** Writes one bit, or reports `std::out_of_range` and changes nothing. */
    method Set(pos: nat, value: bool) returns (ok: bool)
      requires Valid()
      modifies bits
      ensures Valid() && ok == (pos < numBits)
      ensures forall q: nat :: Has(q) == if ok && q == pos then value else old(Has(q))
      ensures old(Tidy()) ==> Tidy()
    {
      if pos >= numBits { return false; }
      var block, offset := pos / 64, pos % 64;
      ghost var s := bits[..];
      OneFits(offset, 64);
      OrFits(bits[block], ShiftLeft(1, offset), 64);
      AndFits(bits[block], Not(ShiftLeft(1, offset), 64), 64);
      bits[block] := if value then Or(bits[block], ShiftLeft(1, offset))
          else And(bits[block], Not(ShiftLeft(1, offset), 64));
      OneBitChanged(s, bits[..], pos, value);
      ok := true;
    }

    lemma OneBitChanged(s: seq<nat>, r: seq<nat>, pos: nat, value: bool)
      requires pos / 64 < |s|
      requires r == s[pos / 64 := if value then Or(s[pos / 64], ShiftLeft(1, pos % 64))
               else And(s[pos / 64], Not(ShiftLeft(1, pos % 64), 64))]
      ensures forall q: nat :: BitAt(r, q) == if q == pos then value else BitAt(s, q)
    {
      hide Or, And, Not, Bit;
      forall q: nat ensures BitAt(r, q) == if q == pos then value else BitAt(s, q) {
        if q / 64 == pos / 64 { OneBitOfBlock(s[pos / 64], pos % 64, q % 64); }
      }
    }

    lemma OneBitOfBlock(x: nat, offset: nat, k: nat)
      requires offset < 64 && k < 64
      ensures Bit(Or(x, ShiftLeft(1, offset)), k) == (k == offset || Bit(x, k))
      ensures Bit(And(x, Not(ShiftLeft(1, offset), 64)), k) == (k != offset && Bit(x, k))
    {
      var one := ShiftLeft(1, offset);
      BitsOfOne(offset, k);
      BitsOfOr(x, one, k);
      BitsOfNot(one, 64, k);
      BitsOfAnd(x, Not(one, 64), k);
    }

    method Reset(pos: nat) returns (ok: bool)
      requires Valid()
      modifies bits
      ensures Valid() && ok == (pos < numBits)
      ensures forall q: nat :: Has(q) == (!(ok && q == pos) && old(Has(q)))
      ensures old(Tidy()) ==> Tidy()
    {
      ok := Set(pos, false);
    }

    method ResetAll()
      requires Valid()
      modifies bits
      ensures Valid() && Tidy() && bits[..] == Zeros(bits.Length)
    {
      FillZeros(0, bits.Length);
      assert bits[..] == Zeros(bits.Length);
      ZeroFits(64);
      forall pos: nat ensures !BitAt(bits[..], pos) { ZerosHaveNoBits(bits.Length, pos); }
    }

    /** Tests a bit; nothing is returned when the position is out of range. */
    method IsSet(pos: nat) returns (ok: bool, value: bool)
      requires Valid()
      ensures ok == (pos < numBits) && (ok ==> value == Has(pos))
    {
      if pos >= numBits { return false, false; }
      var shifted := Shr(bits[pos / 64], pos % 64);
      BitsOfShr(bits[pos / 64], pos % 64, 0);
      return true, shifted % 2 == 1;
    }

    /** Intersection with a set of the same size; `null` stands for `std::invalid_argument`. */
    method Intersect(other: DynamicBitset) returns (result: DynamicBitset?)
      requires Valid() && other.Valid()
      ensures result == null <==> numBits != other.numBits
      ensures result != null ==>
                && fresh(result) && fresh(result.bits) && result.Valid() && result.numBits == numBits
                && (forall q: nat :: result.Has(q) == (Has(q) && other.Has(q)))
                && (Tidy() || other.Tidy() ==> result.Tidy())
    {
      if numBits != other.numBits { return null; }
      result := new DynamicBitset(numBits);
      for i := 0 to bits.Length
        invariant fresh(result) && fresh(result.bits) && result.numBits == numBits && result.bits.Length == bits.Length
        invariant forall j :: 0 <= j < i ==> result.bits[j] == And(bits[j], other.bits[j])
      {
        result.bits[i] := And(bits[i], other.bits[i]);
      }
      Pointwise(bits[..], other.bits[..], result.bits[..]);
    }

    method Union(other: DynamicBitset) returns (result: DynamicBitset?)
      requires Valid() && other.Valid()
      ensures result == null <==> numBits != other.numBits
      ensures result != null ==>
                && fresh(result) && fresh(result.bits) && result.Valid() && result.numBits == numBits
                && (forall q: nat :: result.Has(q) == (Has(q) || other.Has(q)))
                && (Tidy() && other.Tidy() ==> result.Tidy())
    {
      if numBits != other.numBits { return null; }
      result := new DynamicBitset(numBits);
      for i := 0 to bits.Length
        invariant fresh(result) && fresh(result.bits) && result.numBits == numBits && result.bits.Length == bits.Length
        invariant forall j :: 0 <= j < i ==> result.bits[j] == Or(bits[j], other.bits[j])
      {
        result.bits[i] := Or(bits[i], other.bits[i]);
      }
      Pointwise(bits[..], other.bits[..], result.bits[..]);
    }

    lemma Pointwise(s: seq<nat>, t: seq<nat>, r: seq<nat>)
      requires |s| == |t| == |r| && Blocks(s) && Blocks(t)
      ensures (forall j :: 0 <= j < |s| ==> r[j] == And(s[j], t[j])) ==>
                Blocks(r) && forall q: nat :: BitAt(r, q) == (BitAt(s, q) && BitAt(t, q))
      ensures (forall j :: 0 <= j < |s| ==> r[j] == Or(s[j], t[j])) ==>
                Blocks(r) && forall q: nat :: BitAt(r, q) == (BitAt(s, q) || BitAt(t, q))
    {
      forall q: nat | q / 64 < |s|
        ensures Bit(And(s[q / 64], t[q / 64]), q % 64) == (BitAt(s, q) && BitAt(t, q))
        ensures Bit(Or(s[q / 64], t[q / 64]), q % 64) == (BitAt(s, q) || BitAt(t, q))
      {
        BitsOfAnd(s[q / 64], t[q / 64], q % 64);
        BitsOfOr(s[q / 64], t[q / 64], q % 64);
      }
      forall j | 0 <= j < |s| ensures Fits(And(s[j], t[j]), 64) && Fits(Or(s[j], t[j]), 64) {
        AndFits(s[j], t[j], 64);
        OrFits(s[j], t[j], 64);
      }
    }

    /** Intersection in place; the other set may be this one. */
    method IntersectWith(other: DynamicBitset) returns (ok: bool)
      requires Valid() && other.Valid()
      modifies bits
      ensures Valid() && ok == (numBits == other.numBits)
      ensures forall q: nat :: Has(q) == (old(Has(q)) && (ok ==> old(other.Has(q))))
      ensures old(Tidy()) ==> Tidy()
    {
      if numBits != other.numBits { return false; }
      ghost var s, t := bits[..], other.bits[..];
      for i := 0 to bits.Length
        invariant forall j :: 0 <= j < i ==> bits[j] == And(s[j], t[j])
        invariant forall j :: i <= j < bits.Length ==> bits[j] == s[j] && other.bits[j] == t[j]
      {
        bits[i] := And(bits[i], other.bits[i]);
      }
      Pointwise(s, t, bits[..]);
      ok := true;
    }

    method UniteWith(other: DynamicBitset) returns (ok: bool)
      requires Valid() && other.Valid()
      modifies bits
      ensures Valid() && ok == (numBits == other.numBits)
      ensures forall q: nat :: Has(q) == (old(Has(q)) || (ok && old(other.Has(q))))
      ensures old(Tidy()) && old(other.Tidy()) ==> Tidy()
    {
      if numBits != other.numBits { return false; }
      ghost var s, t := bits[..], other.bits[..];
      for i := 0 to bits.Length
        invariant forall j :: 0 <= j < i ==> bits[j] == Or(s[j], t[j])
        invariant forall j :: i <= j < bits.Length ==> bits[j] == s[j] && other.bits[j] == t[j]
      {
        bits[i] := Or(bits[i], other.bits[i]);
      }
      Pointwise(s, t, bits[..]);
      ok := true;
    }

    /** `<<`: a new set of the same size. */
    method LeftShifted(shift: nat) returns (result: DynamicBitset)
      requires Valid()
      ensures fresh(result) && fresh(result.bits) && result.Valid() && result.numBits == numBits
      ensures result.bits[..] == ShiftedLeft(bits[..], numBits, shift)
      ensures forall pos: nat :: pos < numBits ==> result.Has(pos) == (pos >= shift && Has(pos - shift))
    {
      hide ShlBlock, Shl, Shr, Or;
      ghost var s := bits[..];
      result := new DynamicBitset(numBits);
      LeftShiftedBits(s, numBits, shift);
      if shift >= numBits { return; }
      var blockShift, bitShift := shift / 64, shift % 64;
      for i := 0 to bits.Length
        invariant fresh(result) && fresh(result.bits) && result.numBits == numBits && result.bits.Length == bits.Length
        invariant forall t :: 0 <= t < |s| ==> result.bits[t] == LeftSoFar(s, shift, t, i)
      {
        var target := i + blockShift;
        if target < bits.Length {
          result.bits[target] := Or(result.bits[target], Shl(bits[i], bitShift));
          target := target + 1;
          if bitShift != 0 && target < bits.Length {
            result.bits[target] := Or(result.bits[target], Shr(bits[i], 64 - bitShift));
          }
        }
      }
      forall t | 0 <= t < |s| ensures result.bits[t] == ShlBlock(s, shift, t) { SoFarIsWhole(s, shift, t); }
      assert result.bits[..] == ShiftedLeft(s, numBits, shift);
    }

    lemma LeftShiftedBits(s: seq<nat>, size: nat, shift: nat)
      requires Blocks(s) && |s| == BlockCount(size)
      ensures Blocks(ShiftedLeft(s, size, shift))
      ensures forall pos: nat :: pos < size ==>
              BitAt(ShiftedLeft(s, size, shift), pos) == (pos >= shift && BitAt(s, pos - shift))
    {
      BlocksShifted(s, size, shift);
      forall pos: nat | pos < size
        ensures BitAt(ShiftedLeft(s, size, shift), pos) == (pos >= shift && BitAt(s, pos - shift))
      {
        LeftShiftIsLogical(s, size, shift, pos);
      }
    }

    /** `>>`: a new set of the same size; the logical shift when the unused bits are clear. */
    method RightShifted(shift: nat) returns (result: DynamicBitset)
      requires Valid()
      ensures fresh(result) && fresh(result.bits) && result.Valid() && result.numBits == numBits
      ensures result.bits[..] == ShiftedRight(bits[..], numBits, shift)
      ensures Tidy() ==> result.Tidy() && RightShiftIsLogical(bits[..], numBits, shift)
    {
      hide ShrBlock, Shl, Shr, Or;
      ghost var s := bits[..];
      result := new DynamicBitset(numBits);
      RightShiftedBits(s, numBits, shift);
      if shift >= numBits { return; }
      var blockShift, bitShift := shift / 64, shift % 64;
      for i := blockShift to bits.Length
        invariant fresh(result) && fresh(result.bits) && result.numBits == numBits && result.bits.Length == bits.Length
        invariant forall t :: 0 <= t < |s| ==> result.bits[t] == RightSoFar(s, shift, t, i)
      {
        var target := i - blockShift;
        result.bits[target] := Or(result.bits[target], Shr(bits[i], bitShift));
        if bitShift != 0 && i > blockShift {
          target := target - 1;
          result.bits[target] := Or(result.bits[target], Shl(bits[i], 64 - bitShift));
        }
      }
      forall t | 0 <= t < |s| ensures result.bits[t] == ShrBlock(s, shift, t) { SoFarIsWhole(s, shift, t); }
      assert result.bits[..] == ShiftedRight(s, numBits, shift);
    }

    lemma RightShiftedBits(s: seq<nat>, size: nat, shift: nat)
      requires Blocks(s) && |s| == BlockCount(size)
      ensures Blocks(ShiftedRight(s, size, shift))
      ensures Clean(s, size) ==> Clean(ShiftedRight(s, size, shift), size) && RightShiftIsLogical(s, size, shift)
    {
      BlocksShifted(s, size, shift);
      RightShiftLaw(s, size, shift);
      if Clean(s, size) { RightShiftKeepsClean(s, size, shift); }
    }

    /** `<<=`: the same blocks as the new object of `<<`. */
    method ShiftLeftInPlace(shift: nat)
      requires Valid()
      modifies bits
      ensures Valid()
      ensures bits[..] == ShiftedLeft(old(bits[..]), numBits, shift)
      ensures forall pos: nat :: pos < numBits ==> Has(pos) == (pos >= shift && old(Has(pos - shift)))
    {
      hide ShlBlock, Shl, Shr, Or;
      ghost var s := bits[..];
      LeftShiftedBits(s, numBits, shift);
      if shift >= numBits {
        ResetAll();
        return;
      }
      var blockShift, bitShift := shift / 64, shift % 64;
      if blockShift > 0 {
        MoveUp(blockShift);
        FillZeros(0, blockShift);
      }
      assert bits[..] == MovedUp(s, blockShift);
      if bitShift > 0 { CarryUp(bitShift); }
      forall i | 0 <= i < |s| ensures bits[i] == ShlBlock(s, shift, i) { StagedLeft(s, shift, i); }
      assert bits[..] == ShiftedLeft(s, numBits, shift);
    }

    method ShiftRightInPlace(shift: nat)
      requires Valid()
      modifies bits
      ensures Valid()
      ensures bits[..] == ShiftedRight(old(bits[..]), numBits, shift)
      ensures old(Tidy()) ==> Tidy() && RightShiftIsLogical(old(bits[..]), numBits, shift)
    {
      hide ShrBlock, Shl, Shr, Or;
      ghost var s := bits[..];
      RightShiftedBits(s, numBits, shift);
      if shift >= numBits {
        ResetAll();
        return;
      }
      var blockShift, bitShift := shift / 64, shift % 64;
      if blockShift > 0 {
        MoveDown(blockShift);
        FillZeros(bits.Length - blockShift, bits.Length);
      }
      assert bits[..] == MovedDown(s, blockShift);
      if bitShift > 0 { CarryDown(bitShift); }
      forall i | 0 <= i < |s| ensures bits[i] == ShrBlock(s, shift, i) { StagedRight(s, shift, i); }
      assert bits[..] == ShiftedRight(s, numBits, shift);
    }

    method FillZeros(from: nat, to: nat)
      requires from <= to <= bits.Length
      modifies bits
      ensures forall j :: 0 <= j < bits.Length ==> bits[j] == if from <= j < to then 0 else old(bits[j])
    {
      for i := from to to
        invariant forall j :: 0 <= j < bits.Length ==> bits[j] == if from <= j < i then 0 else old(bits[j])
      {
        bits[i] := 0;
      }
    }

    /** From the top down, so that no block is read after it was overwritten. */
    method MoveUp(blocks: nat)
      requires 0 < blocks <= bits.Length
      modifies bits
      ensures forall j :: 0 <= j < bits.Length ==>
              bits[j] == if j >= blocks then old(bits[j - blocks]) else old(bits[j])
    {
      ghost var s := bits[..];
      var i := bits.Length;
      while i > blocks
        invariant blocks <= i <= bits.Length
        invariant forall j :: 0 <= j < i ==> bits[j] == s[j]
        invariant forall j :: i <= j < bits.Length ==> bits[j] == s[j - blocks]
      {
        i := i - 1;
        bits[i] := bits[i - blocks];
      }
    }

    method MoveDown(blocks: nat)
      requires 0 < blocks <= bits.Length
      modifies bits
      ensures forall j :: 0 <= j < bits.Length ==>
              bits[j] == if j < bits.Length - blocks then old(bits[j + blocks]) else old(bits[j])
    {
      ghost var s := bits[..];
      for i := 0 to bits.Length - blocks
        invariant forall j :: 0 <= j < i ==> bits[j] == s[j + blocks]
        invariant forall j :: i <= j < bits.Length ==> bits[j] == s[j]
      {
        bits[i] := bits[i + blocks];
      }
    }

    /** Shifts each block and ors in what the block below pushed out. */
    method CarryUp(bitShift: nat)
      requires 0 < bitShift < 64
      modifies bits
      ensures forall i :: 0 <= i < bits.Length ==> bits[i] == CarriedUp(old(bits[..]), bitShift, i)
    {
      hide Shl, Shr, Or;
      ghost var s := bits[..];
      var carry := 0;
      for i := 0 to bits.Length
        invariant carry == if i == 0 then 0 else Shr(s[i - 1], 64 - bitShift)
        invariant forall j :: 0 <= j < i ==> bits[j] == CarriedUp(s, bitShift, j)
        invariant forall j :: i <= j < bits.Length ==> bits[j] == s[j]
      {
        var temp := Shr(bits[i], 64 - bitShift);
        bits[i] := Or(Shl(bits[i], bitShift), carry);
        carry := temp;
      }
    }

    method CarryDown(bitShift: nat)
      requires 0 < bitShift < 64
      modifies bits
      ensures forall i :: 0 <= i < bits.Length ==> bits[i] == CarriedDown(old(bits[..]), bitShift, i)
    {
      hide Shl, Shr, Or;
      ghost var s := bits[..];
      var carry := 0;
      var i := bits.Length;
      while i > 0
        invariant 0 <= i <= bits.Length
        invariant carry == if i == |s| then 0 else Shl(s[i], 64 - bitShift)
        invariant forall j :: i <= j < bits.Length ==> bits[j] == CarriedDown(s, bitShift, j)
        invariant forall j :: 0 <= j < i ==> bits[j] == s[j]
      {
        i := i - 1;
        var temp := Shl(bits[i], 64 - bitShift);
        bits[i] := Or(Shr(bits[i], bitShift), carry);
        carry := temp;
      }
    }

    /** The members, in increasing order and without repetition. */
    method IndicesOfSetBits() returns (indices: seq<nat>)
      requires Valid()
      ensures forall i, j :: 0 <= i < j < |indices| ==> indices[i] < indices[j]
      ensures forall pos: nat :: pos in indices <==> pos < numBits && Has(pos)
    {
      indices := [];
      for i := 0 to numBits
        invariant forall a, b :: 0 <= a < b < |indices| ==> indices[a] < indices[b]
        invariant forall pos: nat :: pos in indices <==> pos < i && Has(pos)
      {
        assert forall a :: 0 <= a < |indices| ==> indices[a] in indices;
        var _, value := IsSet(i);
        if value { indices := indices + [i]; }
      }
    }
  }
}
