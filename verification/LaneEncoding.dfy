/**
 Vectorised zig-zag coders. Signed words are handled by their unsigned patterns,
 on which the vector instructions subtract and add with wrap-around.
 */
module LaneEncoding {
  import opened Words
  import Sequences
  import opened DeltaEncoding

  function Code(w: Width, x: nat, base: int): nat { w.ZigZag(w.ToSigned(w.Wrap(x - base))) }

  function Value(w: Width, e: nat, base: int): nat
    requires w.Unsigned(e)
  {
    w.Wrap(base + w.UnZigZagWord(e))
  }

  // ---------------------------------------------------------------------------
  // Chunked form: a whole block is coded against the last element of the previous block
  // ---------------------------------------------------------------------------

  /** Every element coded against one base. */
  function BlockCodes(w: Width, base: nat, s: seq<nat>): (e: seq<nat>)
    ensures |e| == |s| && forall i :: 0 <= i < |s| ==> e[i] == Code(w, s[i], base)
  {
    seq(|s|, i requires 0 <= i < |s| => Code(w, s[i], base))
  }

  function BlockValues(w: Width, base: nat, e: seq<nat>): (s: seq<nat>)
    requires AllUnsigned(w, e)
    ensures |s| == |e| && forall i :: 0 <= i < |e| ==> s[i] == Value(w, e[i], base)
  {
    seq(|e|, i requires 0 <= i < |e| => Value(w, e[i], base))
  }

  /** Blocks of `k`; what is left over is coded against the last element of the last whole block. */
  function ChunkCodes(w: Width, k: nat, base: nat, s: seq<nat>): seq<nat>
    requires k > 0
    decreases |s|
  {
    if |s| < k then BlockCodes(w, base, s)
    else BlockCodes(w, base, s[..k]) + ChunkCodes(w, k, s[k - 1], s[k..])
  }

  /** The decoder takes the base of a block from its own output. */
  function ChunkValues(w: Width, k: nat, base: nat, e: seq<nat>): seq<nat>
    requires k > 0 && AllUnsigned(w, e)
    decreases |e|
  {
    if |e| < k then BlockValues(w, base, e)
    else
      var block := BlockValues(w, base, e[..k]);
      block + ChunkValues(w, k, block[k - 1], e[k..])
  }

  lemma BlockRoundTrip(w: Width, base: nat, s: seq<nat>)
    requires AllUnsigned(w, s)
    ensures AllUnsigned(w, BlockCodes(w, base, s))
    ensures BlockValues(w, base, BlockCodes(w, base, s)) == s
  {
    forall i | 0 <= i < |s|
      ensures Value(w, Code(w, s[i], base), base) == s[i]
    {
      ZigZagCancels(w, base, s[i]);
    }
  }

  lemma {:induction false} ChunkCodesShape(w: Width, k: nat, base: nat, s: seq<nat>)
    requires k > 0
    ensures |ChunkCodes(w, k, base, s)| == |s| && AllUnsigned(w, ChunkCodes(w, k, base, s))
    decreases |s|
  {
    if |s| >= k { ChunkCodesShape(w, k, s[k - 1], s[k..]); }
  }

  /** The decoder inverts the encoder for every block size and every length, an incomplete last block included. */
  lemma {:induction false} ChunkedRoundTrip(w: Width, k: nat, base: nat, s: seq<nat>)
    requires k > 0 && AllUnsigned(w, s)
    ensures AllUnsigned(w, ChunkCodes(w, k, base, s))
    ensures ChunkValues(w, k, base, ChunkCodes(w, k, base, s)) == s
    decreases |s|
  {
    ChunkCodesShape(w, k, base, s);
    if |s| < k {
      BlockRoundTrip(w, base, s);
    } else {
      var block, rest := BlockCodes(w, base, s[..k]), ChunkCodes(w, k, s[k - 1], s[k..]);
      ChunkedRoundTrip(w, k, s[k - 1], s[k..]);
      BlockRoundTrip(w, base, s[..k]);
      assert Value(w, block[k - 1], base) == s[k - 1];
      assert ChunkValues(w, k, base, block + rest) == s[..k] + s[k..] by {
        ChunkValuesOfParts(w, k, base, block, rest);
      }
      assert s[..k] + s[k..] == s;
    }
  }

  lemma ChunkValuesOfParts(w: Width, k: nat, base: nat, block: seq<nat>, rest: seq<nat>)
    requires 0 < k == |block| && AllUnsigned(w, block) && AllUnsigned(w, rest)
    ensures AllUnsigned(w, block + rest)
    ensures ChunkValues(w, k, base, block + rest)
         == BlockValues(w, base, block) + ChunkValues(w, k, Value(w, block[k - 1], base), rest)
  {
    assert (block + rest)[..k] == block && (block + rest)[k..] == rest;
  }

  lemma BlockStep(s: seq<nat>, i: nat, k: nat)
    requires 0 < k && i + k <= |s|
    ensures s[i..][..k] == s[i..i + k] && s[i..][k..] == s[i + k..] && s[i..][k - 1] == s[i + k - 1]
  {
  }

  ghost function BlockAt(w: Width, base: nat, e: seq<nat>, from: nat, count: nat): (s: seq<nat>)
    requires from + count <= |e| && AllUnsigned(w, e)
    ensures |s| == count
  {
    BlockValues(w, base, e[from..from + count])
  }

  /** What the decoder still has to write from position `i` on. */
  ghost function ValuesFrom(w: Width, k: nat, base: nat, e: seq<nat>, i: nat): seq<nat>
    requires k > 0 && i <= |e| && AllUnsigned(w, e)
  {
    ChunkValues(w, k, base, e[i..])
  }

  lemma ValuesFromStep(w: Width, k: nat, base: nat, e: seq<nat>, i: nat)
    requires 0 < k && i <= |e| && AllUnsigned(w, e)
    ensures i + k > |e| ==> ValuesFrom(w, k, base, e, i) == BlockAt(w, base, e, i, |e| - i)
    ensures i + k <= |e| ==>
              var block := BlockAt(w, base, e, i, k);
              ValuesFrom(w, k, base, e, i) == block + ValuesFrom(w, k, block[k - 1], e, i + k)
  {
    if i + k <= |e| {
      BlockStep(e, i, k);
    } else {
      assert e[i..i + (|e| - i)] == e[i..];
    }
  }

  /** One block, or the left-over elements, coded against one base. */
  method EncodeBlock(w: Width, input: seq<nat>, base: nat, output: array<nat>, from: nat, count: nat)
    requires from + count <= |input| == output.Length
    modifies output
    ensures output[..from + count] == old(output[..from]) + BlockCodes(w, base, input[from..from + count])
  {
    for lane := 0 to count
      invariant forall j :: 0 <= j < from ==> output[j] == old(output[j])
      invariant forall j :: from <= j < from + lane ==> output[j] == Code(w, input[j], base)
    {
      output[from + lane] := Code(w, input[from + lane], base);
    }
  }

  method DecodeBlock(w: Width, input: seq<nat>, base: nat, output: array<nat>, from: nat, count: nat)
    requires from + count <= |input| == output.Length && AllUnsigned(w, input)
    modifies output
    ensures output[..from + count] == old(output[..from]) + BlockAt(w, base, input, from, count)
  {
    for lane := 0 to count
      invariant forall j :: 0 <= j < from ==> output[j] == old(output[j])
      invariant forall j :: from <= j < from + lane ==> output[j] == Value(w, input[j], base)
    {
      output[from + lane] := Value(w, input[from + lane], base);
    }
  }

  /** `encode_delta_zig_zag_chunked8_int32`, `..._chunked4_int32` and `..._chunked4_int64`. */
  method EncodeChunked(w: Width, k: nat, input: seq<nat>, initial: nat, output: array<nat>)
    requires k > 0 && output.Length == |input|
    modifies output
    ensures output[..] == ChunkCodes(w, k, initial, input)
  {
    var base := initial;
    var i := 0;
    assert input[0..] == input;
    while i + k <= |input|
      invariant i <= |input|
      invariant ChunkCodes(w, k, initial, input) == output[..i] + ChunkCodes(w, k, base, input[i..])
      decreases |input| - i
    {
      BlockStep(input, i, k);
      Sequences.Regroup(output[..i], BlockCodes(w, base, input[i..i + k]),
          ChunkCodes(w, k, input[i + k - 1], input[i + k..]));
      EncodeBlock(w, input, base, output, i, k);
      base := input[i + k - 1];
      i := i + k;
    }
    assert input[i..|input|] == input[i..];
    EncodeBlock(w, input, base, output, i, |input| - i);
    assert output[..output.Length] == output[..];
  }

  /** The decoders with a base per block; a base is read back from the output already written. */
  method DecodeChunked(w: Width, k: nat, input: seq<nat>, initial: nat, output: array<nat>)
    requires k > 0 && output.Length == |input| && AllUnsigned(w, input)
    modifies output
    ensures output[..] == ChunkValues(w, k, initial, input)
  {
    hide ChunkValues, ValuesFrom, BlockAt, AllUnsigned;
    ghost var whole := ChunkValues(w, k, initial, input);
    ValuesFromStart(w, k, initial, input);
    var base := initial;
    var i := 0;
    assert output[..0] == [] && [] + whole == whole;
    while i + k <= |input|
      invariant i <= |input|
      invariant whole == output[..i] + ValuesFrom(w, k, base, input, i)
      decreases |input| - i
    {
      base := DecodeNext(w, k, input, base, output, i);
      i := i + k;
    }
    ValuesFromStep(w, k, base, input, i);
    DecodeBlock(w, input, base, output, i, |input| - i);
    assert output[..i + (|input| - i)] == output[..];
  }

  lemma ValuesFromStart(w: Width, k: nat, base: nat, e: seq<nat>)
    requires k > 0 && AllUnsigned(w, e)
    ensures ValuesFrom(w, k, base, e, 0) == ChunkValues(w, k, base, e)
  {
    assert e[0..] == e;
  }

  /** One whole block of the decoder; returns the base of the next. */
  method DecodeNext(w: Width, k: nat, input: seq<nat>, base: nat, output: array<nat>, i: nat) returns (next: nat)
    requires 0 < k && i + k <= |input| == output.Length && AllUnsigned(w, input)
    modifies output
    ensures old(output[..i]) + ValuesFrom(w, k, base, input, i) ==
            output[..i + k] + ValuesFrom(w, k, next, input, i + k)
  {
    ValuesFromStep(w, k, base, input, i);
    ghost var block := BlockAt(w, base, input, i, k);
    Sequences.Regroup(output[..i], block, ValuesFrom(w, k, block[k - 1], input, i + k));
    DecodeBlock(w, input, base, output, i, k);
    next := output[i + k - 1];
    assert next == output[..i + k][i + k - 1] == block[k - 1];
  }

  // ---------------------------------------------------------------------------
  // Lane form of the plain delta coder: several neighbours are differenced at once
  // ---------------------------------------------------------------------------

  lemma {:induction false} ZigZagDeltaAt(w: Width, base: int, s: seq<nat>, i: nat)
    requires i < |s|
    ensures |ZigZagDeltas(w, base, s)| == |s|
    ensures ZigZagDeltas(w, base, s)[i] == Code(w, s[i], if i == 0 then base else s[i - 1])
    decreases i
  {
    ZigZagDeltasShape(w, base, s);
    if i > 0 { ZigZagDeltaAt(w, s[0], s[1..], i - 1); }
  }

  /**
   The vector branch of `encode_delta_zig_zag_int32` (four lanes) and `_int64`
   (two lanes) for unaligned buffers: lanes from index 1 on, then the first
   element, then the rest. It agrees with the scalar loop.
   */
  method EncodeDeltaLanes(w: Width, k: nat, input: seq<nat>, initial: nat, output: array<nat>)
    requires k > 0 && output.Length == |input|
    modifies output
    ensures output[..] == ZigZagDeltas(w, initial, input)
  {
    if |input| == 0 { return; }
    var i := 1;
    while i + k <= |input|
      invariant 1 <= i <= |input|
      invariant forall j :: 1 <= j < i ==> output[j] == Code(w, input[j], input[j - 1])
      decreases |input| - i
    {
      for lane := 0 to k
        invariant forall j :: 1 <= j < i + lane ==> output[j] == Code(w, input[j], input[j - 1])
      {
        output[i + lane] := Code(w, input[i + lane], input[i + lane - 1]);
      }
      i := i + k;
    }
    output[0] := Code(w, input[0], initial);
    var previous := input[i - 1];
    while i < |input|
      invariant 1 <= i <= |input| && previous == input[i - 1]
      invariant output[0] == Code(w, input[0], initial)
      invariant forall j :: 1 <= j < i ==> output[j] == Code(w, input[j], input[j - 1])
    {
      output[i] := Code(w, input[i], previous);
      previous := input[i];
      i := i + 1;
    }
    ZigZagDeltasShape(w, initial, input);
    forall j | 0 <= j < |input|
      ensures output[j] == ZigZagDeltas(w, initial, input)[j]
    {
      ZigZagDeltaAt(w, initial, input, j);
    }
  }

  /**
   SSE2 has no 64-bit arithmetic shift: the coder builds the sign mask from the
   logical shift by 63 and the 32-bit arithmetic shift of the duplicated high half.
   */
  lemma SignMask64(delta: bv64, halves: bv64)
    requires halves == if delta & 0x8000_0000_0000_0000 != 0 then 0xFFFF_FFFF_FFFF_FFFF else 0
    ensures (delta >> 63) | (halves << 1) == halves
  {
  }
}
