/**
 Run coding of 32-bit words. Every coder keeps the least significant bit of an
 emitted word as a tag: 0 for a literal, 1 for a run.
 */
module RepeatEncoding {
  import opened Words
  import Sequences

  function Repeat(v: nat, n: nat): (s: seq<nat>)
    ensures |s| == n && forall i :: 0 <= i < n ==> s[i] == v
  {
    seq(n, i => v)
  }

  lemma RepeatStep(v: nat, n: nat, s: seq<nat>)
    ensures Repeat(v, n + 1) + s == Repeat(v, n) + ([v] + s)
  {
  }

  /** `v << 1`. */
  function Literal(v: nat): nat { W32.Wrap(2 * v) }

  // ---------------------------------------------------------------------------
  // Runs of zeros
  // ---------------------------------------------------------------------------

  /** `(count << 1) | 1`, or nothing when no zero is pending. */
  function FlushZeros(count: nat): seq<nat> {
    if count > 0 then [W32.Wrap(2 * count) + 1] else []
  }

  /** What the encoder still emits when `last` is its remembered value and `count` zeros are pending. */
  function ZeroRuns(last: nat, count: nat, s: seq<nat>): seq<nat>
    decreases |s|
  {
    if s == [] then FlushZeros(count)
    else if s[0] == 0 && s[0] == last then ZeroRuns(last, W32.Wrap(count + 1), s[1..])
    else FlushZeros(count) + ([Literal(s[0])] + ZeroRuns(s[0], 0, s[1..]))
  }

  /** The meaning of a coded sequence: a tagged word stands for that many zeros. */
  function ExpandZeros(e: seq<nat>): seq<nat> {
    if e == [] then []
    else (if e[0] % 2 == 1 then Repeat(0, e[0] / 2) else [e[0] / 2]) + ExpandZeros(e[1..])
  }

  lemma ExpandZerosCons(word: nat, e: seq<nat>)
    ensures word % 2 == 1 ==> ExpandZeros([word] + e) == Repeat(0, word / 2) + ExpandZeros(e)
    ensures word % 2 == 0 ==> ExpandZeros([word] + e) == [word / 2] + ExpandZeros(e)
  {
    assert ([word] + e)[1..] == e;
  }

  lemma ExpandZerosFlush(count: nat, e: seq<nat>)
    requires count < 0x8000_0000
    ensures ExpandZeros(FlushZeros(count) + e) == Repeat(0, count) + ExpandZeros(e)
  {
    if count > 0 {
      ExpandZerosCons(2 * count + 1, e);
    } else {
      assert FlushZeros(0) + e == e;
    }
  }

  lemma ZeroLiteralStep(last: nat, count: nat, s: seq<nat>)
    requires count < 0x8000_0000
    requires s != [] && s[0] < 0x8000_0000 && !(s[0] == 0 && s[0] == last)
    requires ExpandZeros(ZeroRuns(s[0], 0, s[1..])) == s[1..]
    ensures ExpandZeros(ZeroRuns(last, count, s)) == Repeat(0, count) + s
  {
    var rest := ZeroRuns(s[0], 0, s[1..]);
    var words := [2 * s[0]] + rest;
    hide *;
    ZeroLiteralUnfold(last, count, s);
    ExpandZerosCons(2 * s[0], rest);
    ExpandZerosFlush(count, words);
    Sequences.HeadTail(s);
  }

  lemma ZeroLiteralUnfold(last: nat, count: nat, s: seq<nat>)
    requires s != [] && s[0] < 0x8000_0000 && !(s[0] == 0 && s[0] == last)
    ensures ZeroRuns(last, count, s) == FlushZeros(count) + ([2 * s[0]] + ZeroRuns(s[0], 0, s[1..]))
  {
    hide ExpandZeros, Repeat, FlushZeros;
    assert Literal(s[0]) == 2 * s[0];
  }

  lemma {:induction false} ZeroRunsExpand(last: nat, count: nat, s: seq<nat>)
    requires count + |s| < 0x8000_0000
    requires forall i :: 0 <= i < |s| ==> s[i] < 0x8000_0000
    ensures ExpandZeros(ZeroRuns(last, count, s)) == Repeat(0, count) + s
    decreases |s|
  {
    if s == [] {
      ExpandZerosFlush(count, []);
      assert FlushZeros(count) + [] == FlushZeros(count);
    } else if s[0] == 0 && s[0] == last {
      WrapSmall(W32, count + 1);
      ZeroRunsExpand(last, count + 1, s[1..]);
      RepeatStep(0, count, s[1..]);
      assert [s[0]] + s[1..] == s;
    } else {
      ZeroRunsExpand(s[0], 0, s[1..]);
      assert Repeat(0, 0) + s[1..] == s[1..];
      ZeroLiteralStep(last, count, s);
    }
  }

  /** A flush and a literal behind what is finished. */
  lemma FlushAndLiteral(done: seq<nat>, pending: seq<nat>, v: nat, rest: seq<nat>)
    ensures done + (pending + ([v] + rest)) == (done + pending + [v]) + rest
  {
  }

  /** The code of a sequence, as the encoder starts it: the first element is remembered, nothing is pending. */
  function EncodedZeros(s: seq<nat>): seq<nat>
    requires s != []
  {
    ZeroRuns(s[0], 0, s)
  }

  lemma ZeroRoundTrip(s: seq<nat>)
    requires 0 < |s| < 0x8000_0000
    requires forall i :: 0 <= i < |s| ==> s[i] < 0x8000_0000
    ensures ExpandZeros(EncodedZeros(s)) == s
  {
    ZeroRunsExpand(s[0], 0, s);
    assert Repeat(0, 0) + s == s;
  }

  lemma {:induction false} ZeroRunsNeverLonger(last: nat, count: nat, s: seq<nat>)
    ensures |ZeroRuns(last, count, s)| <= |s| + if count > 0 then 1 else 0
    ensures AllUnsigned(W32, ZeroRuns(last, count, s))
    ensures s != [] && count + |s| < W32.Modulus() ==> ZeroRuns(last, count, s) != []
    decreases |s|
  {
    if s == [] {
    } else if s[0] == 0 && s[0] == last {
      ZeroRunsNeverLonger(last, W32.Wrap(count + 1), s[1..]);
    } else {
      ZeroRunsNeverLonger(s[0], 0, s[1..]);
    }
  }

  /**
   The encoder run in place: input and output are the same buffer. The write
   position stays behind the read position, so every word is read before it is
   overwritten, and nothing past the emitted words is touched.
   */
  method EncodeZeroWithRepeats(buffer: array<nat>, n: nat) returns (size: nat)
    requires 0 < n <= buffer.Length
    modifies buffer
    ensures size <= n
    ensures buffer[..size] == EncodedZeros(old(buffer[..n]))
    ensures forall k :: size <= k < buffer.Length ==> buffer[k] == old(buffer[k])
  {
    ghost var s := buffer[..n];
    var last, count := buffer[0], 0;
    size := 0;
    var i := 0;
    assert s[0..] == s;
    while i < n
      invariant i <= n
      invariant size + (if count > 0 then 1 else 0) <= i
      invariant forall k :: size <= k < buffer.Length ==> buffer[k] == old(buffer[k])
      invariant EncodedZeros(s) == buffer[..size] + ZeroRuns(last, count, s[i..])
    {
      assert s[i..][0] == buffer[i] && s[i..][1..] == s[i + 1..];
      if buffer[i] == 0 && buffer[i] == last {
        count := W32.Wrap(count + 1);
      } else {
        last := buffer[i];
        FlushAndLiteral(buffer[..size], FlushZeros(count), Literal(last), ZeroRuns(last, 0, s[i + 1..]));
        size := PutZeros(buffer, size, count);
        count := 0;
        size := Put(buffer, size, Literal(last));
      }
      i := i + 1;
    }
    size := PutZeros(buffer, size, count);
  }

  /** `output[size++] = word`. */
  method Put(buffer: array<nat>, start: nat, word: nat) returns (size: nat)
    requires start < buffer.Length
    modifies buffer
    ensures size == start + 1
    ensures buffer[..size] == old(buffer[..start]) + [word]
    ensures forall k :: size <= k < buffer.Length ==> buffer[k] == old(buffer[k])
  {
    buffer[start] := word;
    size := start + 1;
  }

  /** Writes out the pending zeros, if any. */
  method PutZeros(buffer: array<nat>, start: nat, count: nat) returns (size: nat)
    requires start + (if count > 0 then 1 else 0) <= buffer.Length
    modifies buffer
    ensures size == start + if count > 0 then 1 else 0
    ensures buffer[..size] == old(buffer[..start]) + FlushZeros(count)
    ensures forall k :: size <= k < buffer.Length ==> buffer[k] == old(buffer[k])
  {
    size := start;
    if count > 0 {
      size := Put(buffer, size, W32.Wrap(2 * count) + 1);
    }
  }

  /** The inner loop of all three decoders: writes one run. */
  method FillRun(decoded: array<nat>, start: nat, v: nat, run: nat) returns (size: nat)
    requires start + run <= decoded.Length
    modifies decoded
    ensures size == start + run
    ensures decoded[..size] == old(decoded[..start]) + Repeat(v, run)
  {
    size := start;
    var j := 0;
    while j < run
      invariant j <= run && size == start + j
      invariant decoded[..size] == old(decoded[..start]) + Repeat(v, j)
    {
      decoded[size] := v;
      size := size + 1;
      j := j + 1;
    }
  }

  /** One word of the code and the words after it. */
  lemma ExpandZerosAt(done: seq<nat>, e: seq<nat>, i: nat)
    requires i < |e|
    ensures
      var piece := if e[i] % 2 == 1 then Repeat(0, e[i] / 2) else [e[i] / 2];
      done + ExpandZeros(e[i..]) == (done + piece) + ExpandZeros(e[i + 1..])
  {
    assert e[i..][0] == e[i] && e[i..][1..] == e[i + 1..];
    var piece := if e[i] % 2 == 1 then Repeat(0, e[i] / 2) else [e[i] / 2];
    assert ExpandZeros(e[i..]) == piece + ExpandZeros(e[i + 1..]);
    hide *;
    Sequences.Regroup(done, piece, ExpandZeros(e[i + 1..]));
  }

  /** The decoder: expands `encoded` into the front of `decoded`, which must be large enough. */
  method DecodeZeroWithRepeats(encoded: seq<nat>, decoded: array<nat>) returns (size: nat)
    requires |ExpandZeros(encoded)| <= decoded.Length
    modifies decoded
    ensures size == |ExpandZeros(encoded)|
    ensures decoded[..size] == ExpandZeros(encoded)
  {
    size := 0;
    var i := 0;
    assert encoded[0..] == encoded;
    assert ExpandZeros([]) == [];
    hide ExpandZeros, Repeat;
    while i < |encoded|
      invariant i <= |encoded|
      invariant size <= decoded.Length
      invariant ExpandZeros(encoded) == decoded[..size] + ExpandZeros(encoded[i..])
    {
      var value := encoded[i];
      ExpandZerosAt(decoded[..size], encoded, i);
      if value % 2 == 1 {
        var run := value / 2;
        size := FillRun(decoded, size, 0, run);
      } else {
        size := Put(decoded, size, value / 2);
      }
      i := i + 1;
    }
    assert encoded[|encoded|..] == [];
  }

  // ---------------------------------------------------------------------------
  // Runs of any small value, packed with their length in one word
  // ---------------------------------------------------------------------------

  /** `((v << 1) | 1) | (count << (bits + 1))`: the value and the count occupy disjoint bits, so the union is a sum. */
  function PackedWord(w: Width, bits: nat, v: nat, count: nat): nat {
    w.Wrap(2 * v) + 1 + w.Wrap(ShiftLeft(count, bits + 1))
  }

  function FlushPacked(w: Width, bits: nat, v: nat, count: nat): seq<nat> {
    if count > 0 then [PackedWord(w, bits, v, count)] else []
  }

  function PackedRuns(w: Width, bits: nat, last: nat, count: nat, s: seq<nat>): seq<nat>
    decreases |s|
  {
    if s == [] then FlushPacked(w, bits, last, count)
    else if s[0] < ShiftLeft(1, bits) && s[0] == last then PackedRuns(w, bits, last, w.Wrap(count + 1), s[1..])
    else FlushPacked(w, bits, last, count) + ([w.Wrap(2 * s[0])] + PackedRuns(w, bits, s[0], 0, s[1..]))
  }

  function ExpandPackedWord(bits: nat, word: nat): seq<nat> {
    if word % 2 == 1 then Repeat(LowBits(word / 2, bits), ShiftRight(word, bits + 1)) else [word / 2]
  }

  function ExpandPacked(bits: nat, e: seq<nat>): seq<nat> {
    if e == [] then [] else ExpandPackedWord(bits, e[0]) + ExpandPacked(bits, e[1..])
  }

  lemma ExpandPackedCons(bits: nat, word: nat, e: seq<nat>)
    ensures ExpandPacked(bits, [word] + e) == ExpandPackedWord(bits, word) + ExpandPacked(bits, e)
    ensures word % 2 == 0 ==> ExpandPacked(bits, [word] + e) == [word / 2] + ExpandPacked(bits, e)
  {
    assert ([word] + e)[1..] == e;
  }

  /** No value that fits in `bits` is repeated `limit` times in a row. */
  ghost predicate ShortRuns(bits: nat, limit: nat, s: seq<nat>) {
    forall i :: 0 <= i && i + limit <= |s| ==> !UniformWindow(bits, s, i, limit)
  }

  ghost predicate UniformWindow(bits: nat, s: seq<nat>, start: nat, length: nat)
    requires start + length <= |s|
  {
    length > 0 && s[start] < ShiftLeft(1, bits) && forall j :: start <= j < start + length ==> s[j] == s[start]
  }

  lemma ShortRunsSuffix(bits: nat, limit: nat, s: seq<nat>, k: nat)
    requires ShortRuns(bits, limit, s) && k <= |s|
    ensures ShortRuns(bits, limit, s[k..])
  {
    forall i | 0 <= i && i + limit <= |s[k..]|
      ensures !UniformWindow(bits, s[k..], i, limit)
    {
      assert !UniformWindow(bits, s, i + k, limit);
      assert s[k..][i..i + limit] == s[i + k..i + k + limit];
    }
  }

  /** The position of a word's highest bit. */
  function TopBit(w: Width): nat { match w case W32 => 31 case W64 => 63 }

  /** The first run length that no longer fits: the word has one bit for the tag and `bits` for the value. */
  function RunLimit(w: Width, bits: nat): nat
    requires bits < TopBit(w)
  {
    ShiftLeft(1, TopBit(w) - bits)
  }

  lemma {:induction false} ShiftLeftGrows(x: nat, k: nat)
    ensures ShiftLeft(x, k) >= x
  {
    if k > 0 { ShiftLeftGrows(x, k - 1); }
  }

  lemma RunLimitFits(w: Width, bits: nat)
    requires bits < TopBit(w)
    ensures RunLimit(w, bits) <= w.Half()
  {
    ShiftLeftTwice(1, TopBit(w) - bits, bits);
    ShiftLeftGrows(RunLimit(w, bits), bits);
    ShiftLeftHalf();
  }

  /** A packed word takes apart into its value and its count. */
  lemma PackedWordUnpacks(w: Width, bits: nat, v: nat, count: nat)
    requires bits < TopBit(w)
    requires v < ShiftLeft(1, bits)
    requires count < RunLimit(w, bits)
    ensures PackedWord(w, bits, v, count) % 2 == 1
    ensures LowBits(PackedWord(w, bits, v, count) / 2, bits) == v
    ensures ShiftRight(PackedWord(w, bits, v, count), bits + 1) == count
  {
    var word := 2 * v + 1 + ShiftLeft(count, bits + 1);
    assert PackedWord(w, bits, v, count) == word by { PackedWordFits(w, bits, v, count); }
    FieldsSeparate(v, count, bits);
  }

  lemma PackedWordFits(w: Width, bits: nat, v: nat, count: nat)
    requires bits < TopBit(w)
    requires v < ShiftLeft(1, bits)
    requires count < RunLimit(w, bits)
    ensures PackedWord(w, bits, v, count) == 2 * v + 1 + ShiftLeft(count, bits + 1)
  {
    var high := ShiftLeft(count, bits);
    assert high + ShiftLeft(1, bits) <= w.Half() by {
      ShiftLeftStrict(count, RunLimit(w, bits), bits);
      ShiftLeftTwice(1, TopBit(w) - bits, bits);
      ShiftLeftHalf();
    }
    assert w.Unsigned(2 * v) && w.Unsigned(2 * high) by {
      assert v < ShiftLeft(1, bits);
    }
    WrapSmall(w, 2 * v);
    WrapSmall(w, 2 * high);
  }

  lemma ExpandPackedFlush(w: Width, bits: nat, v: nat, count: nat, e: seq<nat>)
    requires bits < TopBit(w)
    requires count > 0 ==> v < ShiftLeft(1, bits)
    requires count < RunLimit(w, bits)
    ensures ExpandPacked(bits, FlushPacked(w, bits, v, count) + e) == Repeat(v, count) + ExpandPacked(bits, e)
  {
    if count > 0 {
      PackedWordUnpacks(w, bits, v, count);
      ExpandPackedCons(bits, PackedWord(w, bits, v, count), e);
    } else {
      assert FlushPacked(w, bits, v, 0) + e == e;
    }
  }

  lemma ExpandLiteral(bits: nat, v: nat, rest: seq<nat>)
    ensures ExpandPacked(bits, [2 * v] + rest) == [v] + ExpandPacked(bits, rest)
  {
    ExpandPackedCons(bits, 2 * v, rest);
  }

  lemma PackedLiteralStep(w: Width, bits: nat, last: nat, count: nat, v: nat, rest: seq<nat>)
    requires bits < TopBit(w) && count < RunLimit(w, bits)
    requires count > 0 ==> last < ShiftLeft(1, bits)
    ensures ExpandPacked(bits, FlushPacked(w, bits, last, count) + ([2 * v] + rest))
         == Repeat(last, count) + ([v] + ExpandPacked(bits, rest))
  {
    hide FlushPacked, ShiftLeft, RunLimit, Repeat;
    ExpandPackedFlush(w, bits, last, count, [2 * v] + rest);
    hide ExpandPacked;
    ExpandLiteral(bits, v, rest);
  }

  lemma PackedUnfold(w: Width, bits: nat, last: nat, count: nat, s: seq<nat>)
    requires s != [] && s[0] < w.Half() && !(s[0] < ShiftLeft(1, bits) && s[0] == last)
    ensures PackedRuns(w, bits, last, count, s)
         == FlushPacked(w, bits, last, count) + ([2 * s[0]] + PackedRuns(w, bits, s[0], 0, s[1..]))
  {
    WrapSmall(w, 2 * s[0]);
  }

  lemma {:induction false} PackedRunsExpand(w: Width, bits: nat, last: nat, count: nat, s: seq<nat>)
    requires bits < TopBit(w)
    requires forall i :: 0 <= i < |s| ==> s[i] < w.Half()
    requires count > 0 ==> last < ShiftLeft(1, bits)
    requires ShortRuns(bits, RunLimit(w, bits), Repeat(last, count) + s)
    ensures ExpandPacked(bits, PackedRuns(w, bits, last, count, s)) == Repeat(last, count) + s
    decreases |s|
  {
    ShortPrefix(w, bits, last, count, s);
    assert s != [] ==> [s[0]] + s[1..] == s;
    if s == [] {
      ExpandPackedFlush(w, bits, last, count, []);
      assert FlushPacked(w, bits, last, count) + [] == FlushPacked(w, bits, last, count);
    } else if s[0] < ShiftLeft(1, bits) && s[0] == last {
      RepeatStep(last, count, s[1..]);
      RunLimitFits(w, bits);
      WrapSmall(w, count + 1);
      PackedRunsExpand(w, bits, last, count + 1, s[1..]);
    } else {
      ShortTail(bits, RunLimit(w, bits), last, count, s);
      PackedRunsExpand(w, bits, s[0], 0, s[1..]);
      PackedLiteralStep(w, bits, last, count, s[0], PackedRuns(w, bits, s[0], 0, s[1..]));
      PackedUnfold(w, bits, last, count, s);
    }
  }

  lemma ShortTail(bits: nat, limit: nat, v: nat, count: nat, s: seq<nat>)
    requires s != []
    requires ShortRuns(bits, limit, Repeat(v, count) + s)
    ensures Repeat(s[0], 0) + s[1..] == s[1..]
    ensures ShortRuns(bits, limit, s[1..])
  {
    ShortRunsSuffix(bits, limit, Repeat(v, count) + s, count + 1);
    assert (Repeat(v, count) + s)[count + 1..] == s[1..];
  }

  lemma UniformPrefix(bits: nat, v: nat, count: nat, s: seq<nat>, limit: nat)
    requires 0 < limit <= count && v < ShiftLeft(1, bits)
    ensures UniformWindow(bits, Repeat(v, count) + s, 0, limit)
  {
    var whole := Repeat(v, count) + s;
    assert forall j :: 0 <= j < limit ==> whole[j] == v;
  }

  lemma ShortPrefix(w: Width, bits: nat, v: nat, count: nat, s: seq<nat>)
    requires bits < TopBit(w)
    requires count > 0 ==> v < ShiftLeft(1, bits)
    requires ShortRuns(bits, RunLimit(w, bits), Repeat(v, count) + s)
    ensures count < RunLimit(w, bits)
  {
    ShiftLeftPositive(TopBit(w) - bits);
    hide ShiftLeft, Repeat, UniformWindow;
    if count >= RunLimit(w, bits) { UniformPrefix(bits, v, count, s, RunLimit(w, bits)); }
  }

  /**
   The packed coder loses nothing while values keep their top bit free and run lengths fit
   in the bits left for them.
   */
  lemma PackedRoundTrip(w: Width, bits: nat, s: seq<nat>)
    requires bits < TopBit(w) && s != []
    requires forall i :: 0 <= i < |s| ==> s[i] < w.Half()
    requires ShortRuns(bits, RunLimit(w, bits), s)
    ensures ExpandPacked(bits, PackedRuns(w, bits, s[0], 0, s)) == s
  {
    assert Repeat(s[0], 0) + s == s;
    PackedRunsExpand(w, bits, s[0], 0, s);
  }

  lemma {:induction false} PackedRunsNeverLonger(w: Width, bits: nat, last: nat, count: nat, s: seq<nat>)
    ensures |PackedRuns(w, bits, last, count, s)| <= |s| + if count > 0 then 1 else 0
    decreases |s|
  {
    if s == [] {
    } else if s[0] < ShiftLeft(1, bits) && s[0] == last {
      PackedRunsNeverLonger(w, bits, last, w.Wrap(count + 1), s[1..]);
    } else {
      PackedRunsNeverLonger(w, bits, s[0], 0, s[1..]);
    }
  }

  method EncodeWithRepeats(w: Width, input: seq<nat>, bits: nat, output: array<nat>) returns (size: nat)
    requires 0 < |input| <= output.Length
    requires bits < TopBit(w)
    modifies output
    ensures size <= |input|
    ensures output[..size] == PackedRuns(w, bits, input[0], 0, input)
  {
    var last, count := input[0], 0;
    size := 0;
    var i := 0;
    assert input[0..] == input;
    while i < |input|
      invariant i <= |input|
      invariant size + (if count > 0 then 1 else 0) <= i
      invariant PackedRuns(w, bits, input[0], 0, input) == output[..size] + PackedRuns(w, bits, last, count, input[i..])
    {
      assert input[i..][0] == input[i] && input[i..][1..] == input[i + 1..];
      if input[i] < ShiftLeft(1, bits) && input[i] == last {
        count := w.Wrap(count + 1);
      } else {
        FlushAndLiteral(output[..size], FlushPacked(w, bits, last, count), w.Wrap(2 * input[i]),
            PackedRuns(w, bits, input[i], 0, input[i + 1..]));
        size := PutPacked(w, bits, output, size, last, count);
        last, count := input[i], 0;
        size := Put(output, size, w.Wrap(2 * last));
      }
      i := i + 1;
    }
    size := PutPacked(w, bits, output, size, last, count);
  }

  method PutPacked(w: Width, bits: nat, buffer: array<nat>, start: nat, v: nat, count: nat) returns (size: nat)
    requires start + (if count > 0 then 1 else 0) <= buffer.Length
    modifies buffer
    ensures size == start + if count > 0 then 1 else 0
    ensures buffer[..size] == old(buffer[..start]) + FlushPacked(w, bits, v, count)
  {
    size := start;
    if count > 0 {
      size := Put(buffer, size, PackedWord(w, bits, v, count));
    }
  }

  lemma ExpandPackedAt(bits: nat, done: seq<nat>, e: seq<nat>, i: nat)
    requires i < |e|
    ensures done + ExpandPacked(bits, e[i..]) == (done + ExpandPackedWord(bits, e[i])) + ExpandPacked(bits, e[i + 1..])
  {
    assert e[i..][0] == e[i] && e[i..][1..] == e[i + 1..];
    var piece := ExpandPackedWord(bits, e[i]);
    assert ExpandPacked(bits, e[i..]) == piece + ExpandPacked(bits, e[i + 1..]);
    hide *;
    Sequences.Regroup(done, piece, ExpandPacked(bits, e[i + 1..]));
  }

  method DecodeWithRepeats(encoded: seq<nat>, bits: nat, decoded: array<nat>) returns (size: nat)
    requires |ExpandPacked(bits, encoded)| <= decoded.Length
    modifies decoded
    ensures size == |ExpandPacked(bits, encoded)|
    ensures decoded[..size] == ExpandPacked(bits, encoded)
  {
    size := 0;
    var i := 0;
    assert encoded[0..] == encoded;
    assert ExpandPacked(bits, []) == [];
    hide ExpandPacked, Repeat, LowBits, ShiftRight;
    while i < |encoded|
      invariant i <= |encoded|
      invariant size <= decoded.Length
      invariant ExpandPacked(bits, encoded) == decoded[..size] + ExpandPacked(bits, encoded[i..])
    {
      var word := encoded[i];
      ExpandPackedAt(bits, decoded[..size], encoded, i);
      if word % 2 == 1 {
        var v, run := LowBits(word / 2, bits), ShiftRight(word, bits + 1);
        size := FillRun(decoded, size, v, run);
      } else {
        size := Put(decoded, size, word / 2);
      }
      i := i + 1;
    }
    assert encoded[|encoded|..] == [];
  }

  // ---------------------------------------------------------------------------
  // Run length in a word of its own, for runs of four and more
  // ---------------------------------------------------------------------------

  function FlushRun(v: nat, count: nat): seq<nat> {
    if count >= 4 then [Literal(v) + 1, count] else Repeat(Literal(v), count)
  }

  function LengthRuns(last: nat, count: nat, s: seq<nat>): seq<nat>
    decreases |s|
  {
    if s == [] then FlushRun(last, count)
    else if s[0] == last then LengthRuns(last, W32.Wrap(count + 1), s[1..])
    else FlushRun(last, count) + ([Literal(s[0])] + LengthRuns(s[0], 0, s[1..]))
  }

  /** Every tagged word is followed by its count. */
  predicate CompleteRuns(e: seq<nat>) {
    e == [] || if e[0] % 2 == 1 then |e| >= 2 && CompleteRuns(e[2..]) else CompleteRuns(e[1..])
  }

  function ExpandRuns(e: seq<nat>): seq<nat>
    requires CompleteRuns(e)
  {
    if e == [] then []
    else if e[0] % 2 == 1 then Repeat(e[0] / 2, e[1]) + ExpandRuns(e[2..])
    else [e[0] / 2] + ExpandRuns(e[1..])
  }

  lemma ExpandRunsLiteral(v: nat, e: seq<nat>)
    requires v < 0x8000_0000 && CompleteRuns(e)
    ensures CompleteRuns([Literal(v)] + e)
    ensures ExpandRuns([Literal(v)] + e) == [v] + ExpandRuns(e)
  {
    assert ([Literal(v)] + e)[1..] == e;
  }

  lemma {:induction false} ExpandRunsLiterals(v: nat, n: nat, e: seq<nat>)
    requires v < 0x8000_0000 && CompleteRuns(e)
    ensures CompleteRuns(Repeat(Literal(v), n) + e)
    ensures ExpandRuns(Repeat(Literal(v), n) + e) == Repeat(v, n) + ExpandRuns(e)
  {
    if n == 0 {
      assert Repeat(Literal(v), 0) + e == e;
    } else {
      ExpandRunsLiteral(v, e);
      ExpandRunsLiterals(v, n - 1, [Literal(v)] + e);
      RepeatStep(Literal(v), n - 1, e);
      RepeatStep(v, n - 1, ExpandRuns(e));
    }
  }

  lemma ExpandRunsFlush(v: nat, count: nat, e: seq<nat>)
    requires v < 0x8000_0000 && CompleteRuns(e)
    ensures CompleteRuns(FlushRun(v, count) + e)
    ensures ExpandRuns(FlushRun(v, count) + e) == Repeat(v, count) + ExpandRuns(e)
  {
    if count >= 4 {
      assert ([Literal(v) + 1, count] + e)[2..] == e;
    } else {
      ExpandRunsLiterals(v, count, e);
    }
  }

  /** The 32-bit counter of the encoder never wraps: `count` elements of the current run have been counted. */
  predicate RunsCountable(last: nat, count: nat, s: seq<nat>)
    decreases |s|
  {
    s == []
    || (if s[0] == last then count + 1 < W32.Modulus() && RunsCountable(last, count + 1, s[1..])
        else RunsCountable(s[0], 0, s[1..]))
  }

  lemma {:induction false} ShortInputsAreCountable(last: nat, count: nat, s: seq<nat>)
    requires count + |s| < W32.Modulus()
    ensures RunsCountable(last, count, s)
    decreases |s|
  {
    if s != [] { ShortInputsAreCountable(s[0], if s[0] == last then count + 1 else 0, s[1..]); }
  }

  lemma LengthLiteralStep(last: nat, count: nat, s: seq<nat>)
    requires last < 0x8000_0000 && s != [] && s[0] < 0x8000_0000 && s[0] != last
    requires CompleteRuns(LengthRuns(s[0], 0, s[1..]))
    ensures CompleteRuns(LengthRuns(last, count, s))
    ensures ExpandRuns(LengthRuns(last, count, s)) ==
            Repeat(last, count) + ([s[0]] + ExpandRuns(LengthRuns(s[0], 0, s[1..])))
  {
    var rest := LengthRuns(s[0], 0, s[1..]);
    assert LengthRuns(last, count, s) == FlushRun(last, count) + ([Literal(s[0])] + rest);
    ExpandRunsLiteral(s[0], rest);
    ExpandRunsFlush(last, count, [Literal(s[0])] + rest);
  }

  lemma LengthRunsEnd(last: nat, count: nat)
    requires last < 0x8000_0000
    ensures CompleteRuns(LengthRuns(last, count, []))
    ensures ExpandRuns(LengthRuns(last, count, [])) == Repeat(last, count)
  {
    ExpandRunsFlush(last, count, []);
    assert FlushRun(last, count) + [] == FlushRun(last, count);
    assert Repeat(last, count) + [] == Repeat(last, count);
  }

  /** The code expands to the input while the counter does not wrap, and to fewer elements once it has. */
  lemma {:induction false} LengthRunsExpand(last: nat, count: nat, s: seq<nat>)
    requires last < 0x8000_0000 && W32.Unsigned(count)
    requires forall i :: 0 <= i < |s| ==> s[i] < 0x8000_0000
    ensures CompleteRuns(LengthRuns(last, count, s))
    ensures RunsCountable(last, count, s) ==> ExpandRuns(LengthRuns(last, count, s)) == Repeat(last, count) + s
    ensures !RunsCountable(last, count, s) ==> |ExpandRuns(LengthRuns(last, count, s))| < count + |s|
    decreases |s|
  {
    hide ExpandRuns, CompleteRuns, FlushRun, Repeat;
    if s == [] {
      LengthRunsEnd(last, count);
      assert Repeat(last, count) + s == Repeat(last, count);
    } else if s[0] == last {
      LengthRunsExpand(last, W32.Wrap(count + 1), s[1..]);
      Sequences.HeadTail(s);
      RepeatStep(last, count, s[1..]);
      if count + 1 < W32.Modulus() { WrapSmall(W32, count + 1); }
    } else {
      LengthRunsExpand(s[0], 0, s[1..]);
      LengthLiteralStep(last, count, s);
      NothingRepeated(s[0], s[1..]);
      Sequences.HeadTail(s);
    }
  }

  lemma NothingRepeated(v: nat, s: seq<nat>)
    ensures Repeat(v, 0) + s == s
  {
  }

  /**
   Run-length coding loses nothing exactly when no run overflows the encoder's counter;
   fewer than 2^32 elements never do.
   */
  lemma RunLengthRoundTrip(s: seq<nat>)
    requires s != []
    requires forall i :: 0 <= i < |s| ==> s[i] < 0x8000_0000
    ensures CompleteRuns(LengthRuns(s[0], 0, s))
    ensures ExpandRuns(LengthRuns(s[0], 0, s)) == s <==> RunsCountable(s[0], 0, s)
    ensures |s| < W32.Modulus() ==> RunsCountable(s[0], 0, s)
  {
    LengthRunsExpand(s[0], 0, s);
    NothingRepeated(s[0], s);
    if |s| < W32.Modulus() { ShortInputsAreCountable(s[0], 0, s); }
  }

  lemma {:induction false} LengthRunsNeverLonger(last: nat, count: nat, s: seq<nat>)
    ensures |LengthRuns(last, count, s)| <= count + |s|
    decreases |s|
  {
    if s == [] {
    } else if s[0] == last {
      LengthRunsNeverLonger(last, W32.Wrap(count + 1), s[1..]);
    } else {
      LengthRunsNeverLonger(s[0], 0, s[1..]);
    }
  }

  /** The three-way flush of the encoder: a tagged pair, or the pending literals one by one. */
  method PutRun(output: array<nat>, start: nat, v: nat, count: nat) returns (size: nat)
    requires start + count <= output.Length
    modifies output
    ensures start <= size <= start + count
    ensures output[..size] == old(output[..start]) + FlushRun(v, count)
  {
    size := start;
    if count >= 4 {
      size := Put(output, size, Literal(v) + 1);
      size := Put(output, size, count);
    } else {
      size := FillRun(output, size, Literal(v), count);
    }
  }

  method EncodeRunLength(input: seq<nat>, output: array<nat>) returns (size: nat)
    requires 0 < |input| <= output.Length
    modifies output
    ensures size <= |input|
    ensures output[..size] == LengthRuns(input[0], 0, input)
  {
    var last, count := input[0], 0;
    size := 0;
    var i := 0;
    assert input[0..] == input;
    while i < |input|
      invariant i <= |input|
      invariant size + count <= i
      invariant LengthRuns(input[0], 0, input) == output[..size] + LengthRuns(last, count, input[i..])
    {
      assert input[i..][0] == input[i] && input[i..][1..] == input[i + 1..];
      if input[i] == last {
        count := W32.Wrap(count + 1);
      } else {
        FlushAndLiteral(output[..size], FlushRun(last, count), Literal(input[i]),
            LengthRuns(input[i], 0, input[i + 1..]));
        size := PutRun(output, size, last, count);
        last, count := input[i], 0;
        size := Put(output, size, Literal(last));
      }
      i := i + 1;
    }
    size := PutRun(output, size, last, count);
  }

  lemma ExpandRunsAt(done: seq<nat>, e: seq<nat>, i: nat)
    requires i < |e| && CompleteRuns(e[i..])
    ensures e[i] % 2 == 1 ==>
              && i + 1 < |e| && CompleteRuns(e[i + 2..])
              && done + ExpandRuns(e[i..]) == (done + Repeat(e[i] / 2, e[i + 1])) + ExpandRuns(e[i + 2..])
    ensures e[i] % 2 == 0 ==>
              && CompleteRuns(e[i + 1..])
              && done + ExpandRuns(e[i..]) == (done + [e[i] / 2]) + ExpandRuns(e[i + 1..])
  {
    var rest := e[i..];
    assert rest[0] == e[i] && rest[1..] == e[i + 1..];
    if e[i] % 2 == 1 {
      var piece := Repeat(e[i] / 2, e[i + 1]);
      assert rest[1] == e[i + 1] && rest[2..] == e[i + 2..];
      assert ExpandRuns(rest) == piece + ExpandRuns(e[i + 2..]);
      hide *;
      Sequences.Regroup(done, piece, ExpandRuns(e[i + 2..]));
    } else {
      assert ExpandRuns(rest) == [e[i] / 2] + ExpandRuns(e[i + 1..]);
      hide *;
      Sequences.Regroup(done, [e[i] / 2], ExpandRuns(e[i + 1..]));
    }
  }

  method DecodeRunLength(encoded: seq<nat>, decoded: array<nat>) returns (size: nat)
    requires CompleteRuns(encoded)
    requires |ExpandRuns(encoded)| <= decoded.Length
    modifies decoded
    ensures size == |ExpandRuns(encoded)|
    ensures decoded[..size] == ExpandRuns(encoded)
  {
    size := 0;
    var i := 0;
    assert encoded[0..] == encoded;
    assert CompleteRuns([]) && ExpandRuns([]) == [];
    hide ExpandRuns, CompleteRuns, Repeat;
    while i < |encoded|
      invariant i <= |encoded|
      invariant size <= decoded.Length
      invariant CompleteRuns(encoded[i..])
      invariant ExpandRuns(encoded) == decoded[..size] + ExpandRuns(encoded[i..])
    {
      var value := encoded[i];
      ExpandRunsAt(decoded[..size], encoded, i);
      if value % 2 == 1 {
        value := value / 2;
        i := i + 1;
        var run := encoded[i];
        size := FillRun(decoded, size, value, run);
      } else {
        size := Put(decoded, size, value / 2);
      }
      i := i + 1;
    }
    assert encoded[|encoded|..] == [];
  }

  // ---------------------------------------------------------------------------
  // The formats, run by run
  // ---------------------------------------------------------------------------

  lemma {:induction false} ZerosCount(count: nat, n: nat, rest: seq<nat>)
    requires count + n < 0x8000_0000
    ensures ZeroRuns(0, count, Repeat(0, n) + rest) == ZeroRuns(0, count + n, rest)
    decreases n
  {
    if n == 0 {
      assert Repeat(0, 0) + rest == rest;
    } else {
      assert (Repeat(0, n) + rest)[1..] == Repeat(0, n - 1) + rest;
      ZerosCount(count + 1, n - 1, rest);
    }
  }

  /** Between runs the code starts again with the remembered value. */
  lemma ZerosEnd(last: nat, count: nat, rest: seq<nat>)
    requires rest != [] ==> rest[0] != 0 || last != 0
    ensures ZeroRuns(last, count, rest) == FlushZeros(count) + ZeroRuns(last, 0, rest)
  {
    assert FlushZeros(0) == [];
    if rest != [] {
      var tail := [Literal(rest[0])] + ZeroRuns(rest[0], 0, rest[1..]);
      assert [] + tail == tail;
    } else {
      assert FlushZeros(count) + [] == FlushZeros(count);
    }
  }

  lemma ZeroApart(last: nat, v: nat, rest: seq<nat>)
    requires v != 0 || last != 0
    ensures ZeroRuns(last, 0, [v] + rest) == [Literal(v)] + ZeroRuns(v, 0, rest)
  {
    hide Literal;
    var one := [v] + rest;
    assert one[0] == v && one[1..] == rest && FlushZeros(0) == [];
    var tail := [Literal(v)] + ZeroRuns(v, 0, rest);
    assert [] + tail == tail;
  }

  lemma RepeatFront(v: nat, n: nat, rest: seq<nat>)
    requires n > 0
    ensures Repeat(v, n) + rest == [v] + (Repeat(v, n - 1) + rest)
  {
  }

  /** A run of zeros where the encoder remembers a zero. */
  lemma ZerosTogether(n: nat, rest: seq<nat>)
    requires n < 0x8000_0000 && (rest != [] ==> rest[0] != 0)
    ensures ZeroRuns(0, 0, Repeat(0, n) + rest) == (if n > 0 then [2 * n + 1] else []) + ZeroRuns(0, 0, rest)
  {
    hide ZeroRuns;
    ZerosCount(0, n, rest);
    ZerosEnd(0, n, rest);
  }

  /**
   The zero-run code: a value other than zero is doubled; `n` zeros after a zero, or at
   the start of a list that begins with zero, become `2n + 1`; the first zero after
   another value is written as it is, and the ones behind it are counted.
   */
  lemma ZeroRunFormat(last: nat, v: nat, n: nat, rest: seq<nat>)
    requires 0 < v < 0x8000_0000 && 0 < n < 0x8000_0000 && (rest != [] ==> rest[0] != 0)
    ensures ZeroRuns(last, 0, [v] + rest) == [2 * v] + ZeroRuns(v, 0, rest)
    ensures ZeroRuns(0, 0, Repeat(0, n) + rest) == [2 * n + 1] + ZeroRuns(0, 0, rest)
    ensures last != 0 ==>
              ZeroRuns(last, 0, Repeat(0, n) + rest) ==
              [0] + ((if n > 1 then [2 * (n - 1) + 1] else []) + ZeroRuns(0, 0, rest))
  {
    hide ZeroRuns, Repeat;
    ZeroApart(last, v, rest);
    ZerosTogether(n, rest);
    if last != 0 {
      RepeatFront(0, n, rest);
      ZeroApart(last, 0, Repeat(0, n - 1) + rest);
      ZerosTogether(n - 1, rest);
    }
  }

  lemma {:induction false} RunsCount(v: nat, count: nat, n: nat, rest: seq<nat>)
    requires count + n < 0x1_0000_0000
    ensures LengthRuns(v, count, Repeat(v, n) + rest) == LengthRuns(v, count + n, rest)
    decreases n
  {
    if n == 0 {
      assert Repeat(v, 0) + rest == rest;
    } else {
      assert (Repeat(v, n) + rest)[1..] == Repeat(v, n - 1) + rest;
      RunsCount(v, count + 1, n - 1, rest);
    }
  }

  lemma RunsEnd(v: nat, count: nat, rest: seq<nat>)
    requires rest != [] ==> rest[0] != v
    ensures LengthRuns(v, count, rest) == FlushRun(v, count) + LengthRuns(v, 0, rest)
  {
    assert FlushRun(v, 0) == [];
    if rest != [] {
      var tail := [Literal(rest[0])] + LengthRuns(rest[0], 0, rest[1..]);
      assert [] + tail == tail;
    } else {
      assert FlushRun(v, count) + [] == FlushRun(v, count);
    }
  }

  /** A run as the length coder writes it: four and more as a tagged value and the count, fewer as doubled values. */
  ghost predicate IsRunCode(v: nat, n: nat, code: seq<nat>) {
    if n >= 4 then code == [2 * v + 1, n] else |code| == n && forall i :: 0 <= i < n ==> code[i] == 2 * v
  }

  lemma FlushIsRunCode(v: nat, n: nat)
    requires v < 0x8000_0000
    ensures IsRunCode(v, n, FlushRun(v, n))
  {
  }

  lemma RunApart(last: nat, v: nat, rest: seq<nat>)
    requires v != last && v < 0x8000_0000
    ensures LengthRuns(last, 0, [v] + rest) == [2 * v] + LengthRuns(v, 0, rest)
  {
    var one := [v] + rest;
    assert one[0] == v && one[1..] == rest && FlushRun(last, 0) == [];
    var tail := [2 * v] + LengthRuns(v, 0, rest);
    assert [] + tail == tail;
  }

  /** The length code: a run at the start of a list is one run; anywhere else its first element is written apart. */
  lemma LengthRunFormat(last: nat, v: nat, n: nat, rest: seq<nat>) returns (code: seq<nat>, later: seq<nat>)
    requires v < 0x8000_0000 && 0 < n < 0x1_0000_0000 && (rest != [] ==> rest[0] != v)
    ensures IsRunCode(v, n, code) && LengthRuns(v, 0, Repeat(v, n) + rest) == code + LengthRuns(v, 0, rest)
    ensures last != v ==>
              && IsRunCode(v, n - 1, later)
              && LengthRuns(last, 0, Repeat(v, n) + rest) == [2 * v] + (later + LengthRuns(v, 0, rest))
  {
    hide LengthRuns, Repeat, FlushRun, IsRunCode;
    code, later := FlushRun(v, n), FlushRun(v, n - 1);
    FlushIsRunCode(v, n);
    RunsCount(v, 0, n, rest);
    RunsEnd(v, n, rest);
    if last != v {
      RepeatFront(v, n, rest);
      RunApart(last, v, Repeat(v, n - 1) + rest);
      FlushIsRunCode(v, n - 1);
      RunsCount(v, 0, n - 1, rest);
      RunsEnd(v, n - 1, rest);
    }
  }

  lemma {:induction false} PackedCount(w: Width, bits: nat, v: nat, count: nat, n: nat, rest: seq<nat>)
    requires v < ShiftLeft(1, bits) && count + n < w.Modulus()
    ensures PackedRuns(w, bits, v, count, Repeat(v, n) + rest) == PackedRuns(w, bits, v, count + n, rest)
    decreases n
  {
    hide FlushPacked;
    if n == 0 {
      assert Repeat(v, 0) + rest == rest;
    } else {
      assert (Repeat(v, n) + rest)[1..] == Repeat(v, n - 1) + rest;
      WrapSmall(w, count + 1);
      PackedCount(w, bits, v, count + 1, n - 1, rest);
    }
  }

  lemma PackedEnd(w: Width, bits: nat, v: nat, count: nat, rest: seq<nat>)
    requires rest != [] ==> rest[0] != v || rest[0] >= ShiftLeft(1, bits)
    ensures PackedRuns(w, bits, v, count, rest) == FlushPacked(w, bits, v, count) + PackedRuns(w, bits, v, 0, rest)
  {
    hide PackedWord;
    assert FlushPacked(w, bits, v, 0) == [];
    if rest != [] {
      var tail := [w.Wrap(2 * rest[0])] + PackedRuns(w, bits, rest[0], 0, rest[1..]);
      assert [] + tail == tail;
    } else {
      assert FlushPacked(w, bits, v, count) + [] == FlushPacked(w, bits, v, count);
    }
  }

  lemma PackedApart(w: Width, bits: nat, last: nat, v: nat, rest: seq<nat>)
    requires v < w.Half() && (v != last || v >= ShiftLeft(1, bits))
    ensures PackedRuns(w, bits, last, 0, [v] + rest) == [2 * v] + PackedRuns(w, bits, v, 0, rest)
  {
    hide ShiftLeft, PackedWord;
    WrapSmall(w, 2 * v);
    var one := [v] + rest;
    assert one[0] == v && one[1..] == rest && FlushPacked(w, bits, last, 0) == [];
    var tail := [2 * v] + PackedRuns(w, bits, v, 0, rest);
    assert [] + tail == tail;
  }

  /** A run of a small value that the encoder remembers. */
  lemma PackedTogether(w: Width, bits: nat, v: nat, n: nat, rest: seq<nat>)
    requires bits < TopBit(w) && v < ShiftLeft(1, bits) && n < RunLimit(w, bits) && (rest != [] ==> rest[0] != v)
    ensures PackedRuns(w, bits, v, 0, Repeat(v, n) + rest) ==
            (if n > 0 then [2 * v + 1 + ShiftLeft(n, bits + 1)] else []) + PackedRuns(w, bits, v, 0, rest)
  {
    hide PackedRuns, ShiftLeft, RunLimit, TopBit, PackedWord;
    RunLimitFits(w, bits);
    PackedCount(w, bits, v, 0, n, rest);
    PackedEnd(w, bits, v, n, rest);
    PackedWordFits(w, bits, v, n);
  }

  /**
   The packed code: a value too wide for `bits` is doubled; `n` equal small values at
   the start of a list become one word with the tag, the value above it and the count
   above that; anywhere else the first of them is written apart.
   */
  lemma PackedRunFormat(w: Width, bits: nat, last: nat, v: nat, n: nat, rest: seq<nat>)
    requires bits < TopBit(w) && v < w.Half() && 0 < n < RunLimit(w, bits)
    ensures v >= ShiftLeft(1, bits) ==>
              PackedRuns(w, bits, last, 0, [v] + rest) == [2 * v] + PackedRuns(w, bits, v, 0, rest)
    ensures v < ShiftLeft(1, bits) && (rest != [] ==> rest[0] != v) ==>
              PackedRuns(w, bits, v, 0, Repeat(v, n) + rest) ==
              [2 * v + 1 + ShiftLeft(n, bits + 1)] + PackedRuns(w, bits, v, 0, rest)
    ensures last != v < ShiftLeft(1, bits) && (rest != [] ==> rest[0] != v) ==>
              PackedRuns(w, bits, last, 0, Repeat(v, n) + rest) ==
              [2 * v] + ((if n > 1 then [2 * v + 1 + ShiftLeft(n - 1, bits + 1)] else [])
                         + PackedRuns(w, bits, v, 0, rest))
  {
    hide PackedRuns, ShiftLeft, RunLimit, TopBit, Repeat;
    if v >= ShiftLeft(1, bits) {
      PackedApart(w, bits, last, v, rest);
    } else if rest != [] ==> rest[0] != v {
      PackedTogether(w, bits, v, n, rest);
      if last != v {
        RepeatFront(v, n, rest);
        PackedApart(w, bits, last, v, Repeat(v, n - 1) + rest);
        PackedTogether(w, bits, v, n - 1, rest);
      }
    }
  }
}
