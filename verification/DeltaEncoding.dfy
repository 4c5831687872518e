/**
 Delta and zig-zag passes over arrays of words. Most of them run in place: the
 running base is kept in a variable because the array already holds differences.
 */
module DeltaEncoding {
  import opened Words
  import Sequences

  // ---------------------------------------------------------------------------
  // Wrapping differences
  // ---------------------------------------------------------------------------

  /** Differences between neighbours, the first one taken against `base`, reduced to the word size. */
  function Deltas(w: Width, base: int, s: seq<nat>): seq<nat>
    decreases |s|
  {
    if s == [] then [] else [w.Wrap(s[0] - base)] + Deltas(w, s[0], s[1..])
  }

  /** Running sums, reduced to the word size. */
  function Sums(w: Width, base: int, d: seq<nat>): seq<nat>
    decreases |d|
  {
    if d == [] then [] else [w.Wrap(base + d[0])] + Sums(w, w.Wrap(base + d[0]), d[1..])
  }

  lemma {:induction false} DeltasShape(w: Width, base: int, s: seq<nat>)
    ensures |Deltas(w, base, s)| == |s|
    ensures AllUnsigned(w, Deltas(w, base, s))
    decreases |s|
  {
    if s != [] { DeltasShape(w, s[0], s[1..]); }
  }

  /** Whatever the order of the values, summing the wrapped differences gives them back. */
  lemma {:induction false} SumsOfDeltas(w: Width, base: int, s: seq<nat>)
    requires AllUnsigned(w, s)
    ensures Sums(w, base, Deltas(w, base, s)) == s
    decreases |s|
  {
    if s != [] {
      WrapCancels(w, base, s[0]);
      WrapSmall(w, s[0]);
      SumsOfDeltas(w, s[0], s[1..]);
      assert Deltas(w, base, s)[1..] == Deltas(w, s[0], s[1..]);
      assert [s[0]] + s[1..] == s;
    }
  }

  lemma TailStep(s: seq<nat>, i: nat)
    requires i < |s|
    ensures s[i..] != [] && s[i..][0] == s[i] && s[i..][1..] == s[i + 1..]
  {
  }

  /** Overwrites one element and extends the finished prefix by it. */
  method Store(a: array<nat>, i: nat, x: nat)
    requires i < a.Length
    modifies a
    ensures a[i] == x
    ensures a[..i + 1] == old(a[..i]) + [x]
    ensures forall k :: i < k < a.Length ==> a[k] == old(a[k])
  {
    a[i] := x;
  }

  /**
   `encode_delta_sorted` with input and output the same buffer. The values need not be
   sorted: the difference wraps.
   */
  method EncodeDeltaSorted(w: Width, a: array<nat>, initial: nat)
    modifies a
    ensures a[..] == Deltas(w, initial, old(a[..]))
  {
    ghost var s := a[..];
    var base: int := initial;
    assert s[0..] == s;
    for i := 0 to a.Length
      invariant forall k :: i <= k < a.Length ==> a[k] == s[k]
      invariant Deltas(w, initial, s) == a[..i] + Deltas(w, base, s[i..])
    {
      TailStep(s, i);
      var x: int := a[i];
      Sequences.Regroup(a[..i], [w.Wrap(x - base)], Deltas(w, x, s[i + 1..]));
      Store(a, i, w.Wrap(x - base));
      base := x;
    }
    assert a[..a.Length] == a[..];
  }

  /** `decode_delta_sorted` in place: each output is the base of the next. */
  method DecodeDeltaSorted(w: Width, a: array<nat>, initial: nat)
    modifies a
    ensures a[..] == Sums(w, initial, old(a[..]))
  {
    ghost var d := a[..];
    if a.Length == 0 { return; }
    TailStep(d, 0);
    assert d[0..] == d;
    Store(a, 0, w.Wrap(initial + a[0]));
    assert a[..1] == [a[0]];
    var i := 1;
    while i < a.Length
      invariant 1 <= i <= a.Length
      invariant forall k :: i <= k < a.Length ==> a[k] == d[k]
      invariant Sums(w, initial, d) == a[..i] + Sums(w, a[i - 1], d[i..])
    {
      TailStep(d, i);
      var x := w.Wrap(a[i] + a[i - 1]);
      Sequences.Regroup(a[..i], [x], Sums(w, x, d[i + 1..]));
      Store(a, i, x);
      i := i + 1;
    }
    assert a[..a.Length] == a[..];
  }

  // ---------------------------------------------------------------------------
  // Differences as zig-zag codes
  // ---------------------------------------------------------------------------

  /** Zig-zag codes of the differences of unsigned words. */
  function ZigZagDeltas(w: Width, base: int, s: seq<nat>): seq<nat>
    decreases |s|
  {
    if s == [] then [] else [w.ZigZag(w.ToSigned(w.Wrap(s[0] - base)))] + ZigZagDeltas(w, s[0], s[1..])
  }

  /** `output[i] = output[i - 1] + zigzag`, where the decoded word is widened and the sum truncated again. */
  function ZigZagSums(w: Width, base: int, e: seq<nat>): seq<nat>
    requires AllUnsigned(w, e)
    decreases |e|
  {
    if e == [] then []
    else
      var x := w.Wrap(base + w.UnZigZagWord(e[0]));
      [x] + ZigZagSums(w, x, e[1..])
  }

  lemma ZigZagSumsStep(w: Width, base: int, e: seq<nat>, i: nat)
    requires AllUnsigned(w, e) && i < |e|
    ensures ZigZagSums(w, base, e[i..])
         == [w.Wrap(base + w.UnZigZagWord(e[i]))] + ZigZagSums(w, w.Wrap(base + w.UnZigZagWord(e[i])), e[i + 1..])
  {
    TailStep(e, i);
  }

  /** Every difference between neighbours fits in a signed word: the 32-bit encoder throws otherwise. */
  predicate StepsFit(w: Width, base: int, s: seq<nat>)
    decreases |s|
  {
    s == [] || (StepFits(w, s[0] - base) && StepsFit(w, s[0], s[1..]))
  }

  /** The 32-bit form refuses a step out of range; the 64-bit form lets it wrap. */
  predicate StepFits(w: Width, step: int) { w.W64? || w.Signed(step) }

  lemma {:induction false} ZigZagDeltasShape(w: Width, base: int, s: seq<nat>)
    ensures |ZigZagDeltas(w, base, s)| == |s|
    ensures AllUnsigned(w, ZigZagDeltas(w, base, s))
    decreases |s|
  {
    if s != [] { ZigZagDeltasShape(w, s[0], s[1..]); }
  }

  lemma ZigZagCancels(w: Width, base: int, x: nat)
    requires w.Unsigned(x)
    ensures w.Wrap(base + w.UnZigZagWord(w.ZigZag(w.ToSigned(w.Wrap(x - base))))) == x
  {
    var d := w.Wrap(x - base);
    ZigZagBijection(w, w.ToSigned(d), 0);
    assert w.UnZigZagWord(w.ZigZag(w.ToSigned(d))) == d;
    WrapCancels(w, base, x);
    WrapSmall(w, x);
  }

  lemma {:induction false} ZigZagRoundTrip(w: Width, base: int, s: seq<nat>)
    requires AllUnsigned(w, s)
    ensures AllUnsigned(w, ZigZagDeltas(w, base, s))
    ensures ZigZagSums(w, base, ZigZagDeltas(w, base, s)) == s
    decreases |s|
  {
    ZigZagDeltasShape(w, base, s);
    if s != [] {
      ZigZagCancels(w, base, s[0]);
      ZigZagRoundTrip(w, s[0], s[1..]);
      assert ZigZagDeltas(w, base, s)[1..] == ZigZagDeltas(w, s[0], s[1..]);
      assert [s[0]] + s[1..] == s;
    }
  }

  /** One step of the checked zig-zag pass. */
  lemma ZigZagStep(w: Width, base: int, s: seq<nat>, i: nat, done: seq<nat>)
    requires i < |s|
    ensures StepsFit(w, base, s[i..]) == (StepFits(w, s[i] - base) && StepsFit(w, s[i], s[i + 1..]))
    ensures
      var code := w.ZigZag(w.ToSigned(w.Wrap(s[i] - base)));
      done + ZigZagDeltas(w, base, s[i..]) == (done + [code]) + ZigZagDeltas(w, s[i], s[i + 1..])
  {
    TailStep(s, i);
    var code := w.ZigZag(w.ToSigned(w.Wrap(s[i] - base)));
    assert ZigZagDeltas(w, base, s[i..]) == [code] + ZigZagDeltas(w, s[i], s[i + 1..]);
    hide *;
    Sequences.Regroup(done, [code], ZigZagDeltas(w, s[i], s[i + 1..]));
  }

  /**
   `encode_delta_zig_zag_int32` and `_int64` on unsigned words, in place. The
   32-bit form reports an overflow when a difference leaves the signed range, and
   has then already overwritten the words before the offending one; the 64-bit
   form never fails.
   */
  method EncodeDeltaZigZag(w: Width, a: array<nat>, initial: nat) returns (ok: bool)
    modifies a
    ensures ok == StepsFit(w, initial, old(a[..]))
    ensures ok ==> a[..] == ZigZagDeltas(w, initial, old(a[..]))
  {
    ghost var s := a[..];
    var base: int := initial;
    assert s[0..] == s;
    for i := 0 to a.Length
      invariant forall k :: i <= k < a.Length ==> a[k] == s[k]
      invariant StepsFit(w, initial, s) == StepsFit(w, base, s[i..])
      invariant ZigZagDeltas(w, initial, s) == a[..i] + ZigZagDeltas(w, base, s[i..])
    {
      var x: int := a[i];
      ZigZagStep(w, base, s, i, a[..i]);
      if !StepFits(w, x - base) { return false; }
      Store(a, i, w.ZigZag(w.ToSigned(w.Wrap(x - base))));
      base := x;
    }
    assert a[..a.Length] == a[..];
    return true;
  }

  method DecodeDeltaZigZag(w: Width, a: array<nat>, initial: nat)
    requires AllUnsigned(w, a[..])
    modifies a
    ensures a[..] == ZigZagSums(w, initial, old(a[..]))
  {
    if a.Length == 0 { return; }
    ghost var e := a[..];
    ghost var whole := ZigZagSums(w, initial, e);
    Store(a, 0, w.Wrap(initial + w.UnZigZagWord(a[0])));
    assert whole == a[..1] + ZigZagSums(w, a[0], e[1..]) by { ZigZagSumsStep(w, initial, e, 0); assert e[0..] == e; }
    var i := 1;
    while i < a.Length
      invariant 1 <= i <= a.Length
      invariant forall k :: i <= k < a.Length ==> a[k] == e[k]
      invariant whole == a[..i] + ZigZagSums(w, a[i - 1], e[i..])
    {
      DecodeZigZagAt(w, a, e, i);
      i := i + 1;
    }
    assert a[..] == a[..a.Length] == whole;
  }

  /** One step of the decoder. */
  method DecodeZigZagAt(w: Width, a: array<nat>, ghost e: seq<nat>, i: nat)
    requires 1 <= i < a.Length == |e| && AllUnsigned(w, e) && a[i] == e[i]
    modifies a
    ensures forall k :: i < k < a.Length ==> a[k] == old(a[k])
    ensures a[..i + 1] + ZigZagSums(w, a[i], e[i + 1..]) == old(a[..i] + ZigZagSums(w, a[i - 1], e[i..]))
  {
    var x := w.Wrap(a[i - 1] + w.UnZigZagWord(a[i]));
    ZigZagSumsStep(w, a[i - 1], e, i);
    Sequences.Regroup(a[..i], [x], ZigZagSums(w, x, e[i + 1..]));
    Store(a, i, x);
  }

  // ---------------------------------------------------------------------------
  // Prices: differences of 64-bit scaled prices, coded in 32 or 64 bits
  // ---------------------------------------------------------------------------

  /** `scaled_price - previous` in 64-bit two's complement. */
  function PriceStep(price: int, previous: int): (d: int)
    ensures W64.Signed(d)
  {
    W64.ToSigned(W64.Wrap(price - previous))
  }

  predicate PriceStepsFit(w: Width, previous: int, prices: seq<int>)
    decreases |prices|
  {
    prices == [] || (w.Signed(PriceStep(prices[0], previous)) && PriceStepsFit(w, prices[0], prices[1..]))
  }

  function PriceCodes(w: Width, previous: int, prices: seq<int>): seq<nat>
    requires PriceStepsFit(w, previous, prices)
    decreases |prices|
  {
    if prices == [] then []
    else [w.ZigZag(PriceStep(prices[0], previous))] + PriceCodes(w, prices[0], prices[1..])
  }

  /** `scaled_price = previous + delta` in 64-bit two's complement. */
  function PriceAfter(w: Width, previous: int, code: nat): int
    requires w.Unsigned(code)
  {
    W64.ToSigned(W64.Wrap(previous + w.UnZigZag(code)))
  }

  function PricesFrom(w: Width, previous: int, codes: seq<nat>): seq<int>
    requires AllUnsigned(w, codes)
    decreases |codes|
  {
    if codes == [] then []
    else
      var price := PriceAfter(w, previous, codes[0]);
      [price] + PricesFrom(w, price, codes[1..])
  }

  lemma {:induction false} PriceCodesShape(w: Width, previous: int, prices: seq<int>)
    requires PriceStepsFit(w, previous, prices)
    ensures |PriceCodes(w, previous, prices)| == |prices|
    ensures AllUnsigned(w, PriceCodes(w, previous, prices))
    decreases |prices|
  {
    if prices != [] { PriceCodesShape(w, prices[0], prices[1..]); }
  }

  /** With 64-bit codes nothing can overflow. */
  lemma {:induction false} WideStepsFit(previous: int, prices: seq<int>)
    ensures PriceStepsFit(W64, previous, prices)
    decreases |prices|
  {
    if prices != [] { WideStepsFit(prices[0], prices[1..]); }
  }

  lemma PriceStepCancels(w: Width, previous: int, price: int)
    requires W64.Signed(price) && w.Signed(PriceStep(price, previous))
    ensures PriceAfter(w, previous, w.ZigZag(PriceStep(price, previous))) == price
  {
    ZigZagBijection(w, PriceStep(price, previous), 0);
    WrapCancels(W64, previous, price);
    SignedPattern(W64, price);
  }

  /** Every 64-bit price list comes back, in either width, as long as the width could encode it. */
  lemma {:induction false} PriceRoundTrip(w: Width, previous: int, prices: seq<int>)
    requires AllSigned(W64, prices) && PriceStepsFit(w, previous, prices)
    ensures AllUnsigned(w, PriceCodes(w, previous, prices))
    ensures PricesFrom(w, previous, PriceCodes(w, previous, prices)) == prices
    decreases |prices|
  {
    PriceCodesShape(w, previous, prices);
    if prices != [] {
      PriceStepCancels(w, previous, prices[0]);
      PriceRoundTrip(w, prices[0], prices[1..]);
      assert PriceCodes(w, previous, prices)[1..] == PriceCodes(w, prices[0], prices[1..]);
      assert [prices[0]] + prices[1..] == prices;
    }
  }

  /** `encode_last_delta_zig_zag_int32` and `_int64`; only the 32-bit form can report an overflow. */
  method EncodeLastDelta(w: Width, prices: seq<int>, initial: int, output: array<nat>) returns (ok: bool)
    requires output.Length == |prices|
    modifies output
    ensures ok == PriceStepsFit(w, initial, prices)
    ensures ok ==> output[..] == PriceCodes(w, initial, prices)
  {
    var previous := initial;
    assert prices[0..] == prices;
    for i := 0 to |prices|
      invariant PriceStepsFit(w, initial, prices) == PriceStepsFit(w, previous, prices[i..])
      invariant PriceStepsFit(w, initial, prices) ==>
                  PriceCodes(w, initial, prices) == output[..i] + PriceCodes(w, previous, prices[i..])
    {
      assert prices[i..][0] == prices[i] && prices[i..][1..] == prices[i + 1..];
      var step := PriceStep(prices[i], previous);
      if !w.Signed(step) { return false; }
      if PriceStepsFit(w, initial, prices) {
        Sequences.Regroup(output[..i], [w.ZigZag(step)], PriceCodes(w, prices[i], prices[i + 1..]));
      }
      Store(output, i, w.ZigZag(step));
      previous := prices[i];
    }
    assert output[..output.Length] == output[..];
    return true;
  }

  method DecodeLastDelta(w: Width, codes: array<nat>, initial: int) returns (prices: seq<int>)
    requires AllUnsigned(w, codes[..])
    ensures prices == PricesFrom(w, initial, codes[..])
  {
    prices := [];
    var previous := initial;
    assert codes[0..] == codes[..];
    for i := 0 to codes.Length
      invariant PricesFrom(w, initial, codes[..]) == prices + PricesFrom(w, previous, codes[i..])
    {
      TailStep(codes[..], i);
      assert codes[i..] == codes[..][i..] && codes[i + 1..] == codes[..][i + 1..];
      assert w.Unsigned(codes[..][i]);
      previous := PriceAfter(w, previous, codes[i]);
      prices := prices + [previous];
    }
  }

  // ---------------------------------------------------------------------------
  // Time stamps: non-decreasing 64-bit times, gaps truncated to 32 bits
  // ---------------------------------------------------------------------------

  predicate Ascending(previous: nat, times: seq<nat>)
    decreases |times|
  {
    times == [] || (previous <= times[0] && Ascending(times[0], times[1..]))
  }

  /** Ascending means that no time is smaller than the one before it. */
  lemma {:induction false} AscendingNeighbours(previous: nat, times: seq<nat>)
    ensures Ascending(previous, times) <==>
            && (times != [] ==> previous <= times[0])
            && forall i :: 0 < i < |times| ==> times[i - 1] <= times[i]
    decreases |times|
  {
    if times != [] {
      AscendingNeighbours(times[0], times[1..]);
      assert |times| > 1 ==> times[1..][0] == times[1];
      if forall i :: 0 < i < |times[1..]| ==> times[1..][i - 1] <= times[1..][i] {
        forall i | 1 < i < |times| ensures times[i - 1] <= times[i] {
          assert times[1..][i - 2] <= times[1..][i - 1];
        }
      }
    }
  }

  /** No gap, the first one measured from `previous`, reaches 2^32 milliseconds. */
  predicate GapsFit(previous: nat, times: seq<nat>)
    decreases |times|
  {
    times == [] || (times[0] - previous < 0x1_0000_0000 && GapsFit(times[0], times[1..]))
  }

  /** The stored gaps: a gap of 2^32 milliseconds or more loses its high bits. */
  function Gaps(previous: nat, times: seq<nat>): seq<nat>
    decreases |times|
  {
    if times == [] then [] else [W32.Wrap(times[0] - previous)] + Gaps(times[0], times[1..])
  }

  function TimesFrom(previous: nat, gaps: seq<nat>): seq<nat>
    decreases |gaps|
  {
    if gaps == [] then [] else [W64.Wrap(previous + gaps[0])] + TimesFrom(W64.Wrap(previous + gaps[0]), gaps[1..])
  }

  lemma {:induction false} GapsShape(previous: nat, times: seq<nat>)
    ensures |Gaps(previous, times)| == |times| && AllUnsigned(W32, Gaps(previous, times))
    decreases |times|
  {
    if times != [] { GapsShape(times[0], times[1..]); }
  }

  /** Times come back exactly when no gap was truncated. */
  lemma {:induction false} TimeRoundTrip(previous: nat, times: seq<nat>)
    requires W64.Unsigned(previous) && AllUnsigned(W64, times) && Ascending(previous, times)
    ensures TimesFrom(previous, Gaps(previous, times)) == times <==> GapsFit(previous, times)
    decreases |times|
  {
    if times != [] {
      var gap := W32.Wrap(times[0] - previous);
      var back := W64.Wrap(previous + gap);
      assert previous + gap <= times[0];
      WrapSmall(W64, previous + gap);
      assert Gaps(previous, times)[1..] == Gaps(times[0], times[1..]);
      assert TimesFrom(previous, Gaps(previous, times))[0] == back;
      if times[0] - previous < 0x1_0000_0000 {
        assert back == times[0];
        TimeRoundTrip(times[0], times[1..]);
        assert TimesFrom(previous, Gaps(previous, times))[1..] == TimesFrom(times[0], Gaps(times[0], times[1..]));
        assert [times[0]] + times[1..] == times;
      }
    }
  }

  /** `encode_time_delta`: reports a time that is earlier than its predecessor. */
  method EncodeTimeDelta(times: seq<nat>, initial: nat, output: array<nat>) returns (ok: bool)
    requires output.Length == |times|
    modifies output
    ensures ok == Ascending(initial, times)
    ensures ok ==> output[..] == Gaps(initial, times)
  {
    var previous := initial;
    assert times[0..] == times;
    for i := 0 to |times|
      invariant Ascending(initial, times) == Ascending(previous, times[i..])
      invariant Gaps(initial, times) == output[..i] + Gaps(previous, times[i..])
    {
      TailStep(times, i);
      if times[i] < previous { return false; }
      Sequences.Regroup(output[..i], [W32.Wrap(times[i] - previous)], Gaps(times[i], times[i + 1..]));
      Store(output, i, W32.Wrap(times[i] - previous));
      previous := times[i];
    }
    assert output[..output.Length] == output[..];
    return true;
  }

  method DecodeTimeDelta(gaps: array<nat>, initial: nat) returns (times: seq<nat>)
    ensures times == TimesFrom(initial, gaps[..])
  {
    ghost var g := gaps[..];
    times := [];
    var previous := initial;
    assert g[0..] == g;
    for i := 0 to gaps.Length
      invariant TimesFrom(initial, g) == times + TimesFrom(previous, g[i..])
    {
      TailStep(g, i);
      var time := W64.Wrap(previous + gaps[i]);
      Sequences.Regroup(times, [time], TimesFrom(time, g[i + 1..]));
      previous := time;
      times := times + [time];
    }
  }

  // ---------------------------------------------------------------------------
  // The codes, element by element
  // ---------------------------------------------------------------------------

  /** The element before position `i`: the initial value for the first one. */
  function Preceding(base: int, s: seq<int>, i: nat): int
    requires i <= |s|
  {
    if i == 0 then base else s[i - 1]
  }

  /** Even for a step of zero or up, odd for a step down. */
  ghost predicate IsStepCode(code: nat, from: int, to: int) {
    code == if to >= from then 2 * (to - from) else 2 * (from - to) - 1
  }

  lemma StepCode(w: Width, from: int, to: int)
    requires w.Signed(to - from)
    ensures IsStepCode(w.ZigZag(w.ToSigned(w.Wrap(to - from))), from, to)
  {
    SignedPattern(w, to - from);
    ZigZagBijection(w, to - from, 0);
  }

  /** A sorted-delta code is the difference modulo the word size. */
  lemma {:induction false} DeltaAt(w: Width, base: int, s: seq<nat>, i: nat)
    requires i < |s|
    ensures |Deltas(w, base, s)| == |s|
    ensures Deltas(w, base, s)[i] == (s[i] - Preceding(base, s, i)) % w.Modulus()
    decreases i
  {
    DeltasShape(w, base, s);
    if i > 0 { DeltaAt(w, s[0], s[1..], i - 1); }
  }

  /** A zig-zag code is the code of the step, when the step fits the signed word. */
  lemma {:induction false} ZigZagDeltaIs(w: Width, base: int, s: seq<nat>, i: nat)
    requires i < |s| && w.Signed(s[i] - Preceding(base, s, i))
    ensures |ZigZagDeltas(w, base, s)| == |s|
    ensures IsStepCode(ZigZagDeltas(w, base, s)[i], Preceding(base, s, i), s[i])
    decreases i
  {
    ZigZagDeltasShape(w, base, s);
    if i > 0 { ZigZagDeltaIs(w, s[0], s[1..], i - 1); } else { StepCode(w, base, s[0]); }
  }

  /** The 32-bit pass accepts exactly the lists whose neighbours are less than 2^31 apart, one more downwards. */
  lemma {:induction false} StepsFitIs(w: Width, base: int, s: seq<nat>)
    ensures StepsFit(w, base, s) <==>
            w.W64? || forall i :: 0 <= i < |s| ==> -0x8000_0000 <= s[i] - Preceding(base, s, i) < 0x8000_0000
    decreases |s|
  {
    if s != [] {
      StepsFitIs(w, s[0], s[1..]);
      forall i | 0 <= i < |s| - 1 ensures s[1..][i] - Preceding(s[0], s[1..], i) ==
          s[i + 1] - Preceding(base, s, i + 1) {
      }
      if StepsFit(w, base, s) && w.W32? {
        forall i | 0 <= i < |s| ensures -0x8000_0000 <= s[i] - Preceding(base, s, i) < 0x8000_0000 {
          if i > 0 { assert -0x8000_0000 <= s[1..][i - 1] - Preceding(s[0], s[1..], i - 1) < 0x8000_0000; }
        }
      }
    }
  }

  /** A price code is the code of the price step, when the step fits; the 32-bit form is chosen only then. */
  lemma {:induction false} PriceCodeAt(w: Width, previous: int, prices: seq<int>, i: nat)
    requires i < |prices| && PriceStepsFit(w, previous, prices)
    requires W64.Signed(prices[i] - Preceding(previous, prices, i))
    ensures |PriceCodes(w, previous, prices)| == |prices|
    ensures IsStepCode(PriceCodes(w, previous, prices)[i], Preceding(previous, prices, i), prices[i])
    decreases i
  {
    PriceCodesShape(w, previous, prices);
    if i > 0 {
      PriceCodeAt(w, prices[0], prices[1..], i - 1);
    } else {
      SignedPattern(W64, prices[0] - previous);
      SignedPattern(w, prices[0] - previous);
      StepCode(w, previous, prices[0]);
    }
  }

  /** Steps that do not overflow 64 bits fit 32 bits exactly when each is less than 2^31 in size, or -2^31. */
  lemma {:induction false} PriceStepsFitIs(previous: int, prices: seq<int>)
    requires forall i :: 0 <= i < |prices| ==> W64.Signed(prices[i] - Preceding(previous, prices, i))
    ensures PriceStepsFit(W32, previous, prices) <==>
            forall i :: 0 <= i < |prices| ==> -0x8000_0000 <= prices[i] - Preceding(previous, prices, i) < 0x8000_0000
    decreases |prices|
  {
    if prices != [] {
      var rest := prices[1..];
      forall i | 0 <= i < |rest|
        ensures rest[i] - Preceding(prices[0], rest, i) == prices[i + 1] - Preceding(previous, prices, i + 1)
      {
      }
      PriceStepsFitIs(prices[0], rest);
      assert W64.Signed(prices[0] - Preceding(previous, prices, 0));
      SignedPattern(W64, prices[0] - previous);
      if PriceStepsFit(W32, previous, prices) {
        forall i | 0 <= i < |prices|
          ensures -0x8000_0000 <= prices[i] - Preceding(previous, prices, i) < 0x8000_0000
        {
          if i > 0 { assert -0x8000_0000 <= rest[i - 1] - Preceding(prices[0], rest, i - 1) < 0x8000_0000; }
        }
      }
    }
  }

  /** A stored gap is the time gap modulo 2^32. */
  lemma {:induction false} GapAt(previous: nat, times: seq<nat>, i: nat)
    requires i < |times|
    ensures |Gaps(previous, times)| == |times|
    ensures Gaps(previous, times)[i] == (times[i] - Preceding(previous, times, i)) % 0x1_0000_0000
    decreases i
  {
    GapsShape(previous, times);
    if i > 0 { GapAt(times[0], times[1..], i - 1); }
  }

  lemma {:induction false} GapsFitIs(previous: nat, times: seq<nat>)
    ensures GapsFit(previous, times) <==>
            forall i :: 0 <= i < |times| ==> times[i] - Preceding(previous, times, i) < 0x1_0000_0000
    decreases |times|
  {
    if times != [] {
      var rest := times[1..];
      forall i | 0 <= i < |rest|
        ensures rest[i] - Preceding(times[0], rest, i) == times[i + 1] - Preceding(previous, times, i + 1)
      {
      }
      GapsFitIs(times[0], rest);
      if GapsFit(previous, times) {
        forall i | 0 <= i < |times| ensures times[i] - Preceding(previous, times, i) < 0x1_0000_0000 {
          if i > 0 { assert rest[i - 1] - Preceding(times[0], rest, i - 1) < 0x1_0000_0000; }
        }
      }
    }
  }
}
