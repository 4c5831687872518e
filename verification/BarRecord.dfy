/** The raw binary record of a segment of bars. */
module BarRecord {
  import opened Words
  import opened Bytes
  import opened Bars
  import opened Buckets

  /** A time frame is its length in seconds; only these have a segment length, in milliseconds. */
  function SegmentDuration(timeFrame: nat): (d: nat)
    ensures d > 0 <==> timeFrame in {1, 3, 5, 15, 60, 300, 900, 1800, 3600, 14400, 86400}
  {
    if timeFrame == 1 || timeFrame == 3 || timeFrame == 5 || timeFrame == 15 then 3_600_000
    else if timeFrame == 60 || timeFrame == 300 || timeFrame == 900 || timeFrame == 1800 || timeFrame == 3600
        then 86_400_000
    else if timeFrame == 14400 || timeFrame == 86400 then 604_800_000
    else 0
  }

  /** An hour for the second frames, a day for the minute frames and the hour, a week for four hours and the day. */
  ghost predicate IsSegmentLength(timeFrame: nat, d: nat) {
    || (timeFrame in {1, 3, 5, 15} && d == 3_600_000)
    || (timeFrame in {60, 300, 900, 1800, 3600} && d == 86_400_000)
    || (timeFrame in {14400, 86400} && d == 604_800_000)
  }

  lemma SegmentLengths(timeFrame: nat, d: nat)
    ensures IsSegmentLength(timeFrame, d) <==> d > 0 && SegmentDuration(timeFrame) == d
  {
  }

  datatype BarFlags = BarFlags(
    bidBased: bool, askBased: bool, lastBased: bool,
    volume: bool, quoteVolume: bool, tickVolume: bool,
    buyVolume: bool, buyQuoteVolume: bool, spread: bool,
    spreadLast: bool, spreadAverage: bool, spreadMax: bool,
    finalized: bool, rawBinary: bool)

  datatype BarConfig = BarConfig(
    tickSize: int, expiration: nat, nextExpiration: nat, timeFrame: nat, flags: BarFlags,
    priceDigits: nat, volumeDigits: nat, quoteVolumeDigits: nat)

  /** The ranges of the fields' types. */
  ghost predicate Typed(c: BarConfig) {
    W64.Unsigned(c.expiration) && W64.Unsigned(c.nextExpiration) && W32.Unsigned(c.timeFrame)
    && c.priceDigits < 256 && c.volumeDigits < 256 && c.quoteVolumeDigits < 256
  }

  /** The fields as stored: 64-bit patterns, and two 32-bit counts. */
  ghost predicate Storable(b: MarketBar) {
    && W64.Unsigned(b.time)
    && W64.Signed(b.open) && W64.Signed(b.high) && W64.Signed(b.low) && W64.Signed(b.close)
    && W64.Signed(b.volume) && W64.Signed(b.quoteVolume) && W64.Signed(b.buyVolume) && W64.Signed(b.buyQuoteVolume)
    && W32.Unsigned(b.spread) && W32.Unsigned(b.tickVolume)
  }

  ghost predicate AllStorable(s: seq<MarketBar>) { forall i :: 0 <= i < |s| ==> Storable(s[i]) }

  // ---------------------------------------------------------------------------
  // One bar: 80 bytes
  // ---------------------------------------------------------------------------

  const BAR_BYTES: nat := 80

  function LongsOf(b: MarketBar): (r: seq<nat>)
    ensures |r| == 9
  {
    [W64.Wrap(b.time), W64.Wrap(b.open), W64.Wrap(b.high), W64.Wrap(b.low), W64.Wrap(b.close),
     W64.Wrap(b.volume), W64.Wrap(b.quoteVolume), W64.Wrap(b.buyVolume), W64.Wrap(b.buyQuoteVolume)]
  }

  function Longs(vs: seq<nat>): (r: seq<byte>)
    ensures |r| == 8 * |vs|
  {
    if vs == [] then [] else LittleEndian(vs[0], 8) + Longs(vs[1..])
  }

  function ReadLongs(data: seq<byte>, offset: nat, count: nat): (r: seq<nat>)
    requires offset + 8 * count <= |data|
    ensures |r| == count
    decreases count
  {
    if count == 0 then []
    else [FromLittleEndian(data[offset..offset + 8])] + ReadLongs(data, offset + 8, count - 1)
  }

  lemma {:induction false} LongsRoundTrip(vs: seq<nat>, data: seq<byte>, offset: nat)
    requires AllUnsigned(W64, vs) && At(data, offset, Longs(vs))
    ensures offset + 8 * |vs| <= |data| && ReadLongs(data, offset, |vs|) == vs
    decreases |vs|
  {
    if vs != [] {
      AtSplit(data, offset, LittleEndian(vs[0], 8), Longs(vs[1..]));
      FitsStandardWidths(vs[0]);
      LittleEndianRoundTrip(vs[0], 8);
      LongsRoundTrip(vs[1..], data, offset + 8);
      assert [vs[0]] + vs[1..] == vs;
    }
  }

  function BarBytes(b: MarketBar): (r: seq<byte>)
    ensures |r| == BAR_BYTES
  {
    Longs(LongsOf(b)) + (LittleEndian(W32.Wrap(b.spread), 4) + LittleEndian(W32.Wrap(b.tickVolume), 4))
  }

  function Number(u: nat): int { W64.ToSigned(W64.Wrap(u)) }

  function ReadBar(data: seq<byte>, offset: nat): MarketBar
    requires offset + BAR_BYTES <= |data|
  {
    var v := ReadLongs(data, offset, 9);
    MarketBar(v[0], Number(v[1]), Number(v[2]), Number(v[3]), Number(v[4]), Number(v[5]), Number(v[6]), Number(v[7]),
        Number(v[8]),
              FromLittleEndian(data[offset + 72..offset + 76]), FromLittleEndian(data[offset + 76..offset + 80]))
  }

  lemma NumberRoundTrip(x: int)
    requires W64.Signed(x)
    ensures Number(W64.Wrap(x)) == x
  {
    WrapSmall(W64, W64.Wrap(x));
    SignedPattern(W64, x);
  }

  lemma BarRoundTrip(b: MarketBar, data: seq<byte>, offset: nat)
    requires Storable(b) && At(data, offset, BarBytes(b))
    ensures offset + BAR_BYTES <= |data| && ReadBar(data, offset) == b
  {
    var spread, ticks := LittleEndian(W32.Wrap(b.spread), 4), LittleEndian(W32.Wrap(b.tickVolume), 4);
    hide Longs, ReadLongs, LittleEndian, FromLittleEndian;
    AtSplit(data, offset, Longs(LongsOf(b)), spread + ticks);
    AtSplit(data, offset + 72, spread, ticks);
    LongsRoundTrip(LongsOf(b), data, offset);
    WrapSmall(W32, b.spread);
    WrapSmall(W32, b.tickVolume);
    FitsStandardWidths(b.spread);
    FitsStandardWidths(b.tickVolume);
    LittleEndianRoundTrip(b.spread, 4);
    LittleEndianRoundTrip(b.tickVolume, 4);
    FieldsBack(b);
  }

  lemma FieldsBack(b: MarketBar)
    requires Storable(b)
    ensures
      var v := LongsOf(b);
      && v[0] == b.time && Number(v[1]) == b.open && Number(v[2]) == b.high && Number(v[3]) == b.low
      && Number(v[4]) == b.close && Number(v[5]) == b.volume && Number(v[6]) == b.quoteVolume
      && Number(v[7]) == b.buyVolume && Number(v[8]) == b.buyQuoteVolume
  {
    hide Number;
    WrapSmall(W64, b.time);
    NumberRoundTrip(b.open);
    NumberRoundTrip(b.high);
    NumberRoundTrip(b.low);
    NumberRoundTrip(b.close);
    NumberRoundTrip(b.volume);
    NumberRoundTrip(b.quoteVolume);
    NumberRoundTrip(b.buyVolume);
    NumberRoundTrip(b.buyQuoteVolume);
  }

  function BarsBytes(s: seq<MarketBar>): (r: seq<byte>)
    ensures |r| == BAR_BYTES * |s|
  {
    if s == [] then [] else BarBytes(s[0]) + BarsBytes(s[1..])
  }

  function ReadBars(data: seq<byte>, offset: nat, count: nat): seq<MarketBar>
    requires offset + BAR_BYTES * count <= |data|
    decreases count
  {
    if count == 0 then [] else [ReadBar(data, offset)] + ReadBars(data, offset + BAR_BYTES, count - 1)
  }

  lemma {:induction false} BarsRoundTrip(s: seq<MarketBar>, data: seq<byte>, offset: nat)
    requires AllStorable(s) && At(data, offset, BarsBytes(s))
    ensures offset + BAR_BYTES * |s| <= |data| && ReadBars(data, offset, |s|) == s
    decreases |s|
  {
    if s != [] {
      hide BarBytes, ReadBar, Storable;
      AtSplit(data, offset, BarBytes(s[0]), BarsBytes(s[1..]));
      BarRoundTrip(s[0], data, offset);
      BarsRoundTrip(s[1..], data, offset + BAR_BYTES);
      assert [s[0]] + s[1..] == s;
    }
  }

  // ---------------------------------------------------------------------------
  // The record
  // ---------------------------------------------------------------------------

  function HeaderByte(low: nat, bit5: bool, bit6: bool, bit7: bool): byte {
    low % 32 + (if bit5 then 32 else 0) + (if bit6 then 64 else 0) + (if bit7 then 128 else 0)
  }

  function Headers(c: BarConfig): (r: seq<byte>)
    ensures |r| == 4
  {
    [HeaderByte(c.priceDigits, c.flags.bidBased, c.flags.askBased, c.flags.lastBased),
     HeaderByte(c.volumeDigits, c.flags.volume, c.flags.quoteVolume, c.flags.tickVolume),
     HeaderByte(c.quoteVolumeDigits, c.flags.buyVolume, c.flags.buyQuoteVolume, c.flags.spread),
     HeaderByte(if c.flags.spreadLast then 16 else 0, c.flags.spreadAverage, c.flags.spreadMax, c.flags.finalized)]
  }

  /** Distance from the segment's start, wrapped to 64 bits and zig-zagged. */
  function Distance(base: nat, time: nat): nat { W64.ZigZag(W64.ToSigned(W64.Wrap(time - base))) }

  function AtDistance(base: nat, code: nat): nat { W64.Wrap(base + W64.UnZigZag(W64.Wrap(code))) }

  lemma DistanceRoundTrip(base: nat, time: nat)
    requires W64.Unsigned(time)
    ensures AtDistance(base, Distance(base, time)) == time
  {
    var d := W64.ToSigned(W64.Wrap(time - base));
    ZigZagBijection(W64, d, 0);
    WrapSmall(W64, W64.ZigZag(d));
    WrapCancels(W64, base, time);
    WrapSmall(W64, time);
  }

  function SegmentIndex(c: BarConfig, bars: seq<MarketBar>): nat
    requires bars != [] && SegmentDuration(c.timeFrame) > 0
  {
    Index(SegmentDuration(c.timeFrame), bars[0].time)
  }

  function Record(c: BarConfig, bars: seq<MarketBar>): seq<byte>
    requires bars != [] && SegmentDuration(c.timeFrame) > 0
  {
    var k := SegmentIndex(c, bars);
    var base := StartOf(SegmentDuration(c.timeFrame), k);
    [0] + (VByte(W32.Wrap(|bars|)) + (Headers(c) + (VByte(c.timeFrame) + (VByte(W32.Wrap(k))
    + (VByte(Distance(base, c.expiration)) + (VByte(Distance(base, c.nextExpiration)) + BarsBytes(bars)))))))
  }

  predicate Serializable(c: BarConfig) {
    c.flags.rawBinary && c.priceDigits <= 18 && c.volumeDigits <= 18 && c.quoteVolumeDigits <= 18
    && SegmentDuration(c.timeFrame) > 0
  }

  datatype ReadResult =
    | Done(bars: seq<MarketBar>, config: BarConfig)
    | NoInput
    | BadSignature
    | UnknownTimeFrame
    | TooSmall

  function FlagsFrom(h: seq<nat>): BarFlags
    requires |h| == 4
  {
    BarFlags(h[0] / 32 % 2 == 1, h[0] / 64 % 2 == 1, h[0] / 128 % 2 == 1,
             h[1] / 32 % 2 == 1, h[1] / 64 % 2 == 1, h[1] / 128 % 2 == 1,
             h[2] / 32 % 2 == 1, h[2] / 64 % 2 == 1, h[2] / 128 % 2 == 1,
             h[3] / 16 % 2 == 1, h[3] / 32 % 2 == 1, h[3] / 64 % 2 == 1, h[3] / 128 % 2 == 1, false)
  }

  /** Reads a record; `before` is the reader's configuration, of which only the tick size survives. */
  function Parse(data: seq<byte>, before: BarConfig): ReadResult {
    if data == [] then NoInput
    else if data[0] != 0 then BadSignature
    else
      match ReadVByte(data, 1)
      case Truncated => TooSmall
      case Parsed(count, o) =>
        if o + 4 > |data| then TooSmall else ParseTail(data, before, count, data[o..o + 4], o + 4)
  }

  function ParseTail(data: seq<byte>, before: BarConfig, count: nat, h: seq<nat>, o: nat): ReadResult
    requires |h| == 4 && o <= |data|
  {
    match ReadVByte(data, o)
    case Truncated => TooSmall
    case Parsed(timeFrame, o1) =>
      if SegmentDuration(timeFrame) == 0 then UnknownTimeFrame
      else
        match ReadVByte(data, o1)
        case Truncated => TooSmall
        case Parsed(k, o2) =>
          match ReadVByte(data, o2)
          case Truncated => TooSmall
          case Parsed(e1, o3) =>
            match ReadVByte(data, o3)
            case Truncated => TooSmall
            case Parsed(e2, o4) =>
              if o4 + BAR_BYTES * count > |data| then TooSmall
              else
                var base := StartOf(SegmentDuration(timeFrame), k);
                Done(ReadBars(data, o4, count),
                     BarConfig(before.tickSize, AtDistance(base, e1), AtDistance(base, e2), timeFrame, FlagsFrom(h),
                               h[0] % 32, h[1] % 32, h[2] % 32))
  }

  /** What the record keeps of a configuration: everything but the tick size and the raw-binary flag. */
  function Kept(c: BarConfig, before: BarConfig): BarConfig {
    c.(tickSize := before.tickSize, flags := c.flags.(rawBinary := false))
  }

  lemma HeaderBack(low: nat, bit5: bool, bit6: bool, bit7: bool)
    requires low < 32
    ensures
      var h := HeaderByte(low, bit5, bit6, bit7);
      h % 32 == low && (h / 32 % 2 == 1) == bit5 && (h / 64 % 2 == 1) == bit6 && (h / 128 % 2 == 1) == bit7
  {
    var h := HeaderByte(low, bit5, bit6, bit7);
    var top := (if bit5 then 1 else 0) + (if bit6 then 2 else 0) + (if bit7 then 4 else 0);
    assert h == low + 32 * top;
    assert h / 32 == top && h / 64 == top / 2 && h / 128 == top / 4;
  }

  /** The fourth header byte, where bit 4 is a flag as well. */
  lemma FlagByteBack(bit4: bool, bit5: bool, bit6: bool, bit7: bool)
    ensures
      var h := HeaderByte(if bit4 then 16 else 0, bit5, bit6, bit7);
      (h / 16 % 2 == 1) == bit4
  {
  }

  lemma HeadersBack(c: BarConfig, h: seq<byte>)
    requires Serializable(c) && h == Headers(c)
    ensures FlagsFrom(h) == c.flags.(rawBinary := false)
    ensures h[0] % 32 == c.priceDigits && h[1] % 32 == c.volumeDigits && h[2] % 32 == c.quoteVolumeDigits
  {
    hide HeaderByte;
    HeaderBack(c.priceDigits, c.flags.bidBased, c.flags.askBased, c.flags.lastBased);
    HeaderBack(c.volumeDigits, c.flags.volume, c.flags.quoteVolume, c.flags.tickVolume);
    HeaderBack(c.quoteVolumeDigits, c.flags.buyVolume, c.flags.buyQuoteVolume, c.flags.spread);
    HeaderBack(if c.flags.spreadLast then 16 else 0, c.flags.spreadAverage, c.flags.spreadMax, c.flags.finalized);
    FlagByteBack(c.flags.spreadLast, c.flags.spreadAverage, c.flags.spreadMax, c.flags.finalized);
  }

  /** The part after the four header bytes. */
  function Tail(c: BarConfig, k: nat, bars: seq<MarketBar>): seq<byte>
    requires SegmentDuration(c.timeFrame) > 0
  {
    var base := StartOf(SegmentDuration(c.timeFrame), k);
    VByte(c.timeFrame) + (VByte(W32.Wrap(k))
    + (VByte(Distance(base, c.expiration)) + (VByte(Distance(base, c.nextExpiration)) + BarsBytes(bars))))
  }

  lemma TailRoundTrip(c: BarConfig, before: BarConfig, k: nat, bars: seq<MarketBar>, data: seq<byte>, h: seq<byte>,
      o: nat)
    requires Serializable(c) && Typed(c) && h == Headers(c) && W32.Unsigned(k) && AllStorable(bars)
    requires At(data, o, Tail(c, k, bars)) && o <= |data|
    ensures ParseTail(data, before, |bars|, h, o) == Done(bars, Kept(c, before))
  {
    hide VByte, ReadVByte, BarsBytes, ReadBars, Distance, AtDistance, Headers, FlagsFrom, AllStorable, StartOf;
    WrapSmall(W32, k);
    var base := StartOf(SegmentDuration(c.timeFrame), k);
    var d1, d2 := Distance(base, c.expiration), Distance(base, c.nextExpiration);
    var a, b, e, f := VByte(c.timeFrame), VByte(k), VByte(d1), VByte(d2);
    AtSplit(data, o, a, b + (e + (f + BarsBytes(bars))));
    VByteRoundTrip(c.timeFrame, data, o);
    AtSplit(data, o + |a|, b, e + (f + BarsBytes(bars)));
    VByteRoundTrip(k, data, o + |a|);
    AtSplit(data, o + |a| + |b|, e, f + BarsBytes(bars));
    VByteRoundTrip(d1, data, o + |a| + |b|);
    AtSplit(data, o + |a| + |b| + |e|, f, BarsBytes(bars));
    VByteRoundTrip(d2, data, o + |a| + |b| + |e|);
    BarsRoundTrip(bars, data, o + |a| + |b| + |e| + |f|);
    DistanceRoundTrip(base, c.expiration);
    DistanceRoundTrip(base, c.nextExpiration);
    HeadersBack(c, h);
  }

  /** Reading a record gives the bars back and the configuration, but not its tick size and raw-binary flag. */
  lemma RecordRoundTrip(c: BarConfig, before: BarConfig, bars: seq<MarketBar>)
    requires Serializable(c) && Typed(c) && bars != [] && AllStorable(bars)
    requires W32.Unsigned(|bars|) && W32.Unsigned(SegmentIndex(c, bars))
    ensures Parse(Record(c, bars), before) == Done(bars, Kept(c, before))
  {
    hide VByte, ReadVByte, Headers, Tail, ParseTail, Serializable, Typed, SegmentDuration, AllStorable, At,
         SegmentIndex;
    assert SegmentDuration(c.timeFrame) > 0 by { HasDuration(c); }
    var data, k := Record(c, bars), SegmentIndex(c, bars);
    var n, h, t := VByte(|bars|), Headers(c), Tail(c, k, bars);
    WrapSmall(W32, |bars|);
    RecordParts(c, bars);
    AtStart(data);
    AtSplit(data, 0, [0], n + (h + t));
    AtSplit(data, 1, n, h + t);
    VByteRoundTrip(|bars|, data, 1);
    AtSplit(data, 1 + |n|, h, t);
    AtMeans(data, 1 + |n|, h);
    AtMeans(data, 1 + |n| + 4, t);
    TailRoundTrip(c, before, k, bars, data, h, 1 + |n| + 4);
  }

  lemma HasDuration(c: BarConfig)
    requires Serializable(c)
    ensures SegmentDuration(c.timeFrame) > 0
  {
  }

  lemma RecordParts(c: BarConfig, bars: seq<MarketBar>)
    requires bars != [] && SegmentDuration(c.timeFrame) > 0 && W32.Unsigned(|bars|)
    ensures Record(c, bars) == [0] + (VByte(|bars|) + (Headers(c) + Tail(c, SegmentIndex(c, bars), bars)))
    ensures Record(c, bars)[0] == 0
  {
    hide VByte, Headers, Distance, BarsBytes, SegmentDuration, SegmentIndex;
    WrapSmall(W32, |bars|);
  }

  lemma AtMeans(data: seq<byte>, offset: nat, chunk: seq<byte>)
    requires At(data, offset, chunk)
    ensures offset + |chunk| <= |data| && data[offset..offset + |chunk|] == chunk
  {
  }

  // ---------------------------------------------------------------------------
  // The format, byte by byte
  // ---------------------------------------------------------------------------

  lemma {:induction false} LongAt(vs: seq<nat>, i: nat)
    requires i < |vs|
    ensures Longs(vs)[8 * i..8 * i + 8] == LittleEndian(vs[i], 8)
  {
    hide LittleEndian;
    var rest := Longs(vs[1..]);
    if i > 0 {
      LongAt(vs[1..], i - 1);
      assert Longs(vs)[8 * i..8 * i + 8] == rest[8 * (i - 1)..8 * (i - 1) + 8];
    }
  }

  /** A bar's image: nine 64-bit fields in the order of the struct, then the spread and the tick volume in 32 bits. */
  lemma BarLayout(b: MarketBar)
    requires Storable(b)
    ensures BarBytes(b)[0..8] == LittleEndian(b.time, 8)
    ensures
      var prices := [b.open, b.high, b.low, b.close, b.volume, b.quoteVolume, b.buyVolume, b.buyQuoteVolume];
      forall i :: 0 <= i < 8 ==> BarBytes(b)[8 + 8 * i..16 + 8 * i] == LittleEndian(prices[i] % W64.Modulus(), 8)
    ensures BarBytes(b)[72..76] == LittleEndian(b.spread, 4) && BarBytes(b)[76..80] == LittleEndian(b.tickVolume, 4)
  {
    hide Longs, LittleEndian;
    var vs := LongsOf(b);
    var longs := Longs(vs);
    var prices := [b.open, b.high, b.low, b.close, b.volume, b.quoteVolume, b.buyVolume, b.buyQuoteVolume];
    WrapSmall(W64, b.time);
    WrapSmall(W32, b.spread);
    WrapSmall(W32, b.tickVolume);
    LongAt(vs, 0);
    assert BarBytes(b)[0..8] == longs[0..8];
    forall i | 0 <= i < 8
      ensures BarBytes(b)[8 + 8 * i..16 + 8 * i] == LittleEndian(prices[i] % W64.Modulus(), 8)
    {
      LongAt(vs, i + 1);
      assert BarBytes(b)[8 + 8 * i..16 + 8 * i] == longs[8 * (i + 1)..8 * (i + 1) + 8];
      assert vs[i + 1] == W64.Wrap(prices[i]) == prices[i] % W64.Modulus();
    }
  }

  /** The four bytes of digits and flags. */
  lemma HeadersLayout(c: BarConfig)
    requires Serializable(c)
    ensures
      var h, f := Headers(c), c.flags;
      && h[0] == c.priceDigits + (if f.bidBased then 0x20 else 0) + (if f.askBased then 0x40 else 0)
                 + (if f.lastBased then 0x80 else 0)
      && h[1] == c.volumeDigits + (if f.volume then 0x20 else 0) + (if f.quoteVolume then 0x40 else 0)
                 + (if f.tickVolume then 0x80 else 0)
      && h[2] == c.quoteVolumeDigits + (if f.buyVolume then 0x20 else 0) + (if f.buyQuoteVolume then 0x40 else 0)
                 + (if f.spread then 0x80 else 0)
      && h[3] == (if f.spreadLast then 0x10 else 0) + (if f.spreadAverage then 0x20 else 0)
                 + (if f.spreadMax then 0x40 else 0) + (if f.finalized then 0x80 else 0)
  {
  }

  /** A distance as the zig-zag code writes it: even from the base on, odd before it. */
  lemma DistanceCode(base: nat, time: nat)
    requires time < W64.Half() && base < W64.Half()
    ensures Distance(base, time) == if time >= base then 2 * (time - base) else 2 * (base - time) - 1
  {
    SignedPattern(W64, time - base);
    ZigZagBijection(W64, time - base, 0);
  }

  /**
   A record: a zero byte, the number of bars, the four header bytes, then the time
   frame, the segment number and the distances of both expirations from the start of
   the segment, and behind them the images of the bars.
   */
  lemma RecordLayout(c: BarConfig, bars: seq<MarketBar>, d: nat)
    requires Serializable(c) && Typed(c) && bars != [] && IsSegmentLength(c.timeFrame, d)
    requires W32.Unsigned(|bars|) && W32.Unsigned(bars[0].time / d)
    ensures
      var data, base := Record(c, bars), bars[0].time / d * d;
      var count := ReadVByte(data, 1);
      && |data| > 5 && data[0] == 0
      && count.Parsed? && count.value == |bars|
      && At(data, count.next, Headers(c))
      && var tail := ReadVBytes(data, count.next + 4, 4);
         && tail.Parsed?
         && tail.value == [c.timeFrame, bars[0].time / d, Distance(base, c.expiration),
            Distance(base, c.nextExpiration)]
         && data[tail.next..] == BarsBytes(bars)
  {
    SegmentLengths(c.timeFrame, d);
    hide VByte, ReadVByte, VBytes, ReadVBytes, Headers, Serializable, SegmentDuration, BarsBytes, Distance;
    var data, k := Record(c, bars), SegmentIndex(c, bars);
    var n, h, t := VByte(|bars|), Headers(c), Tail(c, k, bars);
    WrapSmall(W32, |bars|);
    WrapSmall(W32, k);
    RecordParts(c, bars);
    AtStart(data);
    AtSplit(data, 0, [0], n + (h + t));
    AtSplit(data, 1, n, h + t);
    VByteRoundTrip(|bars|, data, 1);
    AtSplit(data, 1 + |n|, h, t);
    TailLayout(c, k, bars, data, 1 + |n| + 4);
  }

  lemma TailLayout(c: BarConfig, k: nat, bars: seq<MarketBar>, data: seq<byte>, o: nat)
    requires SegmentDuration(c.timeFrame) > 0 && W32.Unsigned(k)
    requires At(data, o, Tail(c, k, bars)) && |data| == o + |Tail(c, k, bars)|
    ensures
      var base := StartOf(SegmentDuration(c.timeFrame), k);
      var tail := ReadVBytes(data, o, 4);
      && tail.Parsed?
      && tail.value == [c.timeFrame, k, Distance(base, c.expiration), Distance(base, c.nextExpiration)]
      && data[tail.next..] == BarsBytes(bars)
  {
    hide VByte, ReadVByte, ReadVBytes, BarsBytes, Distance, SegmentDuration, StartOf;
    WrapSmall(W32, k);
    var base := StartOf(SegmentDuration(c.timeFrame), k);
    var d1, d2 := Distance(base, c.expiration), Distance(base, c.nextExpiration);
    var words := [c.timeFrame, k, d1, d2];
    var a, b, e, f, t := VByte(c.timeFrame), VByte(k), VByte(d1), VByte(d2), BarsBytes(bars);
    assert a + (b + (e + (f + t))) == (a + (b + (e + f))) + t;
    FourVBytes(c.timeFrame, k, d1, d2);
    AtSplit(data, o, VBytes(words), t);
    VBytesRoundTrip(words, data, o);
  }

  lemma FourVBytes(a: nat, b: nat, c: nat, d: nat)
    ensures VBytes([a, b, c, d]) == VByte(a) + (VByte(b) + (VByte(c) + VByte(d)))
  {
    hide VByte;
    VBytesStep([a, b, c, d]);
    VBytesStep([b, c, d]);
    VBytesStep([c, d]);
    VBytesStep([d]);
    assert [a, b, c, d][1..] == [b, c, d] && [b, c, d][1..] == [c, d] && [c, d][1..] == [d] && [d][1..] == [];
    assert VByte(d) + [] == VByte(d);
  }

  // ---------------------------------------------------------------------------
  // The serializer
  // ---------------------------------------------------------------------------

  datatype WriteStatus = Written | NothingToWrite | RawBinaryDisabled | TooManyDigits | UnsupportedTimeFrame

  class BarSerializer {
    var config: BarConfig

    constructor (config: BarConfig)
      ensures this.config == config
    {
      this.config := config;
    }

    /** An empty list leaves the caller's buffer alone; the settings are checked in the order of the source. */
    method Serialize(bars: seq<MarketBar>, newConfig: BarConfig, before: seq<byte>)
        returns (status: WriteStatus, output: seq<byte>)
      modifies this
      ensures config == newConfig
      ensures status.NothingToWrite? <==> bars == []
      ensures status.Written? <==> bars != [] && Serializable(config)
      ensures status.Written? ==> output == Record(config, bars)
      ensures !status.Written? ==> output == before
      ensures
        var few := config.priceDigits <= 18 && config.volumeDigits <= 18 && config.quoteVolumeDigits <= 18;
        var known := config.timeFrame in {1, 3, 5, 15, 60, 300, 900, 1800, 3600, 14400, 86400};
        && (status.RawBinaryDisabled? <==> bars != [] && !config.flags.rawBinary)
        && (status.TooManyDigits? <==> bars != [] && config.flags.rawBinary && !few)
        && (status.UnsupportedTimeFrame? <==> bars != [] && config.flags.rawBinary && few && !known)
        && (status.Written? <==> bars != [] && config.flags.rawBinary && few && known)
    {
      hide VByte, Headers, Distance, BarsBytes, BarBytes;
      config := newConfig;
      output := before;
      if bars == [] { return NothingToWrite, before; }
      if !config.flags.rawBinary { return RawBinaryDisabled, before; }
      if config.priceDigits > 18 || config.volumeDigits > 18 || config.quoteVolumeDigits > 18 {
        return TooManyDigits, before;
      }
      var duration := SegmentDuration(config.timeFrame);
      if duration == 0 { return UnsupportedTimeFrame, before; }
      var head := WriteHead(bars, duration);
      output := head;
      for i := 0 to |bars|
        invariant config == newConfig
        invariant output + BarsBytes(bars[i..]) == head + BarsBytes(bars)
      {
        NextBar(output, bars, i);
        output := output + BarBytes(bars[i]);
      }
      assert BarsBytes(bars[|bars|..]) == [] by { NoBars(); }
      assert output == head + BarsBytes(bars);
      status := Written;
    }

    method WriteHead(bars: seq<MarketBar>, duration: nat) returns (output: seq<byte>)
      requires bars != [] && duration == SegmentDuration(config.timeFrame) > 0
      ensures output + BarsBytes(bars) == Record(config, bars)
    {
      hide VByte, Headers, Distance, BarsBytes, SegmentDuration;
      var k := Index(duration, bars[0].time);
      var base := StartOf(duration, k);
      var n, h, a, b := VByte(W32.Wrap(|bars|)), Headers(config), VByte(config.timeFrame), VByte(W32.Wrap(k));
      var e, f := VByte(Distance(base, config.expiration)), VByte(Distance(base, config.nextExpiration));
      output := [0] + n + h + a + b + e + f;
      Flattened([0], n, h, a, b, e, f, BarsBytes(bars));
    }

    lemma Flattened(s: seq<byte>, n: seq<byte>, h: seq<byte>, a: seq<byte>, b: seq<byte>, e: seq<byte>, f: seq<byte>,
        t: seq<byte>)
      ensures s + n + h + a + b + e + f + t == s + (n + (h + (a + (b + (e + (f + t))))))
    {
      assert s + n + h + a + b + e + f + t == s + n + h + a + (b + (e + (f + t)));
      assert s + n + h + a + (b + (e + (f + t))) == s + (n + (h + (a + (b + (e + (f + t))))));
    }

    lemma NoBars()
      ensures BarsBytes([]) == []
    {
    }

    lemma NextBar(output: seq<byte>, bars: seq<MarketBar>, i: nat)
      requires i < |bars|
      ensures output + BarsBytes(bars[i..]) == output + BarBytes(bars[i]) + BarsBytes(bars[i + 1..])
    {
      assert bars[i..][1..] == bars[i + 1..];
      hide BarBytes;
      assert BarsBytes(bars[i..]) == BarBytes(bars[i]) + BarsBytes(bars[i + 1..]);
    }

    /**
     Reads a record with an advancing offset, filling the configuration on the way,
     and replaces the caller's bars at the end. What was written for given bars
     yields those bars and what the record keeps of their configuration.
     */
    method Deserialize(input: seq<byte>, before: seq<MarketBar>) returns (r: ReadResult, bars: seq<MarketBar>)
      modifies this
      ensures r == Parse(input, old(config))
      ensures r.Done? ==> bars == r.bars && config == r.config
      ensures !r.Done? ==> bars == before
      ensures forall c, s :: IsRecord(input, c, s) ==> r == Done(s, Kept(c, old(config)))
    {
      hide ReadVByte, FlagsFrom, ReadBars, AtDistance, SegmentDuration, StartOf, IsRecord;
      ghost var start := config;
      RecordsParse(input, start);
      bars := before;
      if input == [] { return NoInput, before; }
      var offset := 0;
      if input[offset] != 0 { return BadSignature, before; }
      offset := offset + 1;
      var ok, count := false, 0;
      ok, count, offset := TakeNumber(input, offset);
      if !ok || offset + 4 > |input| { return TooSmall, before; }
      ghost var h := input[offset..offset + 4];
      TakeHeaders(input, offset);
      offset := offset + 4;
      r := TakeTail(input, count, offset, h, start);
      if r.Done? { bars := r.bars; }
    }

    /** `extract_vbyte`: a number and the offset after it. */
    method TakeNumber(input: seq<byte>, offset: nat) returns (ok: bool, value: nat, next: nat)
      ensures ok == ReadVByte(input, offset).Parsed?
      ensures ok ==> ReadVByte(input, offset) == Parsed(value, next) && next <= |input|
    {
      var p := ReadVByte(input, offset);
      if p.Truncated? { return false, 0, offset; }
      return true, p.value, p.next;
    }

    /** The four header bytes: all flags are reset first, so the raw-binary flag is lost. */
    method TakeHeaders(input: seq<byte>, offset: nat)
      requires offset + 4 <= |input|
      modifies this
      ensures
        var h := input[offset..offset + 4];
        config == old(config).(flags := FlagsFrom(h), priceDigits := h[0] % 32, volumeDigits := h[1] % 32,
                               quoteVolumeDigits := h[2] % 32)
    {
      var h0, h1, h2, h3 := input[offset], input[offset + 1], input[offset + 2], input[offset + 3];
      var f := BarFlags(false, false, false, false, false, false, false, false, false, false, false, false, false,
          false);
      config := config.(flags := f, priceDigits := h0 % 32);
      f := f.(bidBased := h0 / 32 % 2 == 1, askBased := h0 / 64 % 2 == 1, lastBased := h0 / 128 % 2 == 1);
      config := config.(volumeDigits := h1 % 32);
      f := f.(volume := h1 / 32 % 2 == 1, quoteVolume := h1 / 64 % 2 == 1, tickVolume := h1 / 128 % 2 == 1);
      config := config.(quoteVolumeDigits := h2 % 32);
      f := f.(buyVolume := h2 / 32 % 2 == 1, buyQuoteVolume := h2 / 64 % 2 == 1, spread := h2 / 128 % 2 == 1);
      f := f.(spreadLast := h3 / 16 % 2 == 1, spreadAverage := h3 / 32 % 2 == 1,
              spreadMax := h3 / 64 % 2 == 1, finalized := h3 / 128 % 2 == 1);
      config := config.(flags := f);
    }

    /** The time frame, the segment, both expirations and the bars. */
    method TakeTail(input: seq<byte>, count: nat, offset: nat, ghost h: seq<byte>, ghost start: BarConfig)
        returns (r: ReadResult)
      requires offset <= |input| && |h| == 4
      requires config == start.(flags := FlagsFrom(h), priceDigits := h[0] % 32, volumeDigits := h[1] % 32,
                                quoteVolumeDigits := h[2] % 32)
      modifies this
      ensures r == ParseTail(input, start, count, h, offset)
      ensures r.Done? ==> config == r.config
    {
      hide ReadVByte, FlagsFrom, ReadBars, AtDistance, SegmentDuration, StartOf;
      var ok, timeFrame, next := TakeNumber(input, offset);
      if !ok { return TooSmall; }
      config := config.(timeFrame := timeFrame);
      var duration := SegmentDuration(timeFrame);
      if duration == 0 { return UnknownTimeFrame; }
      var k, first, second;
      ok, k, next := TakeNumber(input, next);
      if !ok { return TooSmall; }
      var base := StartOf(duration, k);
      ok, first, next := TakeNumber(input, next);
      if !ok { return TooSmall; }
      config := config.(expiration := AtDistance(base, first));
      ok, second, next := TakeNumber(input, next);
      if !ok { return TooSmall; }
      config := config.(nextExpiration := AtDistance(base, second));
      if next + BAR_BYTES * count > |input| { return TooSmall; }
      r := Done(ReadBars(input, next, count), config);
    }
  }

  /** What the writer leaves for bars and a configuration that it accepts. */
  ghost predicate IsRecord(data: seq<byte>, c: BarConfig, bars: seq<MarketBar>) {
    && Serializable(c) && Typed(c) && bars != [] && AllStorable(bars)
    && W32.Unsigned(|bars|) && W32.Unsigned(SegmentIndex(c, bars))
    && data == Record(c, bars)
  }

  lemma RecordsParse(data: seq<byte>, before: BarConfig)
    ensures forall c, s :: IsRecord(data, c, s) ==> Parse(data, before) == Done(s, Kept(c, before))
  {
    hide Parse, Record;
    forall c, s | IsRecord(data, c, s) ensures Parse(data, before) == Done(s, Kept(c, before)) {
      RecordRoundTrip(c, before, s);
    }
  }

  /** The configuration read back refuses to write again: the raw-binary flag is gone. */
  lemma ReadBackCannotWrite(c: BarConfig, before: BarConfig, bars: seq<MarketBar>)
    requires Serializable(c) && Typed(c) && bars != [] && AllStorable(bars)
    requires W32.Unsigned(|bars|) && W32.Unsigned(SegmentIndex(c, bars))
    ensures
      var r := Parse(Record(c, bars), before);
      r.Done? && !Serializable(r.config) && Serializable(r.config.(flags := r.config.flags.(rawBinary := true)))
  {
    hide Parse, Record;
    RecordRoundTrip(c, before, bars);
  }
}
