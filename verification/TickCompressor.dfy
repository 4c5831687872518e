/**
 The tick compressor: a header, the price, volume, time and side columns, and a
 general-purpose compressor around them.
 */
module TickCompressor {
  import opened Words
  import opened Bytes
  import opened Ticks
  import opened DeltaEncoding
  import opened TickColumns

  const MAX_DIGITS: nat := 18
  const SIGNATURE: byte := 0x01

  datatype CodecConfig = CodecConfig(
    tickSize: int,
    expiration: nat,
    nextExpiration: nat,
    priceDigits: nat,
    volumeDigits: nat,
    tickFlags: bool,
    tradeBased: bool,
    volume: bool,
    receivedTime: bool,
    rawBinary: bool
  )

  /** The general-purpose compressor, by its two directions; inflating may fail on foreign data. */
  datatype Squeezer = Squeezer(deflate: seq<byte> -> seq<byte>, inflate: seq<byte> -> Parsed<seq<byte>>) {
    ghost predicate Lossless() {
      forall data :: inflate(deflate(data)).Parsed? && inflate(deflate(data)).value == data
    }
  }

  datatype Status = Done | FlagsDisabled | TooManyDigits | OutOfOrder | BadSignature | CorruptData

  /** The field ranges of the source's types: 64-bit scaled amounts and times, 64-bit expirations. */
  ghost predicate Representable(config: CodecConfig, ticks: seq<Tick>) {
    && W64.Unsigned(config.expiration) && W64.Unsigned(config.nextExpiration)
    && forall i :: 0 <= i < |ticks| ==>
       W64.Unsigned(ticks[i].time) && W64.Signed(ticks[i].last) && W64.Signed(ticks[i].volume)
  }

  // ---------------------------------------------------------------------------
  // Header
  // ---------------------------------------------------------------------------

  /** Five bits of digits and three flag bits above them. */
  function HeaderByte(digits: nat, bit5: bool, bit6: bool, bit7: bool): byte
    requires digits <= MAX_DIGITS
  {
    digits + (if bit5 then 0x20 else 0) + (if bit6 then 0x40 else 0) + (if bit7 then 0x80 else 0)
  }

  lemma HeaderByteReadsBack(digits: nat, bit5: bool, bit6: bool, bit7: bool)
    requires digits <= MAX_DIGITS
    ensures
      var h := HeaderByte(digits, bit5, bit6, bit7);
      h % 0x20 == digits && (h / 0x20 % 2 == 1 <==> bit5) && (h / 0x40 % 2 == 1 <==> bit6)
          && (h / 0x80 % 2 == 1 <==> bit7)
  {
  }

  function BaseTime(ticks: seq<Tick>): nat
    requires ticks != []
  {
    ticks[0].time / HOUR_MS * HOUR_MS
  }

  /** The hour number is stored in 32 bits. */
  function StoredHour(ticks: seq<Tick>): nat
    requires ticks != []
  {
    W32.Wrap(ticks[0].time / HOUR_MS)
  }

  /** `encode_zig_zag_int64((int64_t)time - (int64_t)base)`. */
  function RelativeTime(time: nat, base: nat): (r: nat)
    ensures W64.Unsigned(r)
  {
    W64.ZigZag(W64.ToSigned(W64.Wrap(time - base)))
  }

  function HeaderBytes(config: CodecConfig, ticks: seq<Tick>): seq<byte>
    requires ticks != [] && config.priceDigits <= MAX_DIGITS && config.volumeDigits <= MAX_DIGITS
  {
    [HeaderByte(config.priceDigits, config.tickFlags, config.tradeBased, config.volume),
     HeaderByte(config.volumeDigits, ticks[0].flags.lastUpdated, false, false)]
    + VBytes(HeaderWords(config, ticks))
  }

  lemma HeaderParts(buffer: seq<byte>, config: CodecConfig, ticks: seq<Tick>)
    requires ticks != [] && config.priceDigits <= MAX_DIGITS && config.volumeDigits <= MAX_DIGITS
    requires At(buffer, 0, HeaderBytes(config, ticks))
    ensures |buffer| >= 2
    ensures ReadVBytes(buffer, 2, 5) == Parsed(HeaderWords(config, ticks), |HeaderBytes(config, ticks)|)
    ensures buffer[0] % 0x20 == config.priceDigits && buffer[1] % 0x20 == config.volumeDigits
    ensures buffer[0] / 0x20 % 2 == 1 <==> config.tickFlags
    ensures buffer[0] / 0x40 % 2 == 1 <==> config.tradeBased
    ensures buffer[0] / 0x80 % 2 == 1 <==> config.volume
    ensures buffer[1] / 0x20 % 2 == 1 <==> ticks[0].flags.lastUpdated
  {
    var head := [HeaderByte(config.priceDigits, config.tickFlags, config.tradeBased, config.volume),
                 HeaderByte(config.volumeDigits, ticks[0].flags.lastUpdated, false, false)];
    AtSplit(buffer, 0, head, VBytes(HeaderWords(config, ticks)));
    assert buffer[0] == head[0] && buffer[1] == head[1] by { assert buffer[0..2] == head; }
    HeaderByteReadsBack(config.priceDigits, config.tickFlags, config.tradeBased, config.volume);
    HeaderByteReadsBack(config.volumeDigits, ticks[0].flags.lastUpdated, false, false);
    VBytesRoundTrip(HeaderWords(config, ticks), buffer, 2);
  }

  function HeaderWords(config: CodecConfig, ticks: seq<Tick>): (r: seq<nat>)
    requires ticks != []
    ensures |r| == 5
  {
    [StoredHour(ticks),
     RelativeTime(config.expiration, BaseTime(ticks)),
     RelativeTime(config.nextExpiration, BaseTime(ticks)),
     W64.Wrap(ticks[0].last),
     W64.Wrap(config.tickSize)]
  }

  // ---------------------------------------------------------------------------
  // Side flags
  // ---------------------------------------------------------------------------

  /** One byte per tick: the chunk width of the encoder is `sizeof(uint8_t)`. */
  function SideBytes(ticks: seq<Tick>): (r: seq<byte>)
    ensures |r| == |ticks|
  {
    seq(|ticks|, i requires 0 <= i < |ticks| => if ticks[i].flags.fromBuy then 1 else 0)
  }

  method EncodeSideFlags(output: seq<byte>, ticks: seq<Tick>) returns (r: seq<byte>)
    ensures r == output + SideBytes(ticks)
  {
    r := output;
    for i := 0 to |ticks|
      invariant r == output + SideBytes(ticks)[..i]
    {
      r := r + [if ticks[i].flags.fromBuy then 1 else 0];
      assert SideBytes(ticks)[..i + 1] == SideBytes(ticks)[..i] + [SideBytes(ticks)[i]];
    }
    assert SideBytes(ticks)[..|ticks|] == SideBytes(ticks);
  }

  lemma SidesReadBack(ticks: seq<Tick>, buffer: seq<byte>, offset: nat)
    requires At(buffer, offset, SideBytes(ticks))
    ensures offset + |ticks| <= |buffer|
    ensures forall i :: 0 <= i < |ticks| ==> (buffer[offset + i] % 2 == 1 <==> ticks[i].flags.fromBuy)
  {
    forall i | 0 <= i < |ticks|
      ensures buffer[offset + i] == SideBytes(ticks)[i]
    {
      assert buffer[offset..offset + |ticks|][i] == buffer[offset + i];
    }
  }

  function WithSide(tick: Tick, buy: bool): Tick {
    tick.(flags := tick.flags.(fromBuy := buy, fromSell := !buy))
  }

  method DecodeSideFlags(ticks: array<Tick>, start: nat, binary: seq<byte>, offset: nat, count: nat)
    requires start + count == ticks.Length && offset + count <= |binary|
    modifies ticks
    ensures forall i :: 0 <= i < start ==> ticks[i] == old(ticks[i])
    ensures forall i :: start <= i < ticks.Length ==>
            ticks[i] == WithSide(old(ticks[i]), binary[offset + (i - start)] % 2 == 1)
  {
    for i := start to ticks.Length
      invariant forall j :: 0 <= j < start ==> ticks[j] == old(ticks[j])
      invariant forall j :: start <= j < i ==>
                ticks[j] == WithSide(old(ticks[j]), binary[offset + (j - start)] % 2 == 1)
      invariant forall j :: i <= j < ticks.Length ==> ticks[j] == old(ticks[j])
    {
      ticks[i] := WithSide(ticks[i], binary[offset + (i - start)] % 2 == 1);
    }
  }

  // ---------------------------------------------------------------------------
  // The payload and the compressed form
  // ---------------------------------------------------------------------------

  ghost predicate IsVolumePart(p: Packer, config: CodecConfig, ticks: seq<Tick>, part: seq<byte>)
    requires ticks != []
  {
    if config.volume then IsVolumeColumn(p, Volumes(ticks), part) else part == []
  }

  /** The payload is made of these three columns, between the header and the sides. */
  ghost predicate IsPayloadOf(p: Packer, config: CodecConfig, ticks: seq<Tick>, payload: seq<byte>,
                              price: seq<byte>, volume: seq<byte>, time: seq<byte>)
  {
    && ticks != [] && config.priceDigits <= MAX_DIGITS && config.volumeDigits <= MAX_DIGITS && config.tickFlags
    && Ascending(BaseTime(ticks), Times(ticks))
    && IsPriceColumn(p, Prices(ticks), ticks[0].last, price)
    && IsVolumePart(p, config, ticks, volume)
    && IsTimeColumn(p, Times(ticks), BaseTime(ticks), time)
    && payload == HeaderBytes(config, ticks) + (price + (volume + (time + SideBytes(ticks))))
  }

  ghost predicate IsPayload(p: Packer, config: CodecConfig, ticks: seq<Tick>, payload: seq<byte>) {
    exists price, volume, time :: IsPayloadOf(p, config, ticks, payload, price, volume, time)
  }

  function Framed(z: Squeezer, count: nat, payload: seq<byte>): seq<byte> {
    [SIGNATURE] + (VByte(count) + z.deflate(payload))
  }

  ghost predicate IsCompressed(p: Packer, z: Squeezer, config: CodecConfig, ticks: seq<Tick>, bytes: seq<byte>) {
    exists payload :: IsPayload(p, config, ticks, payload) && bytes == Framed(z, |ticks|, payload)
  }

  // ---------------------------------------------------------------------------
  // What decompression restores
  // ---------------------------------------------------------------------------

  function RestoredBase(ticks: seq<Tick>): nat
    requires ticks != []
  {
    StoredHour(ticks) * HOUR_MS
  }

  function RestoredTimes(ticks: seq<Tick>): seq<nat>
    requires ticks != []
  {
    TimesFrom(RestoredBase(ticks), Gaps(BaseTime(ticks), Times(ticks)))
  }

  function NoVolumes(n: nat): (r: seq<nat>)
    ensures |r| == n && forall i :: 0 <= i < n ==> r[i] == 0
  {
    seq(n, _ => 0)
  }

  function RestoredVolumes(config: CodecConfig, ticks: seq<Tick>): (r: seq<nat>)
    ensures |r| == |ticks|
  {
    if config.volume then VolumeWords(VolumeWidth(Volumes(ticks)), Volumes(ticks)) else NoVolumes(|ticks|)
  }

  function RestoredTick(config: CodecConfig, ticks: seq<Tick>, i: nat): Tick
    requires i < |ticks| && |RestoredTimes(ticks)| == |ticks|
  {
    Filled(RestoredTimes(ticks)[i], ticks[i].last, RestoredVolumes(config, ticks)[i],
           i == 0 && ticks[0].flags.lastUpdated, config.volume, ticks[i].flags.fromBuy)
  }

  /**
   What decompression makes of tick `i`, field by field: price and side are those of
   the source, volumes are kept when they are stored and not negative, the quote is
   left empty, and of the flags only the first tick keeps its last-price flag.
   */
  ghost predicate Restores(config: CodecConfig, source: seq<Tick>, i: nat, back: Tick)
    requires i < |source|
  {
    && back.last == source[i].last
    && (config.volume && VolumesAreNatural(source) ==> back.volume == source[i].volume)
    && (!config.volume ==> back.volume == 0)
    && back.ask == 0 && back.bid == 0 && back.received == 0
    && back.flags.fromBuy == source[i].flags.fromBuy
    && back.flags.fromSell == !source[i].flags.fromBuy
    && back.flags.volumeUpdated == config.volume
    && back.flags.lastUpdated == (i == 0 && source[0].flags.lastUpdated)
    && !back.flags.bidUpdated && !back.flags.askUpdated && !back.flags.bestMatch
  }

  ghost predicate VolumesAreNatural(ticks: seq<Tick>) { forall i :: 0 <= i < |ticks| ==> ticks[i].volume >= 0 }

  /** Behind the earlier ticks, place `i` of `r` holds what is restored of tick `i`. */
  ghost predicate IsRestored(config: CodecConfig, source: seq<Tick>, ticks: seq<Tick>, r: seq<Tick>, i: nat)
    requires i < |source| == |RestoredTimes(source)| && |r| == |ticks| + |source|
  {
    r[|ticks| + i] == RestoredTick(config, source, i) && Restores(config, source, i, r[|ticks| + i])
  }

  /** `r` is `ticks` with the restored ticks of `source` behind them. */
  ghost predicate Appends(config: CodecConfig, source: seq<Tick>, ticks: seq<Tick>, r: seq<Tick>)
    requires source != [] && |RestoredTimes(source)| == |source|
  {
    && |r| == |ticks| + |source| && r[..|ticks|] == ticks
    && forall i :: 0 <= i < |source| ==> IsRestored(config, source, ticks, r, i)
  }

  lemma AllAppended(config: CodecConfig, source: seq<Tick>, ticks: seq<Tick>, r: seq<Tick>)
    requires source != [] && |RestoredTimes(source)| == |source|
    requires |r| == |ticks| + |source| && r[..|ticks|] == ticks
    requires forall i :: 0 <= i < |source| ==> IsRestored(config, source, ticks, r, i)
    ensures Appends(config, source, ticks, r)
  {
    hide IsRestored, RestoredTimes;
  }

  lemma RestoredIs(config: CodecConfig, source: seq<Tick>, ticks: seq<Tick>, r: seq<Tick>, i: nat)
    requires i < |source| == |RestoredTimes(source)| && |r| == |ticks| + |source| && Representable(config, source)
    requires r[|ticks| + i] == RestoredTick(config, source, i)
    ensures IsRestored(config, source, ticks, r, i)
  {
    hide RestoredTick, Restores, RestoredTimes;
    RestoredTickLaw(config, source, i);
  }

  lemma RestoredTickLaw(config: CodecConfig, ticks: seq<Tick>, i: nat)
    requires i < |ticks| && |RestoredTimes(ticks)| == |ticks| && Representable(config, ticks)
    ensures Restores(config, ticks, i, RestoredTick(config, ticks, i))
  {
    hide RestoredTimes, VolumeWords, VolumeWidth;
    if config.volume && VolumesAreNatural(ticks) { VolumesSurvive(Volumes(ticks)); }
  }

  lemma RestoredTickIs(config: CodecConfig, ticks: seq<Tick>, i: nat)
    requires i < |ticks| && |RestoredTimes(ticks)| == |ticks|
    ensures RestoredTick(config, ticks, i)
         == Filled(RestoredTimes(ticks)[i], ticks[i].last, RestoredVolumes(config, ticks)[i],
                   i == 0 && ticks[0].flags.lastUpdated, config.volume, ticks[i].flags.fromBuy)
  {
  }

  function RestoredTime(ticks: seq<Tick>, time: nat): nat
    requires ticks != []
  {
    W64.Wrap(RestoredBase(ticks) + W64.UnZigZag(RelativeTime(time, BaseTime(ticks))))
  }

  function RestoredConfig(config: CodecConfig, ticks: seq<Tick>): CodecConfig
    requires ticks != []
  {
    CodecConfig(W64.Wrap(config.tickSize), RestoredTime(ticks, config.expiration),
        RestoredTime(ticks, config.nextExpiration),
                config.priceDigits, config.volumeDigits, config.tickFlags, config.tradeBased, config.volume, false,
                    false)
  }

  lemma {:induction false} TimesFromShape(previous: nat, gaps: seq<nat>)
    ensures |TimesFrom(previous, gaps)| == |gaps|
    decreases |gaps|
  {
    if gaps != [] { TimesFromShape(W64.Wrap(previous + gaps[0]), gaps[1..]); }
  }

  lemma RestoredTimesShape(ticks: seq<Tick>)
    requires ticks != []
    ensures |RestoredTimes(ticks)| == |ticks|
  {
    GapsShape(BaseTime(ticks), Times(ticks));
    TimesFromShape(RestoredBase(ticks), Gaps(BaseTime(ticks), Times(ticks)));
  }

  /** When the encoder refuses its input. */
  function CompressStatus(config: CodecConfig, ticks: seq<Tick>): Status {
    if ticks == [] then Done
    else if !config.tickFlags then FlagsDisabled
    else if config.priceDigits > MAX_DIGITS || config.volumeDigits > MAX_DIGITS then TooManyDigits
    else if !Ascending(BaseTime(ticks), Times(ticks)) then OutOfOrder
    else Done
  }

  /** The outcome for every input, on the ticks and the configuration; order is that of neighbouring times. */
  lemma CompressOutcome(config: CodecConfig, ticks: seq<Tick>)
    ensures
      var status := CompressStatus(config, ticks);
      var fine := config.priceDigits <= 18 && config.volumeDigits <= 18;
      && (status == FlagsDisabled <==> ticks != [] && !config.tickFlags)
      && (status == TooManyDigits <==> ticks != [] && config.tickFlags && !fine)
      && (status == OutOfOrder <==>
          && ticks != [] && config.tickFlags && fine
          && exists i :: 0 < i < |ticks| && ticks[i - 1].time > ticks[i].time)
      && (status == Done <==>
          || ticks == []
          || (config.tickFlags && fine && forall i :: 0 < i < |ticks| ==> ticks[i - 1].time <= ticks[i].time))
  {
    if ticks != [] {
      var times := Times(ticks);
      AscendingNeighbours(BaseTime(ticks), times);
      assert BaseTime(ticks) <= times[0];
      assert forall i :: 0 < i < |ticks| ==> (ticks[i - 1].time <= ticks[i].time <==> times[i - 1] <= times[i]);
    }
  }

  // ---------------------------------------------------------------------------
  // The compressor object
  // ---------------------------------------------------------------------------

  class Compressor {
    const packer: Packer
    const squeezer: Squeezer
    var config: CodecConfig
    var buffer: seq<byte>

    constructor (packer: Packer, squeezer: Squeezer, config: CodecConfig)
      ensures this.packer == packer && this.squeezer == squeezer && this.config == config
    {
      this.packer := packer;
      this.squeezer := squeezer;
      this.config := config;
      this.buffer := [];
    }

    method SetCodecConfig(config: CodecConfig)
      modifies this
      ensures this.config == config && buffer == old(buffer)
    {
      this.config := config;
    }

    /**
     Appends the compressed ticks to `output`. Nothing is appended for an empty
     vector, for a configuration that is refused, or for ticks out of time order.
     */
    method Compress(ticks: seq<Tick>, output: seq<byte>) returns (status: Status, r: seq<byte>)
      requires |ticks| < 0x8000_0000
      modifies this`buffer
      ensures status == CompressStatus(config, ticks)
      ensures status == Done <==>
              || ticks == []
              || (config.tickFlags && config.priceDigits <= 18 && config.volumeDigits <= 18
                  && forall i :: 0 < i < |ticks| ==> ticks[i - 1].time <= ticks[i].time)
      ensures ticks == [] || status != Done ==> r == output
      ensures ticks != [] && status == Done ==>
                |r| >= |output| && r[..|output|] == output
                    && IsCompressed(packer, squeezer, config, ticks, r[|output|..])
    {
      CompressOutcome(config, ticks);
      status, r := Done, output;
      if ticks == [] { return; }
      if !config.tickFlags { status := FlagsDisabled; return; }
      if config.priceDigits > MAX_DIGITS || config.volumeDigits > MAX_DIGITS { status := TooManyDigits; return; }
      buffer := HeaderBytes(config, ticks);
      ghost var header := buffer;
      ghost var price, volume, time := [], [], [];
      buffer, price := EncodePriceLast(packer, buffer, Prices(ticks), ticks[0].last);
      if config.volume {
        buffer, volume := EncodeVolume(packer, buffer, Volumes(ticks));
      }
      var ordered;
      ordered, buffer, time := EncodeTime(packer, buffer, Times(ticks), BaseTime(ticks));
      if !ordered { status := OutOfOrder; return; }
      buffer := EncodeSideFlags(buffer, ticks);
      PayloadAssembled(header, price, volume, time, SideBytes(ticks));
      assert IsPayloadOf(packer, config, ticks, buffer, price, volume, time);
      r := output + Framed(squeezer, |ticks|, buffer);
      assert r[|output|..] == Framed(squeezer, |ticks|, buffer);
    }

    /**
     Appends the ticks that `input` was compressed from, and takes over their
     configuration. `sourceConfig` and `source` only name them. Bytes that carry
     the signature and inflate, but were not written by `Compress`, are outside
     the contract: the source reads them unchecked.
     */
    method Decompress(input: seq<byte>, ticks: seq<Tick>, ghost sourceConfig: CodecConfig, ghost source: seq<Tick>)
      returns (status: Status, r: seq<Tick>)
      requires packer.Lawful() && squeezer.Lossless()
      requires |source| < 0x8000_0000 && Representable(sourceConfig, source)
      requires input != [] && input[0] == SIGNATURE ==>
                 IsCompressed(packer, squeezer, sourceConfig, source, input)
      modifies this
      ensures input == [] ==> status == Done && r == ticks && config == old(config)
      ensures input != [] && input[0] != SIGNATURE ==> status == BadSignature && r == ticks && config == old(config)
      ensures input != [] && input[0] == SIGNATURE ==>
                && status == Done && source != [] && |RestoredTimes(source)| == |source|
                && config == RestoredConfig(sourceConfig, source)
                && Appends(sourceConfig, source, ticks, r)
    {
      hide Appends, IsPayload, RestoredTick, RestoredTimes, RestoredConfig;
      status, r := Done, ticks;
      if input == [] { return; }
      if input[0] != SIGNATURE { status := BadSignature; return; }
      ghost var payload :| IsPayload(packer, sourceConfig, source, payload)
          && input == Framed(squeezer, |source|, payload);
      FrameReadsBack(squeezer, |source|, payload);
      var count := ReadVByte(input, 1);
      var inflated := squeezer.inflate(input[count.next..]);
      if inflated.Truncated? { status := CorruptData; return; }
      buffer := inflated.value;
      r := ReadPayload(ticks, count.value, sourceConfig, source);
    }

    /** Everything after the payload has been inflated into the processing buffer. */
    method ReadPayload(ticks: seq<Tick>, count: nat, ghost sourceConfig: CodecConfig, ghost source: seq<Tick>)
      returns (r: seq<Tick>)
      requires packer.Lawful() && count == |source| < 0x8000_0000 && Representable(sourceConfig, source)
      requires IsPayload(packer, sourceConfig, source, buffer)
      modifies this`config
      ensures source != [] && |RestoredTimes(source)| == |source|
      ensures config == RestoredConfig(sourceConfig, source)
      ensures Appends(sourceConfig, source, ticks, r)
    {
      ghost var price, volume, time :| IsPayloadOf(packer, sourceConfig, source, buffer, price, volume, time);
      hide *;
      r := ReadParts(ticks, count, sourceConfig, source, price, volume, time);
    }

    method ReadParts(ticks: seq<Tick>, count: nat, ghost sourceConfig: CodecConfig, ghost source: seq<Tick>,
                     ghost price: seq<byte>, ghost volume: seq<byte>, ghost time: seq<byte>)
      returns (r: seq<Tick>)
      requires packer.Lawful() && count == |source| < 0x8000_0000 && Representable(sourceConfig, source)
      requires IsPayloadOf(packer, sourceConfig, source, buffer, price, volume, time)
      modifies this`config
      ensures source != [] && |RestoredTimes(source)| == |source|
      ensures config == RestoredConfig(sourceConfig, source)
      ensures Appends(sourceConfig, source, ticks, r)
    {
      hide *;
      PayloadLayout(packer, sourceConfig, source, buffer, price, volume, time);
      var offset, initial, base, lastUpdated := ReadHeader(sourceConfig, source);
      var times, lasts, volumes, end :=
          ReadColumns(count, offset, initial, base, sourceConfig, source, price, volume, time);
      r := Assemble(ticks, count, times, lasts, volumes, end, lastUpdated);
      forall i | 0 <= i < |source|
        ensures IsRestored(sourceConfig, source, ticks, r, i)
      {
        assert lasts[i] == source[i].last;
        RestoredTickIs(sourceConfig, source, i);
        RestoredIs(sourceConfig, source, ticks, r, i);
      }
      AllAppended(sourceConfig, source, ticks, r);
    }

    /** The three number columns, one after the other. */
    method ReadColumns(count: nat, start: nat, initial: int, base: nat,
        ghost sourceConfig: CodecConfig, ghost source: seq<Tick>,
                       ghost price: seq<byte>, ghost volume: seq<byte>, ghost time: seq<byte>)
      returns (times: seq<nat>, lasts: seq<int>, volumes: seq<nat>, end: nat)
      requires packer.Lawful() && count == |source| && 0 < count < 0x8000_0000 && Representable(sourceConfig, source)
      requires config.volume == sourceConfig.volume && initial == source[0].last && base == RestoredBase(source)
      requires IsPriceColumn(packer, Prices(source), source[0].last, price) && At(buffer, start, price)
      requires IsVolumePart(packer, sourceConfig, source, volume) && At(buffer, start + |price|, volume)
      requires IsTimeColumn(packer, Times(source), BaseTime(source), time)
               && At(buffer, start + |price| + |volume|, time)
      ensures times == RestoredTimes(source) && lasts == Prices(source)
              && volumes == RestoredVolumes(sourceConfig, source)
      ensures end == start + |price| + |volume| + |time|
    {
      hide IsPriceColumn, IsVolumePart, IsTimeColumn;
      var prices, afterPrice := DecodePriceLast(packer, buffer, start, count, initial, Prices(source), price);
      var volumeWords, afterVolume := ReadVolumes(count, afterPrice, sourceConfig, source, volume);
      lasts, volumes := prices, volumeWords;
      times, end := DecodeTime(packer, buffer, afterVolume, count, base, BaseTime(source), Times(source), time);
    }

    /** The volume column is there only when the configuration says so. */
    method ReadVolumes(count: nat, start: nat, ghost sourceConfig: CodecConfig, ghost source: seq<Tick>,
        ghost volume: seq<byte>)
      returns (volumes: seq<nat>, end: nat)
      requires packer.Lawful() && count == |source| && 0 < count < 0x8000_0000
      requires config.volume == sourceConfig.volume
      requires IsVolumePart(packer, sourceConfig, source, volume) && At(buffer, start, volume)
      ensures volumes == RestoredVolumes(sourceConfig, source) && end == start + |volume|
    {
      if config.volume {
        volumes, end := DecodeVolume(packer, buffer, start, count, Volumes(source), volume);
      } else {
        volumes, end := NoVolumes(count), start;
      }
    }

    /** Reads the two header bytes and the five numbers after them into the configuration. */
    method ReadHeader(ghost sourceConfig: CodecConfig, ghost source: seq<Tick>)
      returns (offset: nat, initial: int, base: nat, lastUpdated: bool)
      requires source != [] && sourceConfig.priceDigits <= MAX_DIGITS && sourceConfig.volumeDigits <= MAX_DIGITS
      requires W64.Signed(source[0].last)
      requires At(buffer, 0, HeaderBytes(sourceConfig, source))
      modifies this`config
      ensures config == RestoredConfig(sourceConfig, source)
      ensures config.volume == sourceConfig.volume && config.tickFlags == sourceConfig.tickFlags
      ensures offset == |HeaderBytes(sourceConfig, source)| && initial == source[0].last
      ensures base == RestoredBase(source) && lastUpdated == source[0].flags.lastUpdated
    {
      hide HeaderBytes, RelativeTime, HeaderByte;
      ghost var words := HeaderWords(sourceConfig, source);
      HeaderParts(buffer, sourceConfig, source);
      var numbers := ReadVBytes(buffer, 2, 5);
      assert numbers.value == words;
      SignedPattern(W64, source[0].last);
      base := numbers.value[0] * HOUR_MS;
      initial := W64.ToSigned(numbers.value[3]);
      lastUpdated := buffer[1] / 0x20 % 2 == 1;
      config := CodecConfig(
        numbers.value[4],
        W64.Wrap(base + W64.UnZigZag(numbers.value[1])),
        W64.Wrap(base + W64.UnZigZag(numbers.value[2])),
        buffer[0] % 0x20, buffer[1] % 0x20,
        buffer[0] / 0x20 % 2 == 1, buffer[0] / 0x40 % 2 == 1, buffer[0] / 0x80 % 2 == 1, false, false);
      offset := numbers.next;
    }

    /** Grows the vector and fills in the new ticks: columns first, then sides, then the two update flags. */
    method Assemble(ticks: seq<Tick>, count: nat, times: seq<nat>, lasts: seq<int>, volumes: seq<int>, offset: nat,
        lastUpdated: bool)
      returns (r: seq<Tick>)
      requires |times| == |lasts| == |volumes| == count && offset + count <= |buffer| && config.tickFlags
      ensures |r| == |ticks| + count && r[..|ticks|] == ticks
      ensures forall i :: 0 <= i < count ==>
                r[|ticks| + i] == Filled(times[i], lasts[i], volumes[i], i == 0 && lastUpdated, config.volume,
                    buffer[offset + i] % 2 == 1)
    {
      var grown := ticks + seq(count,
          i requires 0 <= i < count => BLANK.(time := times[i], last := lasts[i], volume := volumes[i]));
      var all := new Tick[|grown|](i requires 0 <= i < |grown| => grown[i]);
      if config.tickFlags {
        DecodeSideFlags(all, |ticks|, buffer, offset, count);
        if lastUpdated && count > 0 {
          all[|ticks|] := all[|ticks|].(flags := all[|ticks|].flags.(lastUpdated := true));
        }
        if config.volume {
          MarkVolumes(all, |ticks|);
        }
      }
      r := all[..];
      forall i | 0 <= i < count
        ensures r[|ticks| + i] == Filled(times[i], lasts[i], volumes[i], i == 0 && lastUpdated, config.volume,
                buffer[offset + i] % 2 == 1)
      {
        var k := |ticks| + i;
        assert grown[k] == BLANK.(time := times[i], last := lasts[i], volume := volumes[i]);
        assert k - |ticks| == i && r[k] == all[k];
      }
    }
  }

  function Filled(time: nat, last: int, volume: int, lastUpdated: bool, volumeUpdated: bool, buy: bool): Tick {
    Tick(time, 0, 0, 0, last, volume,
         NO_FLAGS.(lastUpdated := lastUpdated, volumeUpdated := volumeUpdated, fromBuy := buy, fromSell := !buy))
  }

  method MarkVolumes(ticks: array<Tick>, start: nat)
    requires start <= ticks.Length
    modifies ticks
    ensures forall i :: 0 <= i < start ==> ticks[i] == old(ticks[i])
    ensures forall i :: start <= i < ticks.Length ==>
            ticks[i] == old(ticks[i]).(flags := old(ticks[i]).flags.(volumeUpdated := true))
  {
    for i := start to ticks.Length
      invariant forall j :: 0 <= j < start ==> ticks[j] == old(ticks[j])
      invariant forall j :: start <= j < i ==>
                ticks[j] == old(ticks[j]).(flags := old(ticks[j]).flags.(volumeUpdated := true))
      invariant forall j :: i <= j < ticks.Length ==> ticks[j] == old(ticks[j])
    {
      ticks[i] := ticks[i].(flags := ticks[i].flags.(volumeUpdated := true));
    }
  }

  lemma PayloadAssembled(header: seq<byte>, price: seq<byte>, volume: seq<byte>, time: seq<byte>, side: seq<byte>)
    ensures header + price + volume + time + side == header + (price + (volume + (time + side)))
    ensures header + price + [] + time + side == header + (price + ([] + (time + side)))
    ensures header + price + [] == header + price
  {
  }

  /** Where the parts of a payload lie. */
  lemma PayloadLayout(p: Packer, config: CodecConfig, ticks: seq<Tick>, payload: seq<byte>,
                      price: seq<byte>, volume: seq<byte>, time: seq<byte>)
    requires IsPayloadOf(p, config, ticks, payload, price, volume, time) && Representable(config, ticks)
    ensures ticks != [] && config.priceDigits <= MAX_DIGITS && config.volumeDigits <= MAX_DIGITS && config.tickFlags
    ensures W64.Signed(ticks[0].last)
    ensures IsPriceColumn(p, Prices(ticks), ticks[0].last, price)
    ensures IsVolumePart(p, config, ticks, volume)
    ensures IsTimeColumn(p, Times(ticks), BaseTime(ticks), time)
    ensures |RestoredTimes(ticks)| == |ticks|
    ensures
      var h := |HeaderBytes(config, ticks)|;
      var sides := h + |price| + |volume| + |time|;
      && At(payload, 0, HeaderBytes(config, ticks))
      && At(payload, h, price) && At(payload, h + |price|, volume) && At(payload, h + |price| + |volume|, time)
      && sides + |ticks| <= |payload|
      && forall i :: 0 <= i < |ticks| ==> (payload[sides + i] % 2 == 1 <==> ticks[i].flags.fromBuy)
  {
    hide IsPriceColumn, IsVolumePart, IsTimeColumn;
    RestoredTimesShape(ticks);
    assert At(payload, 0, payload);
    FiveParts(payload, 0, HeaderBytes(config, ticks), price, volume, time, SideBytes(ticks));
    SidesReadBack(ticks, payload, |HeaderBytes(config, ticks)| + |price| + |volume| + |time|);
  }

  lemma FrameReadsBack(z: Squeezer, count: nat, payload: seq<byte>)
    ensures ReadVByte(Framed(z, count, payload), 1) == Parsed(count, 1 + |VByte(count)|)
    ensures Framed(z, count, payload)[1 + |VByte(count)|..] == z.deflate(payload)
  {
    var framed := Framed(z, count, payload);
    assert At(framed, 0, framed);
    AtSplit(framed, 0, [SIGNATURE], VByte(count) + z.deflate(payload));
    AtSplit(framed, 1, VByte(count), z.deflate(payload));
    VByteRoundTrip(count, framed, 1);
  }

  // ---------------------------------------------------------------------------
  // The format, byte by byte
  // ---------------------------------------------------------------------------

  /** A signed distance as the source's zig-zag writes it: even for zero and above, odd below. */
  ghost predicate IsDistanceCode(time: nat, base: nat, code: nat) {
    code == if time >= base then 2 * (time - base) else 2 * (base - time) - 1
  }

  /** What the first bytes of a payload say: two bytes of digits and flags, then five numbers. */
  ghost predicate HeaderSays(config: CodecConfig, ticks: seq<Tick>, payload: seq<byte>) {
    && ticks != [] && |payload| >= 2
    && payload[0] == config.priceDigits + (if config.tickFlags then 0x20 else 0)
                     + (if config.tradeBased then 0x40 else 0) + (if config.volume then 0x80 else 0)
    && payload[1] == config.volumeDigits + (if ticks[0].flags.lastUpdated then 0x20 else 0)
    && ReadVBytes(payload, 2, 5).Parsed?
    && var words, hour := ReadVBytes(payload, 2, 5).value, ticks[0].time / 3_600_000;
       && |words| == 5
       && (words[0] == hour <==> hour < 0x1_0000_0000)
       && (config.expiration < 0x8000_0000_0000_0000 && ticks[0].time < 0x8000_0000_0000_0000 ==>
             IsDistanceCode(config.expiration, hour * 3_600_000, words[1]))
       && (config.nextExpiration < 0x8000_0000_0000_0000 && ticks[0].time < 0x8000_0000_0000_0000 ==>
             IsDistanceCode(config.nextExpiration, hour * 3_600_000, words[2]))
       && (ticks[0].last >= 0 ==> words[3] == ticks[0].last)
       && (0 <= config.tickSize < W64.Modulus() ==> words[4] == config.tickSize)
  }

  lemma DistanceCode(time: nat, base: nat)
    requires time < W64.Half() && base < W64.Half()
    ensures IsDistanceCode(time, base, RelativeTime(time, base))
  {
    SignedPattern(W64, time - base);
    ZigZagBijection(W64, time - base, 0);
  }

  lemma HeaderLayout(config: CodecConfig, ticks: seq<Tick>, payload: seq<byte>)
    requires ticks != [] && config.priceDigits <= MAX_DIGITS && config.volumeDigits <= MAX_DIGITS
    requires Representable(config, ticks) && At(payload, 0, HeaderBytes(config, ticks))
    ensures HeaderSays(config, ticks, payload)
  {
    HeaderParts(payload, config, ticks);
    var head := [HeaderByte(config.priceDigits, config.tickFlags, config.tradeBased, config.volume),
                 HeaderByte(config.volumeDigits, ticks[0].flags.lastUpdated, false, false)];
    AtSplit(payload, 0, head, VBytes(HeaderWords(config, ticks)));
    assert payload[0] == head[0] && payload[1] == head[1] by { assert payload[0..2] == head; }
    StoredHourFaithful(ticks);
    var base := BaseTime(ticks);
    assert W64.Unsigned(ticks[0].time) && W64.Signed(ticks[0].last);
    if ticks[0].time < W64.Half() {
      if config.expiration < W64.Half() { DistanceCode(config.expiration, base); }
      if config.nextExpiration < W64.Half() { DistanceCode(config.nextExpiration, base); }
    }
  }

  /**
   A compressed block: the signature byte 1, the number of ticks, and the squeezed
   payload, whose header is as stated.
   */
  lemma FrameLayout(p: Packer, z: Squeezer, config: CodecConfig, ticks: seq<Tick>, bytes: seq<byte>)
    requires Representable(config, ticks) && IsCompressed(p, z, config, ticks, bytes)
    ensures bytes != [] && bytes[0] == 1 && ReadVByte(bytes, 1).Parsed? && ReadVByte(bytes, 1).value == |ticks|
    ensures exists payload ::
              z.deflate(payload) == bytes[ReadVByte(bytes, 1).next..] && HeaderSays(config, ticks, payload)
  {
    var payload :| IsPayload(p, config, ticks, payload) && bytes == Framed(z, |ticks|, payload);
    var price, volume, time :| IsPayloadOf(p, config, ticks, payload, price, volume, time);
    FrameReadsBack(z, |ticks|, payload);
    PayloadLayout(p, config, ticks, payload, price, volume, time);
    HeaderLayout(config, ticks, payload);
  }

  // ---------------------------------------------------------------------------
  // When the restored ticks are the original ones
  // ---------------------------------------------------------------------------

  /** The hour of the first tick fits the 32 bits it is stored in. */
  predicate HourFits(ticks: seq<Tick>)
    requires ticks != []
  {
    ticks[0].time / 3_600_000 < 0x1_0000_0000
  }

  lemma StoredHourFaithful(ticks: seq<Tick>)
    requires ticks != [] && W64.Unsigned(ticks[0].time)
    ensures RestoredBase(ticks) <= BaseTime(ticks) <= ticks[0].time < BaseTime(ticks) + HOUR_MS
    ensures RestoredBase(ticks) == BaseTime(ticks) <==> HourFits(ticks)
  {
    var hour := ticks[0].time / HOUR_MS;
    assert W32.Wrap(hour) <= hour && (W32.Wrap(hour) == hour <==> hour < 0x1_0000_0000);
  }

  /** Times survive exactly when the first hour and every gap fit in 32 bits. */
  lemma TimesSurvive(ticks: seq<Tick>)
    requires ticks != [] && AllUnsigned(W64, Times(ticks))
    requires Ascending(BaseTime(ticks), Times(ticks))
    ensures RestoredTimes(ticks) == Times(ticks) <==> HourFits(ticks) && GapsFit(BaseTime(ticks), Times(ticks))
  {
    var times, base := Times(ticks), BaseTime(ticks);
    assert W64.Unsigned(times[0]);
    StoredHourFaithful(ticks);
    if HourFits(ticks) {
      TimeRoundTrip(base, times);
    } else {
      var gap := Gaps(base, times)[0];
      WrapSmall(W32, times[0] - base);
      WrapSmall(W64, RestoredBase(ticks) + gap);
      assert RestoredTimes(ticks)[0] == RestoredBase(ticks) + gap;
      assert RestoredTimes(ticks)[0] != times[0];
    }
  }

  /**
   An expiration time, or any other 64-bit time kept relative to the base hour, survives
   exactly when that hour does.
   */
  lemma RelativeTimeSurvives(ticks: seq<Tick>, time: nat)
    requires ticks != [] && W64.Unsigned(ticks[0].time) && W64.Unsigned(time)
    ensures RestoredTime(ticks, time) == time <==> HourFits(ticks)
  {
    StoredHourFaithful(ticks);
    var base, stored := BaseTime(ticks), RestoredBase(ticks);
    ZigZagBijection(W64, W64.ToSigned(W64.Wrap(time - base)), 0);
    assert RestoredTime(ticks, time) == W64.Wrap(stored + W64.ToSigned(W64.Wrap(time - base)));
    WrapCancels(W64, base, time);
    WrapSmall(W64, time);
    if stored != base {
      ShiftChangesWord(stored, base, W64.ToSigned(W64.Wrap(time - base)));
    }
  }

  lemma ShiftChangesWord(a: nat, b: nat, d: int)
    requires a < b && W64.Unsigned(b)
    ensures W64.Wrap(a + d) != W64.Wrap(b + d)
  {
    var x, y := a + d, b + d;
    assert x == x / W64.Modulus() * W64.Modulus() + W64.Wrap(x);
    assert y == y / W64.Modulus() * W64.Modulus() + W64.Wrap(y);
  }

  /** Every field the format stores: time, price, volume when enabled, and the first update flag. */
  ghost predicate SameStoredFields(config: CodecConfig, ticks: seq<Tick>)
    requires ticks != [] && |RestoredTimes(ticks)| == |ticks|
  {
    forall i :: 0 <= i < |ticks| ==>
      var back := RestoredTick(config, ticks, i);
      && back.time == ticks[i].time
      && back.last == ticks[i].last
      && (config.volume ==> back.volume == ticks[i].volume)
      && back.flags.fromBuy == ticks[i].flags.fromBuy
      && (i == 0 ==> back.flags.lastUpdated == ticks[0].flags.lastUpdated)
  }

  /** The digits, the three flags of the header and both expirations come back. */
  ghost predicate SameStoredConfig(config: CodecConfig, ticks: seq<Tick>)
    requires ticks != []
  {
    var back := RestoredConfig(config, ticks);
    && back.priceDigits == config.priceDigits && back.volumeDigits == config.volumeDigits
    && back.tickFlags == config.tickFlags && back.tradeBased == config.tradeBased && back.volume == config.volume
    && back.expiration == config.expiration && back.nextExpiration == config.nextExpiration
  }

  /** The stored part of the configuration survives exactly when the first hour fits 32 bits. */
  lemma ConfigSurvives(config: CodecConfig, ticks: seq<Tick>)
    requires ticks != [] && Representable(config, ticks)
    ensures SameStoredConfig(config, ticks) <==> HourFits(ticks)
    ensures
      var back := RestoredConfig(config, ticks);
      && !back.receivedTime && !back.rawBinary
      && (back.tickSize == config.tickSize <==> 0 <= config.tickSize < W64.Modulus())
  {
    hide RestoredTime, HourFits;
    RelativeTimeSurvives(ticks, config.expiration);
    RelativeTimeSurvives(ticks, config.nextExpiration);
  }

  /**
   The round trip is lossless, ticks and configuration, exactly when the first hour
   fits 32 bits, no gap reaches 2^32 milliseconds and, if volumes are stored, none
   is negative.
   */
  lemma RoundTripIsFaithful(config: CodecConfig, ticks: seq<Tick>)
    requires ticks != [] && Representable(config, ticks)
    requires Ascending(BaseTime(ticks), Times(ticks))
    ensures |RestoredTimes(ticks)| == |ticks|
    ensures SameStoredFields(config, ticks) && SameStoredConfig(config, ticks) <==>
      && HourFits(ticks)
      && GapsFit(BaseTime(ticks), Times(ticks))
      && (config.volume ==> forall i :: 0 <= i < |ticks| ==> ticks[i].volume >= 0)
  {
    hide RestoredConfig, SameStoredFields, SameStoredConfig;
    ConfigSurvives(config, ticks);
    RestoredTimesShape(ticks);
    TimesSurvive(ticks);
    VolumesSurvive(Volumes(ticks));
    FieldsBySequence(config, ticks);
    assert (forall i :: 0 <= i < |ticks| ==> ticks[i].volume >= 0)
        == (forall i :: 0 <= i < |ticks| ==> Volumes(ticks)[i] >= 0);
  }

  lemma FieldsBySequence(config: CodecConfig, ticks: seq<Tick>)
    requires ticks != [] && |RestoredTimes(ticks)| == |ticks|
    ensures SameStoredFields(config, ticks) <==>
      && RestoredTimes(ticks) == Times(ticks)
      && (config.volume ==> RestoredVolumes(config, ticks) == Volumes(ticks))
  {
    hide RestoredTimes, RestoredVolumes;
    if SameStoredFields(config, ticks) {
      forall i | 0 <= i < |ticks|
        ensures RestoredTimes(ticks)[i] == Times(ticks)[i]
        ensures config.volume ==> RestoredVolumes(config, ticks)[i] == Volumes(ticks)[i]
      {
        assert RestoredTick(config, ticks, i).time == ticks[i].time;
      }
    }
  }

  /** Compressing with one object and decompressing with another appends the restored ticks to those already there. */
  method RoundTrip(encoder: Compressor, decoder: Compressor, ticks: seq<Tick>, earlier: seq<Tick>)
    returns (status: Status, r: seq<Tick>)
    requires encoder.packer == decoder.packer && encoder.squeezer == decoder.squeezer
    requires encoder.packer.Lawful() && encoder.squeezer.Lossless()
    requires 0 < |ticks| < 0x8000_0000 && Representable(encoder.config, ticks)
    modifies encoder, decoder
    ensures status == CompressStatus(old(encoder.config), ticks)
    ensures status != Done ==> r == earlier
    ensures status == Done ==>
              && |RestoredTimes(ticks)| == |ticks|
              && decoder.config == RestoredConfig(old(encoder.config), ticks)
              && Appends(old(encoder.config), ticks, earlier, r)
  {
    hide Appends, RestoredTick, RestoredTimes, RestoredConfig, CompressStatus;
    r := earlier;
    var bytes;
    ghost var config := encoder.config;
    status, bytes := encoder.Compress(ticks, []);
    if status == Done {
      assert bytes[0..] == bytes;
      assert bytes != [] && bytes[0] == SIGNATURE;
      status, r := decoder.Decompress(bytes, earlier, config, ticks);
    }
  }
}
