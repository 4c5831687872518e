# DataFeedHub: a model and its proofs

DataFeedHub is a C++ header library for market data: it compresses ticks,
replays them hour by hour with restored bid and ask prices, transforms bars, and
stores bars in several transactional backends. This project models five of its
parts in Dafny and proves that each fast, in-place or staged form agrees with a
simple meaning.

## The parts

**Tick codec** (`Words`, `Bytes`, `Sequences`, `Ticks`, `RepeatEncoding`, `FrequencyEncoding`,
`DeltaEncoding`, `LaneEncoding`, `TickColumns`, `TickCompressor`). A tick list
becomes a header and four columns. Price, volume and time run through scaling or
differences, zig-zag, frequency recoding, zero-run coding inside the same buffer,
and a wrapped dictionary difference. Each pass is a method over an array, proved
against a function on sequences; the functions are then proved to be inverted by
their decoders, each column is self-delimiting, and the whole round trip is
faithful exactly under a condition that can be checked before compressing.

**Spread restoration and the hour buffer** (`SpreadProcessors`, `SpreadLaws`,
`StreamTickBuffer`). The processors quote the ticks of an hour and write an index
with one entry per second. Restoration is a fold over all hours seen; its laws
say what the spread of each tick is, over one hour and over any run of hours. The
buffer answers time-range queries with that index.

**Bitset** (`BlockBits` and `DynamicBitset`). Multi-word shifts in two forms, and
both against single bits, including the unused bits of the last block.

**Bars and their store** (`Buckets`, `Bars`, `Resample`, `AverageSpreads`, `GapFiller`,
`BarSegments`, `BarRecord`, `BarStore`). Resampling with four spread strategies, in
one step and in two, two forms of gap filling, splitting into segments, the record
of a segment, and the hub that routes segments to backends.

**Transactions and metadata** (`Transactions`, `SortedLists` and
`StorageMetadata`). A guard over several transactions whose operations may all
fail, as a state machine over calls, and the record that describes a backend.

## How the model is written

Machine words are integers that wrap explicitly, at 32 or 64 bits; `Words` proves
the shift-and-mask forms of zig-zag on bit vectors. Signed 64-bit arithmetic wraps
in two's complement. Blocks of the bitset are integers below 2^64 with `|`, `&`,
`~` defined bit by bit and shifts by arithmetic. Prices and volumes are integers
scaled to the symbol's precision, and "differs at this precision" is a parameter.
Exceptions are statuses or results. Buffers that a method overwrites are arrays;
vectors that grow or shrink are sequences held in a field. Each method is tied to
a function on values, and the laws are lemmas about those functions. Where a law
relates a writer to its reader, a further lemma says what is written, byte by byte
or field by field, in literal numbers.

Some facts in which the code differs from what its comments suggest, each proved:

- A time-range query whose start search lands on a tick at or after the end finds
  no last tick. It then reads before the first tick, because the loop compares
  unsigned values, or reports the start index as the size.
- A right shift of a bitset can bring back bits that an earlier left shift, or a
  shrinking resize, left in the unused part of the last block.
- A range read over several segments returns bars of the last stored segment only,
  since reading a record replaces the vector.
- A bar configuration that was read back cannot be used for writing, because
  reading clears the raw-binary flag. The tick size is not stored.
- Averaging spreads in two resampling steps is not always averaging once. Everything
  but the spread agrees; the spreads agree exactly under a condition on the sums and
  remainders of the fine groups.
- Merging metadata treats a zero time bound as not set, while the time test treats
  it as no limit, so a merge can narrow the accepted range.
- The in-place gap filler uses the first open in front of the first bar, the copy
  the first close, and only the copy stops at the end time.
- The copying gap filler ends in a length error when the range ends two intervals or
  more before its start.
- After a commit or a rollback that failed part-way the guard can neither commit nor
  roll back, and after a begin that failed part-way it cannot begin again; what is
  still open is rolled back when the guard is destroyed.

`dafny verify dfyconfig.toml` checks the whole project.

## Model

| member | source | states |
|---|---|---|
| `Words.ZigZagBijection` | include/DataFeedHub/compression/utils/zig_zag.hpp:53-76 | single-value zig-zag is a bijection between signed and unsigned words of 32 and of 64 bits, in both directions; a non-negative value gets twice itself, a negative one the odd code between |
| `Words.ZigZagBits32` | include/DataFeedHub/compression/utils/zig_zag.hpp:53-62 | the shift-and-mask expressions of the 32-bit encoder and decoder, on bit vectors, are mutually inverse |
| `Words.ZigZagBits64` | include/DataFeedHub/compression/utils/zig_zag.hpp:67-76 | the same for 64 bits |
| `Words.WrapCancels` | include/DataFeedHub/compression/utils/zig_zag_delta.hpp:63-82 | adding back a wrapped difference restores the number, whether the difference is read as unsigned or as signed |
| `Bytes.VByteRoundTrip` | include/DataFeedHub/utils/vbyte.hpp:24-63 | a number written at any place of a buffer reads back, and the reader stops exactly behind it |
| `Bytes.VByteGroups` | include/DataFeedHub/utils/vbyte.hpp:24-40 | byte i of a written number holds its bits 7i to 7i + 6, a set top bit says that more follow, and no byte is superfluous |
| `Bytes.LittleEndianBytes` | include/DataFeedHub/storage/common/StorageMetadata.hpp:214-221 | byte i of a fixed-width number holds its bits 8i to 8i + 7 |
| `Bytes.VBytePackerIsLawful` | include/DataFeedHub/utils/vbyte.hpp:72-103 | the contract assumed of list packers (unpacking a prefix gives the list and uses up exactly what was written) can be met: continuation groups of seven bits meet it |
| `RepeatEncoding.EncodeZeroWithRepeats` | include/DataFeedHub/compression/utils/repeat_encoding.hpp:95-121 | in place: what is left in the buffer is the code of the original elements although the loop overwrites its own input, no more words than were read, and nothing behind the code is touched |
| `RepeatEncoding.DecodeZeroWithRepeats` | include/DataFeedHub/compression/utils/repeat_encoding.hpp:123-141 | writes exactly the expansion of the code, where an odd word stands for a run of zeros |
| `RepeatEncoding.ZeroRoundTrip` | include/DataFeedHub/compression/utils/repeat_encoding.hpp:95-141 | expanding the zero-run code of values and lengths below 2^31 gives the values back |
| `RepeatEncoding.ZeroRunsNeverLonger` | include/DataFeedHub/compression/utils/repeat_encoding.hpp:95-121 | the zero-run code is never longer than its input, consists of 32-bit words, and is not empty while the count stays below 2^32 |
| `RepeatEncoding.EncodeWithRepeats` | include/DataFeedHub/compression/utils/repeat_encoding.hpp:21-60 | the loop emits the packed-run code of its input, at most as many words as it read |
| `RepeatEncoding.DecodeWithRepeats` | include/DataFeedHub/compression/utils/repeat_encoding.hpp:62-91 | writes exactly the expansion of a packed-run code, splitting each odd word into value and count |
| `RepeatEncoding.PackedRoundTrip` | include/DataFeedHub/compression/utils/repeat_encoding.hpp:21-91 | packed runs lose nothing while values keep the top bit free and no run of small values reaches the count limit, on 32-bit words with up to 30 value bits and on 64-bit words with up to 62 |
| `RepeatEncoding.PackedRunsNeverLonger` | include/DataFeedHub/compression/utils/repeat_encoding.hpp:21-60 | the packed code is never longer than its input |
| `RepeatEncoding.EncodeRunLength` | include/DataFeedHub/compression/utils/repeat_encoding.hpp:255-291 | the loop emits the run-length code: runs of four and more as a tagged value and a count, shorter ones literally; the count wraps at 2^32 |
| `RepeatEncoding.DecodeRunLength` | include/DataFeedHub/compression/utils/repeat_encoding.hpp:293-312 | writes exactly the expansion of a complete run-length code |
| `RepeatEncoding.RunLengthRoundTrip` | include/DataFeedHub/compression/utils/repeat_encoding.hpp:255-312 | for values below 2^31 the code is complete (every tagged word has its count), and it expands to the input exactly when no run overflows the 32-bit counter, which fewer than 2^32 elements never do |
| `RepeatEncoding.LengthRunsNeverLonger` | include/DataFeedHub/compression/utils/repeat_encoding.hpp:255-291 | run-length coding never lengthens the data |
| `RepeatEncoding.ZeroRunFormat` | include/DataFeedHub/compression/utils/repeat_encoding.hpp:95-121 | the zero-run code run by run: a non-zero value doubled, n zeros at the start or after a zero as 2n + 1, otherwise the first zero as it is and the rest counted |
| `RepeatEncoding.LengthRunFormat` | include/DataFeedHub/compression/utils/repeat_encoding.hpp:255-291 | the length code run by run: four and more as the tagged value and the count, fewer as doubled values, the first element of a later run apart |
| `RepeatEncoding.PackedRunFormat` | include/DataFeedHub/compression/utils/repeat_encoding.hpp:21-60 | the packed code run by run: wide values doubled, a run of a small value as one word with tag, value and count in their bit fields, the first element of a later run apart |
| `FrequencyEncoding.EncodeFrequency` | include/DataFeedHub/compression/utils/frequency_encoding.hpp:21-66 | the table holds the distinct values by falling frequency with ties by value; every output code points at its input value; the index map counts up; input and output may be one array |
| `FrequencyEncoding.DecodeFrequency` | include/DataFeedHub/compression/utils/frequency_encoding.hpp:159-192 | each code becomes the table value listed for it, for any one-to-one index map, also when input and output are one array |
| `FrequencyEncoding.TableIsUnique` | include/DataFeedHub/compression/utils/frequency_encoding.hpp:40-60 | frequency order with ties by value determines the table completely |
| `FrequencyEncoding.CodesAreBijective` | include/DataFeedHub/compression/utils/frequency_encoding.hpp:21-66 | codes are equal exactly for equal values, and every code below the table size occurs |
| `FrequencyEncoding.CodesFollowFrequency` | include/DataFeedHub/compression/utils/frequency_encoding.hpp:40-60 | one code is smaller than another exactly when its value is more frequent, or as frequent and smaller |
| `FrequencyEncoding.Rearrangement` | include/DataFeedHub/compression/utils/frequency_encoding.hpp:21-66 | falling weights against distinct naturals: no assignment has a smaller weighted sum than 0, 1, 2 and so on |
| `FrequencyEncoding.CodesAreMinimal` | include/DataFeedHub/compression/utils/frequency_encoding.hpp:21-66 | the sum of the emitted codes is minimal among all one-to-one assignments of naturals to the values |
| `DeltaEncoding.EncodeDeltaSorted` | include/DataFeedHub/compression/utils/zig_zag_delta.hpp:63-72 | with input and output the same buffer, the wrapped differences to the preceding element (the first to the initial value) |
| `DeltaEncoding.DecodeDeltaSorted` | include/DataFeedHub/compression/utils/zig_zag_delta.hpp:75-82 | in place, the running wrapped sums |
| `DeltaEncoding.SumsOfDeltas` | include/DataFeedHub/compression/utils/zig_zag_delta.hpp:63-82 | sums of the wrapped differences give every list of words back, sorted or not, as the frequency-ordered dictionary needs |
| `DeltaEncoding.EncodeDeltaZigZag` | include/DataFeedHub/compression/utils/zig_zag_delta.hpp:344-360 | in place; on 32-bit words it succeeds exactly when every step fits the signed width, on 64-bit words always, and then it leaves the zig-zag codes of the steps |
| `DeltaEncoding.DecodeDeltaZigZag` | include/DataFeedHub/compression/utils/zig_zag_delta.hpp:362-374 | in place, the running sums of the decoded steps |
| `DeltaEncoding.ZigZagRoundTrip` | include/DataFeedHub/compression/utils/zig_zag_delta.hpp:344-489 | zig-zag differences are words and decode to the original list, for every list of words and either width |
| `DeltaEncoding.EncodeLastDelta` | include/DataFeedHub/compression/utils/zig_zag_delta.hpp:185-240 | succeeds exactly when every price step fits the width, and then gives the codes of the steps; 64-bit differences wrap |
| `DeltaEncoding.DecodeLastDelta` | include/DataFeedHub/compression/utils/zig_zag_delta.hpp:208-257 | the prices rebuilt from the step codes |
| `DeltaEncoding.PriceRoundTrip` | include/DataFeedHub/compression/utils/zig_zag_delta.hpp:185-257 | the price codes are words of the width and rebuild exactly the prices |
| `DeltaEncoding.EncodeTimeDelta` | include/DataFeedHub/compression/utils/zig_zag_delta.hpp:138-166 | succeeds exactly on non-decreasing times from the initial one, and then gives the truncated gaps |
| `DeltaEncoding.DecodeTimeDelta` | include/DataFeedHub/compression/utils/zig_zag_delta.hpp:169-180 | the times rebuilt by adding the gaps |
| `DeltaEncoding.TimeRoundTrip` | include/DataFeedHub/compression/utils/zig_zag_delta.hpp:138-180 | ascending times are rebuilt exactly when every gap fits 32 bits, and only then |
| `DeltaEncoding.DeltaAt` | include/DataFeedHub/compression/utils/zig_zag_delta.hpp:63-72 | each stored difference is the difference to the element before, modulo the word size |
| `DeltaEncoding.ZigZagDeltaIs` | include/DataFeedHub/compression/utils/zig_zag_delta.hpp:344-360 | each zig-zag code is twice the step upwards, or twice the step downwards less one |
| `DeltaEncoding.StepsFitIs` | include/DataFeedHub/compression/utils/zig_zag_delta.hpp:344-360 | the 32-bit pass accepts exactly the lists whose neighbouring steps lie in [-2^31, 2^31) |
| `DeltaEncoding.PriceCodeAt` | include/DataFeedHub/compression/utils/zig_zag_delta.hpp:185-240 | each price code is twice the step upwards, or twice the step downwards less one |
| `DeltaEncoding.PriceStepsFitIs` | include/DataFeedHub/compression/utils/zig_zag_delta.hpp:185-206 | price steps fit 32 bits exactly when each lies in [-2^31, 2^31) |
| `DeltaEncoding.AscendingNeighbours` | include/DataFeedHub/compression/utils/zig_zag_delta.hpp:138-166 | the time pass accepts exactly the lists in which no time is smaller than the one before it |
| `DeltaEncoding.GapAt` | include/DataFeedHub/compression/utils/zig_zag_delta.hpp:138-166 | each stored gap is the time gap modulo 2^32 |
| `DeltaEncoding.GapsFitIs` | include/DataFeedHub/compression/utils/zig_zag_delta.hpp:138-166 | no gap is truncated exactly when every neighbouring gap is below 2^32 |
| `LaneEncoding.EncodeChunked` | include/DataFeedHub/compression/utils/zig_zag_delta.hpp:498-569 | blocks of k lanes coded against the last element of the block before, then the tail |
| `LaneEncoding.DecodeChunked` | include/DataFeedHub/compression/utils/zig_zag_delta.hpp:576-642 | block by block against the last decoded element, then the tail |
| `LaneEncoding.ChunkedRoundTrip` | include/DataFeedHub/compression/utils/zig_zag_delta.hpp:651-940 | the chunked forms invert each other for every block size, length, tail and initial value, on 32-bit and 64-bit words |
| `LaneEncoding.EncodeDeltaLanes` | include/DataFeedHub/compression/utils/zig_zag_delta.hpp:296-321 | the unaligned lane form gives element for element the codes of the scalar loop |
| `LaneEncoding.SignMask64` | include/DataFeedHub/compression/utils/zig_zag_delta.hpp:778-859 | the 64-bit sign mask assembled from two shifts is all zeros or all ones with the sign |
| `TickColumns.AppendColumn` | include/DataFeedHub/compression/ticks/TickCompressorV1/TickEncoderV1.hpp:40-82 | appends a column (counts, dictionary, index, codes) to the output and leaves what was there as its prefix |
| `TickColumns.ReadColumn` | include/DataFeedHub/compression/ticks/TickCompressorV1/TickDecoderV1.hpp:36-80 | self-delimiting: whatever bytes follow, the words, their width and the offset exactly behind the column are recovered |
| `TickColumns.EncodePriceLast` | include/DataFeedHub/compression/ticks/TickCompressorV1/TickEncoderV1.hpp:26-82 | appends one price column: 32-bit when every step fits, otherwise the 64-bit form, with the output unchanged when the first pass gives up |
| `TickColumns.DecodePriceLast` | include/DataFeedHub/compression/ticks/TickCompressorV1/TickDecoderV1.hpp:26-88 | recovers the prices and stops exactly behind the column on both paths |
| `TickColumns.ScaleVolume` | include/DataFeedHub/compression/utils/volume_scaling.hpp:17-65 | the 32-bit pass succeeds exactly when all volumes fit, and gives the words of its width |
| `TickColumns.EncodeVolume` | include/DataFeedHub/compression/ticks/TickCompressorV1/TickEncoderV1.hpp:89-144 | appends one volume column, 32-bit when all scaled volumes fit, otherwise 64-bit |
| `TickColumns.DecodeVolume` | include/DataFeedHub/compression/ticks/TickCompressorV1/TickDecoderV1.hpp:96-158 | recovers the volume words and stops exactly behind the column on both paths |
| `TickColumns.VolumesSurvive` | include/DataFeedHub/compression/ticks/TickCompressorV1/TickEncoderV1.hpp:89-144 | volumes come back unchanged exactly when none is negative |
| `TickColumns.EncodeTime` | include/DataFeedHub/compression/ticks/TickCompressorV1/TickEncoderV1.hpp:151-177 | appends one time column, or fails and leaves the output as it was when the times are not ascending |
| `TickColumns.DecodeTime` | include/DataFeedHub/compression/ticks/TickCompressorV1/TickDecoderV1.hpp:166-198 | recovers the times from the base and stops exactly behind the column |
| `TickColumns.ColumnLayout` | include/DataFeedHub/compression/ticks/TickCompressorV1/TickEncoderV1.hpp:40-82 | the parts of a column in their order, with the length of the table doubled and the width in its low bit when tagged |
| `TickColumns.IndexWordsAre` | include/DataFeedHub/compression/ticks/TickCompressorV1/TickEncoderV1.hpp:40-82 | the stored index is 0 once and then 2 for every further table entry |
| `TickColumns.WidthsAre` | include/DataFeedHub/compression/ticks/TickCompressorV1/TickEncoderV1.hpp:26-144 | the 32-bit layout is used exactly when every price step lies in [-2^31, 2^31), or every volume is at most 2^32 - 1 |
| `TickCompressor.EncodeSideFlags` | include/DataFeedHub/compression/ticks/TickCompressorV1/TickEncoderV1.hpp:183-207 | appends one byte per tick with the buy bit |
| `TickCompressor.DecodeSideFlags` | include/DataFeedHub/compression/ticks/TickCompressorV1/TickDecoderV1.hpp:205-252 | sets buy or sell on the new ticks only |
| `TickCompressor.SidesReadBack` | include/DataFeedHub/compression/ticks/TickCompressorV1/TickEncoderV1.hpp:183-207 | the bit of each byte of the side column is the side of its tick |
| `TickCompressor.Compressor.Compress` | include/DataFeedHub/compression/ticks/TickCompressorV1.hpp:95-183 | success exactly for an empty list, or with tick flags enabled, at most 18 digits and no time smaller than the one before; nothing appended on failure, and on success a complete frame behind the earlier output |
| `TickCompressor.Compressor.Decompress` | include/DataFeedHub/compression/ticks/TickCompressorV1.hpp:203-294 | an empty input changes nothing, a wrong signature is an error, and a frame restores the configuration and appends exactly the restored ticks behind untouched earlier ones: price, side and enabled volume of the source, the opposite sell flag, the volume flag exactly when volumes are enabled, the last-price flag on the first tick only, every other flag and both quotes empty |
| `TickCompressor.CompressOutcome` | include/DataFeedHub/compression/ticks/TickCompressorV1.hpp:95-117 | which error each input gives: disabled tick flags, more than 18 digits, a time smaller than the one before it |
| `TickCompressor.RestoredTickLaw` | include/DataFeedHub/compression/ticks/TickCompressorV1.hpp:203-294 | every field and every flag of a restored tick, on the source tick and the configuration |
| `TickCompressor.HeaderLayout` | include/DataFeedHub/compression/ticks/TickCompressorV1.hpp:119-150 | the two header bytes bit by bit, and the five numbers behind them: hour, both expirations as zig-zag distances from the hour, first price, tick size |
| `TickCompressor.FrameLayout` | include/DataFeedHub/compression/ticks/TickCompressorV1.hpp:95-183 | the signature byte 1, the number of ticks, and the squeezed payload with that header |
| `TickCompressor.TimesSurvive` | include/DataFeedHub/compression/ticks/TickCompressorV1.hpp:119-160 | all times survive exactly when the hour number fits 32 bits and every gap fits 32 bits |
| `TickCompressor.RelativeTimeSurvives` | include/DataFeedHub/compression/ticks/TickCompressorV1.hpp:140-155 | an expiration time survives exactly when the hour number fits 32 bits |
| `TickCompressor.ConfigSurvives` | include/DataFeedHub/compression/ticks/TickCompressorV1.hpp:119-160 | digits and header flags always survive; both expirations survive exactly when the hour number fits 32 bits, the tick size exactly when it is a 64-bit word, and the two flags the format lacks are cleared |
| `TickCompressor.RoundTripIsFaithful` | include/DataFeedHub/compression/ticks/TickCompressorV1.hpp:95-294 | times, prices, volumes if enabled, sides, the first update flag, digits, the three header flags and both expirations all survive exactly when the hour number and the gaps fit and no stored volume is negative |
| `TickCompressor.RoundTrip` | include/DataFeedHub/compression/ticks/TickCompressorV1.hpp:95-309 | compressing with one object and decompressing with another: the outcome, the restored configuration and every field and flag of every tick, for every input in type range |
| `SpreadProcessors.PlaceTick` | include/DataFeedHub/core/MarketDataBuffer/NoneSpreadProcessor.hpp:49-55 | one step of the loop that writes the per-second index keeps every written entry the least index at or after its second |
| `SpreadProcessors.CloseIndex` | include/DataFeedHub/core/MarketDataBuffer/NoneSpreadProcessor.hpp:57-59 | the remaining entries get the last index, which completes the table |
| `SpreadProcessors.Processors.Process` | include/DataFeedHub/core/MarketDataBuffer/DynamicSpreadProcessor.hpp:34-128 | succeeds exactly when every tick to be quoted has a side; the ticks and the remembered spreads become the fold of the hour, and entry k of the index is the least tick at or after second k, or the last tick |
| `SpreadProcessors.TimesKept` | include/DataFeedHub/core/MarketDataBuffer/DynamicSpreadProcessor.hpp:34-128 | no processor changes the time, price, volume or side of a tick |
| `SpreadProcessors.SameIndex` | include/DataFeedHub/core/MarketDataBuffer/NoneSpreadProcessor.hpp:28-63 | the index depends on the times alone, so all four processors build the same table |
| `SpreadLaws.HourPrefix` | include/DataFeedHub/core/MarketDataBuffer/DynamicSpreadProcessor.hpp:43-128 | what happened to the first ticks does not depend on the later ones |
| `SpreadLaws.QuoteLaw` | include/DataFeedHub/core/MarketDataBuffer/DynamicSpreadProcessor.hpp:43-128 | a quoted buy has its price as ask, any other quoted tick as bid, a tick that is not quoted repeats both quotes before it, and without a spread model both quotes stay |
| `SpreadLaws.FlagLaw` | include/DataFeedHub/core/MarketDataBuffer/DynamicSpreadProcessor.hpp:43-128 | the flags left by restoration: the first tick gains the last-price flag when its price differs from the tick before the hour, a tick with that flag gains the ask and bid flags, nothing else changes |
| `SpreadLaws.QuotableIs` | include/DataFeedHub/core/MarketDataBuffer/DynamicSpreadProcessor.hpp:43-128 | an hour is accepted exactly when every tick to be quoted, the first and those whose price changed, is a buy or a sell |
| `SpreadLaws.QualifyingMoveIs` | include/DataFeedHub/core/MarketDataBuffer/DynamicSpreadProcessor.hpp:58-110 | which moves count: a buy above a sell, or a non-buy below a buy, on the first tick or one whose price changed, with the price difference as its size |
| `SpreadLaws.FixedSpreadLaw` | include/DataFeedHub/core/MarketDataBuffer/FixedSpreadProcessor.hpp:41-96 | ask minus bid is the configured constant on every tick, copied quotes included |
| `SpreadLaws.DynamicSpreadLaw` | include/DataFeedHub/core/MarketDataBuffer/DynamicSpreadProcessor.hpp:43-128 | ask minus bid on each tick is the latest qualifying opposite-side move so far, or what was carried into the hour |
| `SpreadLaws.DynamicOverRun` | include/DataFeedHub/core/MarketDataBuffer/DynamicSpreadProcessor.hpp:34-128 | over any run of hours: on each tick it is the last of the seed, all moves of the earlier hours and the moves of this hour so far |
| `SpreadLaws.MedianSpreadLaw` | include/DataFeedHub/core/MarketDataBuffer/MedianSpreadProcessor.hpp:56-132 | each qualifying move sets the spread to the median of the last three raw spreads; other ticks keep it |
| `SpreadLaws.MedianFilterIsMedian` | include/DataFeedHub/utils/math_utils.hpp:55-63 | the three-way comparison returns a median of its arguments |
| `SpreadLaws.RunLaw` | include/DataFeedHub/core/MarketDataBuffer/MedianSpreadProcessor.hpp:34-146 | after any run of hours the remembered raw spreads are the last ones of the seeds followed by every move of every hour |
| `SpreadLaws.HourDependsOnTrade` | include/DataFeedHub/core/MarketDataBuffer/DynamicSpreadProcessor.hpp:34-60 | an hour depends on the tick before it only through its price, time, volume and side, so that the tick as it came in and the restored one do equally well |
| `SpreadLaws.SpreadsAreNotNegative` | include/DataFeedHub/core/MarketDataBuffer/DynamicSpreadProcessor.hpp:34-128 | no quote ever has a negative spread when the seed and the carried spreads are not negative |
| `SpreadLaws.RunSpreadsAreNotNegative` | include/DataFeedHub/core/MarketDataBuffer/DynamicSpreadProcessor.hpp:34-128 | over any run of hours the carried spreads stay non-negative when the seeds are |
| `SpreadLaws.RunQuotesAreNotNegative` | include/DataFeedHub/core/MarketDataBuffer/DynamicSpreadProcessor.hpp:34-128 | no quote of any hour of any run has a negative spread when the seeds are not negative |
| `StreamTickBuffer.StatelessHour` | include/DataFeedHub/core/MarketDataBuffer/FixedSpreadProcessor.hpp:32-110 | without a spread or with a fixed one the restored hour depends only on its own ticks and the last tick before |
| `StreamTickBuffer.StreamTickBuffer.ReloadTicks` | include/DataFeedHub/core/MarketDataBuffer/StreamTickBuffer.hpp:306-320 | replays the hour before, and leaves the requested ticks with the last tick of that hour remembered |
| `StreamTickBuffer.StreamTickBuffer.FetchTicks` | include/DataFeedHub/core/MarketDataBuffer/StreamTickBuffer.hpp:113-137 | success exactly when the hours to be quoted can be; for all four models the ticks and the spreads left behind are the fold of the hour from what is carried into it, which is the remembered state when the hour follows and the replay of the hour before otherwise; every successful fetch leaves a valid buffer with a complete index, or a cleared flag and a zero table for an empty hour; for the none and fixed models streaming and reloading agree |
| `StreamTickBuffer.StreamTickBuffer.SetTickSpan` | include/DataFeedHub/core/MarketDataBuffer/StreamTickBuffer.hpp:84-107 | the span is exactly the ticks of [start, end), without a read outside, whenever the tick where the search starts lies before end, and only then; the backward loop reads before the first tick exactly when the search starts at the first tick and that tick is not before end; an empty span when no tick is at or after start; exact whenever the range holds a tick |
| `StreamTickBuffer.LateTickReadsBeforeFirst` | include/DataFeedHub/core/MarketDataBuffer/StreamTickBuffer.hpp:84-107 | a buffer filled with an hour whose single tick comes five seconds after its start, asked for the first second, reads before the first tick |
| `StreamTickBuffer.FetchNext` | include/DataFeedHub/core/MarketDataBuffer/StreamTickBuffer.hpp:113-137 | the fetch of the next hour of a gapless sequence continues the run of hours: ticks and remembered spreads are those of the run laws, success exactly when the hour can be quoted |
| `StreamTickBuffer.ReplayHours` | include/DataFeedHub/core/MarketDataBuffer/StreamTickBuffer.hpp:113-137 | fetching n consecutive hours succeeds exactly when all of them and the one before can be quoted, and then the last hour carries the quotes of the whole run, for every model |
| `BlockBits.LowBitsAreRemainder` | include/DataFeedHub/utils/DynamicBitset.hpp:97-225 | the truncating shift of the model is arithmetic modulo 2^n, and the bound on a block is 2^64 |
| `BlockBits.BitsOfShl` | include/DataFeedHub/utils/DynamicBitset.hpp:97-139 | bit k of a block shifted left is bit k - b, inside the block |
| `BlockBits.BitsOfShr` | include/DataFeedHub/utils/DynamicBitset.hpp:97-139 | bit k of a block shifted right is bit k + b |
| `DynamicBitset.LeftShiftIsLogical` | include/DataFeedHub/utils/DynamicBitset.hpp:97-116 | on the declared positions the multi-word left shift is the logical shift for every size, every shift and whatever the unused bits hold |
| `DynamicBitset.RightShiftLaw` | include/DataFeedHub/utils/DynamicBitset.hpp:121-139 | the right shift is the logical shift exactly when no unused bit is set within the shift distance above the declared size; a clean last block suffices |
| `DynamicBitset.RightShiftKeepsClean` | include/DataFeedHub/utils/DynamicBitset.hpp:121-139 | a right shift leaves the unused bits zero |
| `DynamicBitset.LeftShiftKeepsClean` | include/DataFeedHub/utils/DynamicBitset.hpp:97-116 | a left shift leaves the unused bits zero exactly when no bit passes the declared size within the last block |
| `DynamicBitset.StrayBitReturns` | include/DataFeedHub/utils/DynamicBitset.hpp:97-139 | a concrete set for which a bit that was shifted out of the set comes back with the next right shift |
| `DynamicBitset.StagedLeft` | include/DataFeedHub/utils/DynamicBitset.hpp:166-193 | moving whole blocks and then carrying bits is the shift by both at once |
| `DynamicBitset.StagedRight` | include/DataFeedHub/utils/DynamicBitset.hpp:198-225 | the same to the right |
| `DynamicBitset.DynamicBitset.constructor` | include/DataFeedHub/utils/DynamicBitset.hpp:22-24 | a new set of zero blocks |
| `DynamicBitset.DynamicBitset.Resize` | include/DataFeedHub/utils/DynamicBitset.hpp:28-31 | bits in the remaining blocks are kept, new blocks are zero, and the unused bits are not cleared |
| `DynamicBitset.DynamicBitset.Set` | include/DataFeedHub/utils/DynamicBitset.hpp:43-48 | exactly one bit changes, or the position is out of range and nothing does |
| `DynamicBitset.DynamicBitset.Reset` | include/DataFeedHub/utils/DynamicBitset.hpp:52-55 | exactly one bit is cleared, or nothing when out of range |
| `DynamicBitset.DynamicBitset.ResetAll` | include/DataFeedHub/utils/DynamicBitset.hpp:58-60 | every block is zero |
| `DynamicBitset.DynamicBitset.IsSet` | include/DataFeedHub/utils/DynamicBitset.hpp:65-68 | the bit at a position in range, an error outside |
| `DynamicBitset.DynamicBitset.Intersect` | include/DataFeedHub/utils/DynamicBitset.hpp:73-80 | bit by bit the conjunction, or the size error; clean when either side is |
| `DynamicBitset.DynamicBitset.Union` | include/DataFeedHub/utils/DynamicBitset.hpp:85-92 | bit by bit the disjunction, or the size error; clean when both sides are |
| `DynamicBitset.DynamicBitset.IntersectWith` | include/DataFeedHub/utils/DynamicBitset.hpp:144-150 | the same in place, also with itself |
| `DynamicBitset.DynamicBitset.UniteWith` | include/DataFeedHub/utils/DynamicBitset.hpp:155-161 | the same in place, also with itself |
| `DynamicBitset.DynamicBitset.LeftShifted` | include/DataFeedHub/utils/DynamicBitset.hpp:97-116 | the loop over source blocks builds the shifted list |
| `DynamicBitset.DynamicBitset.RightShifted` | include/DataFeedHub/utils/DynamicBitset.hpp:121-139 | the loop over source blocks builds the shifted list |
| `DynamicBitset.DynamicBitset.ShiftLeftInPlace` | include/DataFeedHub/utils/DynamicBitset.hpp:166-193 | the carry loop leaves the same blocks as the new object of the other form |
| `DynamicBitset.DynamicBitset.ShiftRightInPlace` | include/DataFeedHub/utils/DynamicBitset.hpp:198-225 | the carry loop leaves the same blocks as the new object of the other form |
| `DynamicBitset.DynamicBitset.IndicesOfSetBits` | include/DataFeedHub/utils/DynamicBitset.hpp:229-236 | exactly the positions of the members, in strictly increasing order |
| `Resample.ResampleWith` | include/DataFeedHub/transform/bars/resample_market_bars.hpp:16-265 | each of the four loops yields the walk that opens a bar only where a time equals the next boundary |
| `Resample.ResampleBars` | include/DataFeedHub/transform/bars/resample_market_bars.hpp:274-294 | empty input first, then the flags in their order, and the error when spreads are enabled without a mode |
| `Resample.GroupsByBucket` | include/DataFeedHub/transform/bars/resample_market_bars.hpp:16-265 | on sorted bars the loop groups by floor(time / target) exactly when no boundary is jumped over |
| `Resample.AggregateLaw` | include/DataFeedHub/transform/bars/resample_market_bars.hpp:16-265 | the bar of a group: first open, last close, highest high, lowest low, sums, tick volume modulo 2^32, and the spread of the strategy (the average is the 32-bit sum by the 32-bit count, rounded down, and zero for a count that wrapped to zero) |
| `Resample.ResamplingLaw` | include/DataFeedHub/transform/bars/resample_market_bars.hpp:16-265 | one output bar for each occurring bucket, in order, each the aggregate of exactly the input bars of that bucket |
| `Resample.VolumeIsConserved` | include/DataFeedHub/transform/bars/resample_market_bars.hpp:16-265 | all four volumes are conserved and tick volume modulo 2^32, for any times at all |
| `Resample.FineBarsContinue` | include/DataFeedHub/transform/bars/resample_market_bars.hpp:16-265 | resampled bars can be resampled again: they are sorted and meet every boundary of every multiple of their interval |
| `Resample.TwoStepsAreOne` | include/DataFeedHub/transform/bars/resample_market_bars.hpp:16-134 | resampling to m and then to a multiple of m equals resampling to the multiple, for sorted bars that meet every boundary of m, under the last, max and no-spread strategies |
| `Resample.TwoStepResampling` | include/DataFeedHub/transform/bars/resample_market_bars.hpp:16-265 | the documented case: gapless bars, a step dividing m dividing n, for the last, max and no-spread forms |
| `Resample.GaplessIsContinuous` | include/DataFeedHub/transform/bars/resample_market_bars.hpp:274-294 | gapless aligned bars are sorted and meet every boundary of every multiple of their step |
| `AverageSpreads.OnlySpreadsDiffer` | include/DataFeedHub/transform/bars/resample_market_bars.hpp:16-265 | for any bars the four strategies give the same bars up to their spreads, and the no-spread form does not look at the input spreads |
| `AverageSpreads.TwoStepsAgreeUpToSpreads` | include/DataFeedHub/transform/bars/resample_market_bars.hpp:16-265 | under every strategy, averaging included, two steps and one give the same bars up to their spreads |
| `AverageSpreads.FineBarsAre` | include/DataFeedHub/transform/bars/resample_market_bars.hpp:142-205 | the fine bars of a coarse bucket are the aggregates of the fine groups of that bucket's input bars |
| `AverageSpreads.AverageTwice` | include/DataFeedHub/transform/bars/resample_market_bars.hpp:142-205 | averaging, coarse bar by coarse bar while the 32-bit sums do not overflow: all other fields agree; the one-step spread is the floor of the mean of the bars, the two-step spread the floor of the mean of the floors; they are equal exactly when the sum of the spreads exceeds the two-step spread times the number of bars by at least zero and less than that number; for fine groups of one size c the two-step spread is never larger, and equal exactly when c * (A mod q) + R < c * q, with A the sum of the fine floors, R the sum of the fine remainders and q the number of groups |
| `AverageSpreads.AverageTwiceGapless` | include/DataFeedHub/transform/bars/resample_market_bars.hpp:142-205 | gapless bars, c to a fine bar and q fine bars to a coarse one: wherever the bars fill the coarse bucket the two results are the same bar exactly when c * (A mod q) + R < c * q |
| `AverageSpreads.AveragesLieBetween` | include/DataFeedHub/transform/bars/resample_market_bars.hpp:142-205 | with groups of any sizes both averages lie between the least and the greatest average of the fine groups |
| `AverageSpreads.EqualAveragesAgree` | include/DataFeedHub/transform/bars/resample_market_bars.hpp:142-205 | with groups of any sizes, incomplete ones at the edges included, two steps give the bar of one step when the fine averages of its bucket are all the same |
| `AverageSpreads.AverageTwiceDiffers` | include/DataFeedHub/transform/bars/resample_market_bars.hpp:142-205 | four gapless bars that fill their coarse bucket, with the spreads 1, 0, 1, 2: averaging once gives 1, averaging by two and two gives 0 |
| `GapFiller.FillMissingBars` | include/DataFeedHub/transform/bars/bar_gap_filler.hpp:16-50 | a length error exactly when there are bars and the range ends two intervals or more before its start; otherwise the copying loop, with its index and remembered spread, yields the filled copy |
| `GapFiller.FilledCopyLaw` | include/DataFeedHub/transform/bars/bar_gap_filler.hpp:16-50 | the filled copy has exactly one bar for each grid time of [start, end): the input bar where the loop can meet it, otherwise a bar whose four prices are the latest earlier close, with its spread and nothing in any volume, or the first close when there is none |
| `GapFiller.AlignedIsUsable` | include/DataFeedHub/transform/bars/bar_gap_filler.hpp:16-50 | the loop can meet every input bar exactly when the bars are on the grid, at or after the start and strictly increasing |
| `GapFiller.FillMissingInPlace` | include/DataFeedHub/transform/bars/bar_gap_filler.hpp:58-108 | ends although it grows the vector it walks, and leaves leading fillers, filled gaps and trailing fillers |
| `GapFiller.FillInside` | include/DataFeedHub/transform/bars/bar_gap_filler.hpp:82-95 | the nested loops with insertions leave the vector with every gap between neighbours filled |
| `GapFiller.InPlaceLaw` | include/DataFeedHub/transform/bars/bar_gap_filler.hpp:58-108 | in place, for any bars: fillers at the first open from the start to the first bar, in every gap fillers at the close and spread of the bar before it, after the last bar fillers at its close to the end; every filler has four equal prices and no volume |
| `GapFiller.FormsAgree` | include/DataFeedHub/transform/bars/bar_gap_filler.hpp:16-108 | on aligned bars the two forms give the same list exactly when the last bar lies before end and either nothing precedes the first bar or its open equals its close |
| `GapFiller.FormsDisagreeOnOpening` | include/DataFeedHub/transform/bars/bar_gap_filler.hpp:31-71 | one bar in the second interval with open 1 and close 2: the fillers of the first interval differ |
| `BarSegments.CropBefore` | include/DataFeedHub/transform/common/crop_by_time.hpp:18-25 | keeps exactly the bars at or after the bound, in order |
| `BarSegments.CropAfter` | include/DataFeedHub/transform/common/crop_by_time.hpp:32-39 | keeps exactly the bars before the bound, in order |
| `BarSegments.CropsGiveRange` | include/DataFeedHub/transform/common/crop_by_time.hpp:18-39 | both crops, in either order, leave exactly the bars of [start, end) |
| `BarSegments.CropMembers` | include/DataFeedHub/transform/common/crop_by_time.hpp:18-39 | the crops keep a bar exactly when it is at or after, or before, the bound |
| `BarSegments.SplitBars` | include/DataFeedHub/transform/bars/split_bars.hpp:15-47 | succeeds exactly on sorted bars and then gives the runs of equal segment |
| `BarSegments.SplitLaw` | include/DataFeedHub/transform/bars/split_bars.hpp:15-47 | the segments concatenate to the input, none is empty, they are strictly ordered, and each is all of its segment |
| `BarSegments.SegmentsStayInside` | include/DataFeedHub/storage/mdbx/MDBXStorage/BarBD.hpp:98-102 | the last bar of a split segment lies before the end of the segment of the first |
| `BarRecord.BarSerializer.Serialize` | include/DataFeedHub/compression/bars/BarBinarySerializerV1.hpp:36-115 | the record of the bars exactly when raw binary is enabled, no digits exceed 18 and the time frame is one of the eleven; each refusal exactly in its case and in this order; an untouched buffer otherwise |
| `BarRecord.BarSerializer.Deserialize` | include/DataFeedHub/compression/bars/BarBinarySerializerV1.hpp:120-188 | step by step through the bytes; from bytes that are the record of some bars it recovers exactly these bars and the kept part of their configuration; what it returns for other bytes is the parse, and on an error the bars are kept |
| `BarRecord.BarRoundTrip` | include/DataFeedHub/compression/bars/BarBinarySerializerV1.hpp:196-199 | the 80 bytes of a bar read back as the bar |
| `BarRecord.RecordRoundTrip` | include/DataFeedHub/compression/bars/BarBinarySerializerV1.hpp:36-188 | a record reads back as its bars and its configuration, except the tick size and the raw-binary flag |
| `BarRecord.ReadBackCannotWrite` | include/DataFeedHub/compression/bars/BarBinarySerializerV1.hpp:133-138 | the configuration read back is refused by the writer, and only because the raw-binary flag was cleared |
| `BarRecord.SegmentLengths` | include/DataFeedHub/data/bars/enums.hpp:95-113 | 3,600,000 ms for the second frames, 86,400,000 for the minute frames and the hour, 604,800,000 for four hours and the day, none otherwise |
| `BarRecord.RecordLayout` | include/DataFeedHub/compression/bars/BarBinarySerializerV1.hpp:50-115 | a record byte by byte: zero, the number of bars, four header bytes, time frame, segment number, both expirations as distances, the images of the bars |
| `BarRecord.HeadersLayout` | include/DataFeedHub/compression/bars/BarBinarySerializerV1.hpp:72-100 | digits and flags in the bits of the four header bytes |
| `BarRecord.BarLayout` | include/DataFeedHub/compression/bars/BarBinarySerializerV1.hpp:196-199 | the fields of a bar in the 80 bytes, in the order of the struct |
| `BarRecord.DistanceCode` | include/DataFeedHub/compression/bars/BarBinarySerializerV1.hpp:104-110 | an expiration at or after the start of the segment has an even code, an earlier one an odd code |
| `BarStore.KeysAreDistinct` | include/DataFeedHub/utils/symbol_key_utils.hpp:27-113 | keys fit 64 bits and are equal exactly for equal symbols and equal segments modulo 2^35; the symbol key can be taken apart |
| `BarStore.KeyLayout` | include/DataFeedHub/utils/symbol_key_utils.hpp:30-113 | three bits of market, ten of exchange, sixteen of symbol and thirty-five of segment, from the top |
| `BarStore.TablesAreDistinct` | include/DataFeedHub/storage/mdbx/MDBXStorage/BarBD.hpp:369-384 | supported time frames have different tables, in the order of their length |
| `BarStore.PlacesAreDistinct` | include/DataFeedHub/storage/mdbx/MDBXStorage/BarBD.hpp:103-104 | different segments below 2^35, of any symbols and time frames, have different rows |
| `BarStore.PlaceIs` | include/DataFeedHub/storage/common/MarketDataStorageHub.hpp:275-302 | the backend is the first suitable one at the literal start of the segment, the row the table of the frame and the bit fields of the key |
| `BarStore.BarBD.Upsert` | include/DataFeedHub/storage/mdbx/MDBXStorage/BarBD.hpp:91-170 | one row written under the segment key exactly when the bars stay inside the segment and can be serialized, no row otherwise; inside means that the last time lies below the end of the hour, the day or the week of the first, as the time frame has it |
| `BarStore.BarBD.Fetch` | include/DataFeedHub/storage/mdbx/MDBXStorage/BarBD.hpp:203-221 | the record of one segment replaces the vector; absent rows and bad records, an empty row among them, leave it |
| `BarStore.RouteIsFirst` | include/DataFeedHub/storage/common/MarketDataStorageHub.hpp:447-462 | the first backend whose second flag bit is set, whose lists hold the symbol, the exchange and the market, and whose bounds, zero being none, admit the time; none exactly when no backend does |
| `BarStore.MarketDataStorageHub.FindStorageIndex` | include/DataFeedHub/storage/common/MarketDataStorageHub.hpp:447-462 | the loop, with its binary searches in the sorted lists, returns the first backend with the flag, the three identifiers and the time, or the exception when there is none |
| `BarStore.MarketDataStorageHub.Upsert` | include/DataFeedHub/storage/common/MarketDataStorageHub.hpp:275-302 | sorted bars never trip the boundary check; unsorted bars are refused before any write; success exactly when every segment is routed and the configuration serializes, and then the tables hold all segments; on failure a prefix of the segments |
| `BarStore.PutAllLaw` | include/DataFeedHub/storage/common/MarketDataStorageHub.hpp:275-302 | after an upsert every segment row holds its record and every other row of every backend is unchanged |
| `BarStore.SegmentsReadBackInOrder` | include/DataFeedHub/storage/common/MarketDataStorageHub.hpp:191-232 | reading the written segments in order from the backends that routing picks gives back all the bars |
| `BarStore.UpsertThenHolds` | include/DataFeedHub/storage/common/MarketDataStorageHub.hpp:275-302 | after an upsert into a range without older records the range holds exactly the bars written |
| `BarStore.MarketDataStorageHub.Fetch` | include/DataFeedHub/storage/common/MarketDataStorageHub.hpp:191-232 | the loop over segments and the conditional crops, with the errors of routing and reading |
| `BarStore.ReadRangeOutcome` | include/DataFeedHub/storage/common/MarketDataStorageHub.hpp:191-232 | a range read fails exactly when a segment of it has no suitable backend or a row that is no record, and otherwise finds bars exactly when a segment of it has a row |
| `BarStore.CroppedMembers` | include/DataFeedHub/storage/common/MarketDataStorageHub.hpp:224-230 | the bars read are cropped at the start and at the end, except where these fall on a segment boundary |
| `BarStore.RangeRead` | include/DataFeedHub/storage/common/MarketDataStorageHub.hpp:191-232 | a range read returns the part of the range in the last stored segment it covers, which is all of the range exactly when no bar of it lies elsewhere |
| `BarStore.RangeInsideSegment` | include/DataFeedHub/storage/common/MarketDataStorageHub.hpp:191-232 | a range inside one segment reads back exactly its bars in [start, end) |
| `BarStore.WrittenThenRead` | include/DataFeedHub/storage/common/MarketDataStorageHub.hpp:191-302 | bars stored into a range without older records read back as exactly the bars of [start, end), when the range lies in one hour, day or week, whichever the time frame is stored by |
| `BarStore.RangeAcrossSegmentsLosesBars` | include/DataFeedHub/storage/common/MarketDataStorageHub.hpp:209-217 | two bars of the range in different segments: the result is not the range |
| `BarStore.TwoDaysLoseABar` | include/DataFeedHub/storage/common/MarketDataStorageHub.hpp:191-232 | two one-minute bars on consecutive days, written to one backend and read with one range: the result is not the range |
| `Transactions.MDBXTransaction.Begin` | include/DataFeedHub/storage/mdbx/MDBXTransaction.hpp:46-61 | refused when already started; opened only when the database succeeds |
| `Transactions.MDBXTransaction.Commit` | include/DataFeedHub/storage/mdbx/MDBXTransaction.hpp:65-81 | refused when not open; a failed commit keeps the handle |
| `Transactions.MDBXTransaction.Rollback` | include/DataFeedHub/storage/mdbx/MDBXTransaction.hpp:85-101 | refused when not open; a failed abort keeps the handle |
| `Transactions.MDBXTransaction.Destroy` | include/DataFeedHub/storage/mdbx/MDBXTransaction.hpp:30-42 | closes an open handle by aborting |
| `Transactions.TransactionGuard.Begin` | include/DataFeedHub/storage/common/TransactionGuard.hpp:36-46 | the loop, the hooks and the flag are one begin step of the state machine, for any failing operations |
| `Transactions.TransactionGuard.Commit` | include/DataFeedHub/storage/common/TransactionGuard.hpp:50-61 | the hooks, the loop and the flag are one commit step |
| `Transactions.TransactionGuard.Rollback` | include/DataFeedHub/storage/common/TransactionGuard.hpp:65-73 | one rollback step |
| `Transactions.TransactionGuard.Destroy` | include/DataFeedHub/storage/common/TransactionGuard.hpp:21-29 | the swallowing loop and then the handles |
| `Transactions.StepKeepsInv` | include/DataFeedHub/storage/common/TransactionGuard.hpp:36-73 | every call keeps the two-zone shape of the list, whatever fails during it |
| `Transactions.EveryRunIsSafe` | include/DataFeedHub/storage/common/TransactionGuard.hpp:36-73 | in every run the committed transactions form a prefix, none is begun, committed or rolled back twice, and none is both committed and rolled back |
| `Transactions.DestructionClosesAll` | include/DataFeedHub/storage/common/TransactionGuard.hpp:21-29 | after destruction nothing is open: every begun transaction was committed or rolled back, once, and no commit was added |
| `Transactions.PartlyFinishedIsStuck` | include/DataFeedHub/storage/common/TransactionGuard.hpp:50-73 | in a started guard of which a transaction is already committed or rolled back, after a commit or a rollback that failed part-way, no further call changes anything, and commit and rollback report errors |
| `Transactions.CanFinishExactly` | include/DataFeedHub/storage/common/TransactionGuard.hpp:50-73 | a started guard can still commit, and can still roll back, exactly when none of its transactions is committed or rolled back |
| `Transactions.CanBeginExactly` | include/DataFeedHub/storage/common/TransactionGuard.hpp:36-46 | a guard that is not started can begin exactly while none of its transactions is open; otherwise begin reports an error and changes nothing |
| `Transactions.StuckGuardsAreReachable` | include/DataFeedHub/storage/common/TransactionGuard.hpp:36-73 | two transactions of which the second fails once while committing, or while rolling back: the runs end in guards of that kind |
| `Transactions.WithoutFaults` | include/DataFeedHub/storage/common/TransactionGuard.hpp:36-61 | without failures begin and commit leave every transaction committed |
| `Transactions.BeginOutcome` | include/DataFeedHub/storage/common/TransactionGuard.hpp:36-46 | what begin does in every case: nothing on a started guard; otherwise the transactions before the first open or failing one are opened, and the guard is started exactly when there is none and no hook fails |
| `Transactions.CommitOutcome` | include/DataFeedHub/storage/common/TransactionGuard.hpp:50-61 | what commit does in every case: errors before begin and on a failing hook, without any change; nothing on a completed guard; otherwise the transactions before the first closed or failing one are committed |
| `Transactions.RollbackOutcome` | include/DataFeedHub/storage/common/TransactionGuard.hpp:65-73 | the same for rollback, which has no hooks |
| `Transactions.DestroyOutcome` | include/DataFeedHub/storage/common/TransactionGuard.hpp:21-29 | what destruction does in every case: every open transaction is rolled back once, by the guard or by its handle, and nothing else changes |
| `SortedLists.Added` | include/DataFeedHub/storage/common/StorageMetadata.hpp:55-59 | insertion at the lower bound keeps the list strictly increasing with the element added once |
| `SortedLists.Removed` | include/DataFeedHub/storage/common/StorageMetadata.hpp:63-67 | exactly the element is gone |
| `SortedLists.Difference` | include/DataFeedHub/storage/common/StorageMetadata.hpp:262-270 | the two-pointer difference keeps exactly the elements not listed |
| `SortedLists.Canonical` | include/DataFeedHub/storage/common/StorageMetadata.hpp:55-99 | a strictly increasing list is determined by its elements |
| `SortedLists.CountFits` | include/DataFeedHub/storage/common/StorageMetadata.hpp:232-239 | strictly increasing identifiers below a bound are no more than the bound, so the 32-bit counts never truncate |
| `StorageMetadata.OperationsKeepValid` | include/DataFeedHub/storage/common/StorageMetadata.hpp:151-180 | merging and subtracting keep the lists strictly increasing and every field in its width |
| `StorageMetadata.MergeLaws` | include/DataFeedHub/storage/common/StorageMetadata.hpp:151-167 | merging is idempotent, commutative and associative on the representation |
| `StorageMetadata.MergedFields` | include/DataFeedHub/storage/common/StorageMetadata.hpp:151-167 | every field of the merged metadata on the two inputs: flag bits of either, the earlier start and the later end with zero as not set, members of either list |
| `StorageMetadata.SubtractLaws` | include/DataFeedHub/storage/common/StorageMetadata.hpp:171-180 | on the lists subtraction is set difference; merging what was subtracted gives the union |
| `StorageMetadata.SubtractedFields` | include/DataFeedHub/storage/common/StorageMetadata.hpp:171-180 | every field after subtraction: flag bits and members not in the other, the later start, the earlier end |
| `StorageMetadata.MergeCoversTimes` | include/DataFeedHub/storage/common/StorageMetadata.hpp:144-167 | the merged range covers both ranges exactly when the two agree on which bounds are zero |
| `StorageMetadata.MergeNarrowsUnlimited` | include/DataFeedHub/storage/common/StorageMetadata.hpp:144-167 | metadata without bounds merged with the range 1000 to 2000 no longer accepts time 0 |
| `StorageMetadata.SerializeRoundTrip` | include/DataFeedHub/storage/common/StorageMetadata.hpp:184-212 | reading what was written gives the metadata and uses up exactly what was written |
| `StorageMetadata.SerializedLayout` | include/DataFeedHub/storage/common/StorageMetadata.hpp:184-194 | flags, start and end in 4, 8 and 8 bytes, then symbols, exchanges and markets |
| `StorageMetadata.ListLayout` | include/DataFeedHub/storage/common/StorageMetadata.hpp:214-239 | a list is its length in four bytes and its elements in their width |
| `StorageMetadata.CutShortIsRefused` | include/DataFeedHub/storage/common/StorageMetadata.hpp:223-255 | every proper prefix of the written bytes is refused |
| `StorageMetadata.StorageMetadata.AddMarketType` | include/DataFeedHub/storage/common/StorageMetadata.hpp:55-59 | the list gains exactly this element and stays strictly increasing; nothing else changes |
| `StorageMetadata.StorageMetadata.AddExchangeId` | include/DataFeedHub/storage/common/StorageMetadata.hpp:71-75 | the list gains exactly this element and stays strictly increasing; nothing else changes |
| `StorageMetadata.StorageMetadata.AddSymbolId` | include/DataFeedHub/storage/common/StorageMetadata.hpp:87-91 | the list gains exactly this element and stays strictly increasing; nothing else changes |
| `StorageMetadata.StorageMetadata.RemoveMarketType` | include/DataFeedHub/storage/common/StorageMetadata.hpp:63-67 | the list loses exactly this element; nothing else changes |
| `StorageMetadata.StorageMetadata.RemoveExchangeId` | include/DataFeedHub/storage/common/StorageMetadata.hpp:79-83 | the list loses exactly this element; nothing else changes |
| `StorageMetadata.StorageMetadata.RemoveSymbolId` | include/DataFeedHub/storage/common/StorageMetadata.hpp:95-99 | the list loses exactly this element; nothing else changes |
| `StorageMetadata.StorageMetadata.HasSymbol` | include/DataFeedHub/storage/common/StorageMetadata.hpp:116-118 | the binary search is membership |
| `StorageMetadata.StorageMetadata.HasExchange` | include/DataFeedHub/storage/common/StorageMetadata.hpp:123-125 | the binary search is membership |
| `StorageMetadata.StorageMetadata.HasMarketType` | include/DataFeedHub/storage/common/StorageMetadata.hpp:130-132 | the binary search is membership |
| `StorageMetadata.StorageMetadata.MergeWith` | include/DataFeedHub/storage/common/StorageMetadata.hpp:151-167 | flags joined, earlier start and later end with zero as not set, lists united; the other object may be this one |
| `StorageMetadata.StorageMetadata.Subtract` | include/DataFeedHub/storage/common/StorageMetadata.hpp:171-180 | flags removed, the start raised and the end lowered, lists subtracted |
| `StorageMetadata.StorageMetadata.Serialize` | include/DataFeedHub/storage/common/StorageMetadata.hpp:184-194 | the bytes, which deserialize to the object |
| `StorageMetadata.StorageMetadata.Deserialize` | include/DataFeedHub/storage/common/StorageMetadata.hpp:200-212 | succeeds exactly when no read passes the end, and then holds what the bytes say |

## Left out

- The bodies of zstd, libvbyte and simdcomp: a squeezer with `Lossless` and list packers with `Lawful` are parameters, and one packer is shown to be lawful.
- Floating-point rounding, `normalize_double` and `compare_with_precision`: prices and volumes are scaled integers.
- The scratch vectors of the compression context: they are arrays local to each method, so reuse between calls is not modelled.
- SpreadProcessors.Processors.Process: the four processor classes share one class with the fields of all of them, dispatching on the model; what each does is taken from its own file.
- RepeatEncoding.EncodeRunLength: the 64-bit encoder is not modelled, since it has no decoder.
- FrequencyEncoding.EncodeFrequency: inputs of 2^32 elements and more, whose 32-bit counts and codes would wrap, are excluded.
- LaneEncoding.EncodeChunked: the block size is a parameter that stands for the eight-lane and four-lane forms; the intrinsics themselves are read lane by lane.
- The aligned SSE2 branches of `encode_delta_zig_zag_int32` and `_int64`, the scalar branches of the chunked decoders, and `encode_delta_int32`: none of them is inverted by its decoder.
- TickCompressor.Compressor.Decompress: for a buffer with the right signature that no compressor wrote, nothing is claimed; the code reads it without bounds checks.
- TickCompressor.DecodeSideFlags: the offset behind the side column is not modelled; the code advances it by an eighth of the column, and nothing follows.
- Tick flag bits without a name in the model, and the second and later update flags, which the format does not keep.
- StreamTickBuffer.StreamTickBuffer.FetchTicks: the source is a fixed function of the hour, and times before the first full hour are excluded.
- `StreamTickBuffer::append_ticks` and its loaders: they reprocess or drop ticks around hour changes.
- `DynamicBitset::clear`, and the second overload of `set`, whose default argument makes it ambiguous with the first.
- Resample.ResampleWith: the four loops, equal but for the spread, are one method with the strategy as parameter; bucket times near 2^64 do not wrap.
- GapFiller.FillMissingBars: negative start times, which the code compares as unsigned numbers, are excluded.
- GapFiller.FillMissingInPlace: the last bar is read by value; the code keeps a reference into the vector that it then grows.
- BarStore.MarketDataStorageHub.Fetch: an end time of zero, which wraps to the largest time, is excluded; the configuration handed back is modelled for one segment only.
- AverageSpreads.AverageTwice: buckets whose spreads add up to 2^32 or more, where the sum wraps, are excluded; the mean of the wrapped sum is in `Resample.AggregateLaw`.
- BarStore.MarketDataStorageHub.FindStorageIndex: the lists of the backends' metadata are assumed sorted, as the metadata class keeps them.
- BarRecord.BarSerializer.Deserialize: a buffer that ends inside a variable-length number is reported as too small, where the code reads on; the configuration after an error is not specified.
- StorageMetadata.StorageMetadata.Deserialize: which fields were already assigned when a read fails is not specified.
- Bar metadata counts, `erase` and `erase_data` of the bar tables, and `set_time_range`.
- Backends are maps: failures of the database inside a put or a get are not modelled, and a partly written upsert is undone only by rolling back.
- Read-only transactions, whose handle belongs to the connection.
- `MarketDataBus`, `MarketDataBuffer`, `MarketSnapshot`, and the tick and funding tables: unfinished code.
- Connections, SQLite, CSV and ZIP parsing, JSON, enum names, factories: plumbing.
