/**
 The byte columns of a compressed tick vector. A column of words is recoded by
 frequency, its codes are run-length coded, its value table is stored as wrapped
 differences, and everything is packed behind two length prefixes.

 The scratch vectors the encoder and the decoder share are local arrays here,
 with arbitrary initial contents.
 */
module TickColumns {
  import opened Words
  import opened Bytes
  import opened RepeatEncoding
  import opened FrequencyEncoding
  import opened DeltaEncoding

  /**
   `tagged`: the length prefix carries the width in its low bit. `packedCodes`: the codes
   go through the list packer.
   */
  datatype Layout = Layout(width: Width, tagged: bool, packedCodes: bool) {

    function Header(n: nat): nat {
      if tagged then W32.Wrap(2 * n) + (if width.W64? then 1 else 0) else n
    }
  }

  function TableBytes(p: Packer, l: Layout, words: seq<nat>): seq<byte> {
    match l.width
    case W32 => p.pack(words)
    case W64 => VBytes(words)
  }

  function CodeBytes(p: Packer, l: Layout, words: seq<nat>): seq<byte> {
    if l.packedCodes then p.pack(words) else VBytes(words)
  }

  /** The codes of the identity map 0, 1, 2, ... that accompanies every table. */
  function IndexWords(n: nat): seq<nat> { ZigZagDeltas(W32, 0, Iota(n)) }

  /** The bytes of a column, given its table and its codes. */
  function Column(p: Packer, l: Layout, table: seq<nat>, codes: seq<nat>): seq<byte>
    requires codes != []
  {
    var runs := EncodedZeros(codes);
    VByte(l.Header(|table|))
    + (TableBytes(p, l, Deltas(l.width, 0, table))
    + (p.pack(IndexWords(|table|))
    + (VByte(|runs|)
    + CodeBytes(p, l, runs))))
  }

  /** `bytes` is the column of `values`: the table and the codes are those of the frequency coder. */
  ghost predicate IsColumn(p: Packer, l: Layout, values: seq<nat>, bytes: seq<byte>)
    requires values != []
  {
    exists table, codes :: IsCoding(values, table, codes) && bytes == Column(p, l, table, codes)
  }

  // ---------------------------------------------------------------------------
  // Writing a column
  // ---------------------------------------------------------------------------

  lemma {:induction false} IotaStepsFit(n: nat, k: nat)
    requires k <= n <= 0x8000_0000
    ensures StepsFit(W32, if k == 0 then 0 else k - 1, Iota(n)[k..])
    decreases n - k
  {
    if k < n {
      IotaStepsFit(n, k + 1);
      TailStep(Iota(n), k);
    }
  }

  lemma TableSize(s: seq<nat>, t: seq<nat>)
    requires IsTable(s, t)
    ensures |t| <= |s|
    ensures s != [] ==> t != []
  {
    forall i, j | 0 <= i < j < |t|
      ensures t[i] != t[j]
    {
      assert Precedes(s, t[i], t[j]);
    }
    DistinctSetSize(t);
    ValueSetSize(s);
    assert (set i | 0 <= i < |t| :: t[i]) <= (set i | 0 <= i < |s| :: s[i]) by {
      forall i | 0 <= i < |t| ensures t[i] in s {}
    }
    SubsetSize(set i | 0 <= i < |t| :: t[i], set i | 0 <= i < |s| :: s[i]);
    assert s != [] ==> s[0] in s;
  }

  lemma {:induction false} ValueSetSize(s: seq<nat>)
    ensures |set i | 0 <= i < |s| :: s[i]| <= |s|
  {
    if s != [] {
      var init := s[..|s| - 1];
      ValueSetSize(init);
      assert (set i | 0 <= i < |s| :: s[i]) == (set i | 0 <= i < |init| :: init[i]) + {s[|s| - 1]};
    }
  }

  lemma SubsetSize(a: set<nat>, b: set<nat>)
    requires a <= b
    ensures |a| <= |b|
  {
    assert b == a + (b - a);
  }

  /** Turns a sequence into the scratch array a pass works on. */
  method ToArray(s: seq<nat>) returns (a: array<nat>)
    ensures fresh(a) && a[..] == s
  {
    a := new nat[|s|](i requires 0 <= i < |s| => s[i]);
  }

  /**
   The common tail of the three column encoders: recodes `values` in place (in
   the wide layout the codes get an array of their own), then writes the column.
   No pass in here can fail, so an overflow is only ever reported before the
   output has been touched.
   */
  method AppendColumn(p: Packer, l: Layout, output: seq<byte>, values: array<nat>)
      returns (r: seq<byte>, ghost column: seq<byte>)
    requires 0 < values.Length < 0x8000_0000
    modifies values
    ensures r == output + column
    ensures IsColumn(p, l, old(values[..]), column)
  {
    ghost var s := values[..];
    var codes := values;
    if l.width.W64? { codes := new nat[values.Length]; }
    var sortedValues, indexMap, runs, coded := RecodeValues(values, codes);
    TableSize(s, sortedValues);
    var tableWords := TableToWords(l.width, sortedValues);
    var indexWords := IndexToWords(indexMap);
    column := Column(p, l, sortedValues, coded);
    r := AppendParts(output, VByte(l.Header(|sortedValues|)), TableBytes(p, l, tableWords), p.pack(indexWords),
                     VByte(|runs|), CodeBytes(p, l, runs));
  }

  /** Frequency recoding, then run-length coding of the codes where they stand. */
  method RecodeValues(values: array<nat>, codes: array<nat>)
    returns (sortedValues: seq<nat>, indexMap: seq<nat>, runs: seq<nat>, ghost coded: seq<nat>)
    requires 0 < values.Length == codes.Length < 0x8000_0000
    modifies codes
    ensures IsCoding(old(values[..]), sortedValues, coded)
    ensures indexMap == Iota(|sortedValues|)
    ensures runs == EncodedZeros(coded)
  {
    sortedValues, indexMap := EncodeFrequency(values, codes);
    coded := codes[..];
    assert codes[..codes.Length] == coded;
    var size := EncodeZeroWithRepeats(codes, codes.Length);
    runs := codes[..size];
  }

  method TableToWords(w: Width, sortedValues: seq<nat>) returns (words: seq<nat>)
    ensures words == Deltas(w, 0, sortedValues)
  {
    var table := ToArray(sortedValues);
    EncodeDeltaSorted(w, table, 0);
    words := table[..];
  }

  method IndexToWords(indexMap: seq<nat>) returns (words: seq<nat>)
    requires |indexMap| <= 0x8000_0000 && indexMap == Iota(|indexMap|)
    ensures words == IndexWords(|indexMap|)
  {
    var index := ToArray(indexMap);
    IotaStepsFit(|indexMap|, 0);
    assert indexMap[0..] == indexMap;
    var ok := EncodeDeltaZigZag(W32, index, 0);
    assert ok;
    words := index[..];
  }

  /** The five appends, one after the other. */
  method AppendParts(output: seq<byte>, a: seq<byte>, b: seq<byte>, c: seq<byte>, d: seq<byte>, e: seq<byte>)
      returns (r: seq<byte>)
    ensures r == output + (a + (b + (c + (d + e))))
  {
    r := output + a;
    r := r + b;
    r := r + c;
    r := r + d;
    r := r + e;
    assert output + (a + (b + (c + (d + e)))) == output + a + b + c + d + e;
  }

  // ---------------------------------------------------------------------------
  // Reading a column
  // ---------------------------------------------------------------------------

  method ReadTable(p: Packer, l: Layout, binary: seq<byte>, offset: nat, count: nat, ghost words: seq<nat>)
    returns (table: array<nat>, next: nat)
    requires p.Lawful() && AllUnsigned(l.width, words) && count == |words|
    requires At(binary, offset, TableBytes(p, l, words))
    ensures fresh(table) && table[..] == words
    ensures next == offset + |TableBytes(p, l, words)|
  {
    var parsed;
    match l.width {
      case W32 =>
        UnpackPacked(p, words, binary, offset);
        parsed := p.unpack(binary, offset, count);
      case W64 =>
        VBytesRoundTrip(words, binary, offset);
        parsed := ReadVBytes(binary, offset, count);
    }
    table := ToArray(parsed.value);
    next := parsed.next;
  }

  method ReadCodes(p: Packer, l: Layout, binary: seq<byte>, offset: nat, count: nat, ghost words: seq<nat>)
    returns (codes: seq<nat>, next: nat)
    requires p.Lawful() && AllUnsigned(W32, words) && count == |words|
    requires At(binary, offset, CodeBytes(p, l, words))
    ensures codes == words
    ensures next == offset + |CodeBytes(p, l, words)|
  {
    var parsed;
    if l.packedCodes {
      UnpackPacked(p, words, binary, offset);
      parsed := p.unpack(binary, offset, count);
    } else {
      VBytesRoundTrip(words, binary, offset);
      parsed := ReadVBytes(binary, offset, count);
    }
    codes, next := parsed.value, parsed.next;
  }

  method ReadIndex(p: Packer, binary: seq<byte>, offset: nat, count: nat) returns (index: array<nat>, next: nat)
    requires p.Lawful() && At(binary, offset, p.pack(IndexWords(count)))
    requires count < 0x8000_0000
    ensures fresh(index) && index[..] == Iota(count)
    ensures next == offset + |p.pack(IndexWords(count))|
  {
    ZigZagDeltasShape(W32, 0, Iota(count));
    ZigZagRoundTrip(W32, 0, Iota(count));
    UnpackPacked(p, IndexWords(count), binary, offset);
    var parsed := p.unpack(binary, offset, count);
    index := ToArray(parsed.value);
    next := parsed.next;
    DecodeDeltaZigZag(W32, index, 0);
  }

  /** The length prefix: in a tagged layout the low bit tells which of the two widths follows. */
  lemma HeaderReadsBack(l: Layout, n: nat)
    requires n < 0x8000_0000
    ensures l.tagged ==> l.Header(n) / 2 == n && (l.Header(n) % 2 == 1 <==> l.width.W64?)
    ensures !l.tagged ==> l.Header(n) == n
  {
    WrapSmall(W32, 2 * n);
  }

  /** Where the parts of a column lie. */
  lemma ColumnParts(p: Packer, l: Layout, table: seq<nat>, codes: seq<nat>, binary: seq<byte>, offset: nat)
    requires codes != [] && At(binary, offset, Column(p, l, table, codes))
    ensures
      var runs := EncodedZeros(codes);
      var t := offset + |VByte(l.Header(|table|))|;
      var i := t + |TableBytes(p, l, Deltas(l.width, 0, table))|;
      var n := i + |p.pack(IndexWords(|table|))|;
      var c := n + |VByte(|runs|)|;
      && At(binary, offset, VByte(l.Header(|table|)))
      && At(binary, t, TableBytes(p, l, Deltas(l.width, 0, table)))
      && At(binary, i, p.pack(IndexWords(|table|)))
      && At(binary, n, VByte(|runs|))
      && At(binary, c, CodeBytes(p, l, runs))
      && offset + |Column(p, l, table, codes)| == c + |CodeBytes(p, l, runs)|
  {
    var runs := EncodedZeros(codes);
    FiveParts(binary, offset, VByte(l.Header(|table|)), TableBytes(p, l, Deltas(l.width, 0, table)),
              p.pack(IndexWords(|table|)), VByte(|runs|), CodeBytes(p, l, runs));
  }

  lemma FiveParts(binary: seq<byte>, offset: nat, a: seq<byte>, b: seq<byte>, c: seq<byte>, d: seq<byte>, e: seq<byte>)
    requires At(binary, offset, a + (b + (c + (d + e))))
    ensures At(binary, offset, a)
    ensures At(binary, offset + |a|, b)
    ensures At(binary, offset + |a| + |b|, c)
    ensures At(binary, offset + |a| + |b| + |c|, d)
    ensures At(binary, offset + |a| + |b| + |c| + |d|, e)
  {
    AtSplit(binary, offset, a, b + (c + (d + e)));
    AtSplit(binary, offset + |a|, b, c + (d + e));
    AtSplit(binary, offset + |a| + |b|, c, d + e);
    AtSplit(binary, offset + |a| + |b| + |c|, d, e);
  }

  lemma CodesAreSmall(values: seq<nat>, table: seq<nat>, codes: seq<nat>)
    requires IsCoding(values, table, codes) && 0 < |values| < 0x8000_0000
    ensures |table| < 0x8000_0000
    ensures ExpandZeros(EncodedZeros(codes)) == codes
    ensures AllUnsigned(W32, EncodedZeros(codes))
  {
    TableSize(values, table);
    ZeroRoundTrip(codes);
    ZeroRunsNeverLonger(codes[0], 0, codes);
  }

  lemma TableWordsFit(w: Width, values: seq<nat>, table: seq<nat>)
    requires IsTable(values, table) && AllUnsigned(w, values)
    ensures AllUnsigned(w, table) && |Deltas(w, 0, table)| == |table| && AllUnsigned(w, Deltas(w, 0, table))
    ensures Sums(w, 0, Deltas(w, 0, table)) == table
  {
    forall i | 0 <= i < |table|
      ensures w.Unsigned(table[i])
    {
      assert table[i] in values;
    }
    DeltasShape(w, 0, table);
    SumsOfDeltas(w, 0, table);
  }

  /**
   The common part of the three column decoders. Wherever a column stands in the
   buffer, whatever follows it, its words come back and the offset moves exactly
   past it. `values` and `column` only name what was written there.
   */
  method ReadColumn(p: Packer, tagged: bool, packedCodes: bool, binary: seq<byte>, offset: nat, count: nat,
                    ghost w: Width, ghost values: seq<nat>, ghost column: seq<byte>)
    returns (words: array<nat>, width: Width, next: nat)
    requires p.Lawful() && count == |values| && 0 < |values| < 0x8000_0000
    requires AllUnsigned(w, values) && (!tagged ==> w == W32)
    requires IsColumn(p, Layout(w, tagged, packedCodes), values, column) && At(binary, offset, column)
    ensures fresh(words) && words[..] == values
    ensures width == w && next == offset + |column|
  {
    ghost var table, codes :| IsCoding(values, table, codes)
        && column == Column(p, Layout(w, tagged, packedCodes), table, codes);
    CodesAreSmall(values, table, codes);
    TableWordsFit(w, values, table);
    var tableWords, index, runs;
    tableWords, index, runs, width, next := ReadParts(p, tagged, packedCodes, binary, offset, w, table, codes);
    words := ExpandWords(width, tableWords, index, runs, count, values, table, codes);
  }

  /** The unpacking of the five parts of a column. */
  method ReadParts(p: Packer, tagged: bool, packedCodes: bool, binary: seq<byte>, offset: nat,
                   ghost w: Width, ghost table: seq<nat>, ghost codes: seq<nat>)
    returns (tableWords: array<nat>, index: array<nat>, runs: seq<nat>, width: Width, next: nat)
    requires p.Lawful() && codes != [] && |table| < 0x8000_0000 && (!tagged ==> w == W32)
    requires |Deltas(w, 0, table)| == |table| && AllUnsigned(w, Deltas(w, 0, table))
             && AllUnsigned(W32, EncodedZeros(codes))
    requires At(binary, offset, Column(p, Layout(w, tagged, packedCodes), table, codes))
    ensures fresh(tableWords) && fresh(index) && tableWords != index
    ensures tableWords[..] == Deltas(w, 0, table) && index[..] == Iota(|table|) && runs == EncodedZeros(codes)
    ensures width == w && next == offset + |Column(p, Layout(w, tagged, packedCodes), table, codes)|
  {
    hide At, Column, VByte, ReadVByte, Deltas, EncodedZeros, IndexWords, TableBytes, CodeBytes, AllUnsigned,
         Packer.Lawful;
    ghost var l := Layout(w, tagged, packedCodes);
    ColumnParts(p, l, table, codes, binary, offset);
    HeaderReadsBack(l, |table|);
    VByteRoundTrip(l.Header(|table|), binary, offset);
    var header := ReadVByte(binary, offset);
    width := if tagged && header.value % 2 == 1 then W64 else W32;
    var length := if tagged then header.value / 2 else header.value;
    assert width == w && length == |table|;
    var layout := Layout(width, tagged, packedCodes);
    var afterTable, afterIndex;
    tableWords, afterTable := ReadTable(p, layout, binary, header.next, length, Deltas(w, 0, table));
    index, afterIndex := ReadIndex(p, binary, afterTable, length);
    VByteRoundTrip(|EncodedZeros(codes)|, binary, afterIndex);
    var size := ReadVByte(binary, afterIndex);
    runs, next := ReadCodes(p, layout, binary, size.next, size.value, EncodedZeros(codes));
  }

  /** The passes after the bytes have been unpacked: table, runs, codes. */
  method ExpandWords(w: Width, table: array<nat>, index: array<nat>, runs: seq<nat>, count: nat,
                     ghost values: seq<nat>, ghost t: seq<nat>, ghost codes: seq<nat>)
    returns (words: array<nat>)
    requires table != index && count == |values| == |codes|
    requires IsCoding(values, t, codes) && Sums(w, 0, table[..]) == t && index[..] == Iota(|t|)
    requires ExpandZeros(runs) == codes
    modifies table
    ensures fresh(words) && words[..] == values
  {
    DecodeDeltaSorted(w, table, 0);
    words := new nat[count];
    var size := DecodeZeroWithRepeats(runs, words);
    assert words[..] == words[..count] == codes;
    var sortedValues, indexMap := table[..], index[..];
    forall i | 0 <= i < count
      ensures words[i] < |sortedValues|
    {
      assert words[..][i] == codes[i];
    }
    ghost var coded := words[..];
    DecodeFrequency(words, words, sortedValues, indexMap);
    forall i | 0 <= i < count
      ensures words[i] == values[i]
    {
      assert indexMap[coded[i]] == coded[i];
      assert sortedValues[codes[i]] == values[i];
    }
  }

  // ---------------------------------------------------------------------------
  // Price
  // ---------------------------------------------------------------------------

  /** Prices use 32-bit differences when all of them fit, and fall back to 64 bits otherwise. */
  function PriceWidth(prices: seq<int>, initial: int): (w: Width)
    ensures PriceStepsFit(w, initial, prices)
  {
    if PriceStepsFit(W32, initial, prices) then W32 else WideStepsFit(initial, prices); W64
  }

  ghost predicate IsPriceColumn(p: Packer, prices: seq<int>, initial: int, column: seq<byte>)
    requires prices != []
  {
    var w := PriceWidth(prices, initial);
    var codes := PriceCodes(w, initial, prices);
    codes != [] && IsColumn(p, Layout(w, true, true), codes, column)
  }

  method EncodePriceLast(p: Packer, output: seq<byte>, prices: seq<int>, initial: int)
    returns (r: seq<byte>, ghost column: seq<byte>)
    requires 0 < |prices| < 0x8000_0000
    ensures r == output + column && IsPriceColumn(p, prices, initial, column)
    ensures |r| >= |output| && r[..|output|] == output && IsPriceColumn(p, prices, initial, r[|output|..])
  {
    PriceCodesShape(PriceWidth(prices, initial), initial, prices);
    var narrow := new nat[|prices|];
    var fits := EncodeLastDelta(W32, prices, initial, narrow);
    if fits {
      r, column := AppendColumn(p, Layout(W32, true, true), output, narrow);
    } else {
      // The overflow was reported by the delta pass: the output is still as it was.
      var wide := new nat[|prices|];
      WideStepsFit(initial, prices);
      fits := EncodeLastDelta(W64, prices, initial, wide);
      r, column := AppendColumn(p, Layout(W64, true, true), output, wide);
    }
    assert r[|output|..] == column;
  }

  method DecodePriceLast(p: Packer, binary: seq<byte>, offset: nat, count: nat, initial: int,
                         ghost prices: seq<int>, ghost column: seq<byte>)
    returns (r: seq<int>, next: nat)
    requires p.Lawful() && count == |prices| && 0 < |prices| < 0x8000_0000 && AllSigned(W64, prices)
    requires IsPriceColumn(p, prices, initial, column) && At(binary, offset, column)
    ensures r == prices && next == offset + |column|
  {
    ghost var w := PriceWidth(prices, initial);
    PriceCodesShape(w, initial, prices);
    PriceRoundTrip(w, initial, prices);
    var words, width, end := ReadColumn(p, true, true, binary, offset, count, w, PriceCodes(w, initial, prices),
        column);
    r := DecodeLastDelta(width, words, initial);
    next := end;
  }

  // ---------------------------------------------------------------------------
  // Volume
  // ---------------------------------------------------------------------------

  /** `static_cast` of the rounded, possibly negative volume to an unsigned word. */
  function VolumeWords(w: Width, volumes: seq<int>): (r: seq<nat>)
    ensures |r| == |volumes| && forall i :: 0 <= i < |volumes| ==> r[i] == w.Wrap(volumes[i])
  {
    seq(|volumes|, i requires 0 <= i < |volumes| => w.Wrap(volumes[i]))
  }

  /** `scale_volume_int32` reports any volume above 2^32 - 1; it does not look for negative ones. */
  predicate VolumesFit(volumes: seq<int>) { forall i :: 0 <= i < |volumes| ==> volumes[i] < 0x1_0000_0000 }

  function VolumeWidth(volumes: seq<int>): Width { if VolumesFit(volumes) then W32 else W64 }

  ghost predicate IsVolumeColumn(p: Packer, volumes: seq<int>, column: seq<byte>)
    requires volumes != []
  {
    var w := VolumeWidth(volumes);
    IsColumn(p, Layout(w, true, false), VolumeWords(w, volumes), column)
  }

  method ScaleVolume(w: Width, volumes: seq<int>, output: array<nat>) returns (ok: bool)
    requires output.Length == |volumes|
    modifies output
    ensures ok == (w.W32? ==> VolumesFit(volumes))
    ensures ok == (w.W32? ==> forall i :: 0 <= i < |volumes| ==> volumes[i] <= 4_294_967_295)
    ensures ok ==> output[..] == VolumeWords(w, volumes)
  {
    for i := 0 to |volumes|
      invariant w.W32? ==> forall j :: 0 <= j < i ==> volumes[j] < 0x1_0000_0000
      invariant forall j :: 0 <= j < i ==> output[j] == w.Wrap(volumes[j])
    {
      if w.W32? && volumes[i] >= 0x1_0000_0000 { return false; }
      output[i] := w.Wrap(volumes[i]);
    }
    return true;
  }

  method EncodeVolume(p: Packer, output: seq<byte>, volumes: seq<int>) returns (r: seq<byte>, ghost column: seq<byte>)
    requires 0 < |volumes| < 0x8000_0000
    ensures r == output + column && IsVolumeColumn(p, volumes, column)
    ensures |r| >= |output| && r[..|output|] == output && IsVolumeColumn(p, volumes, r[|output|..])
  {
    var narrow := new nat[|volumes|];
    var fits := ScaleVolume(W32, volumes, narrow);
    if fits {
      r, column := AppendColumn(p, Layout(W32, true, false), output, narrow);
    } else {
      var wide := new nat[|volumes|];
      fits := ScaleVolume(W64, volumes, wide);
      r, column := AppendColumn(p, Layout(W64, true, false), output, wide);
    }
    assert r[|output|..] == column;
  }

  method DecodeVolume(p: Packer, binary: seq<byte>, offset: nat, count: nat, ghost volumes: seq<int>,
      ghost column: seq<byte>)
    returns (r: seq<nat>, next: nat)
    requires p.Lawful() && count == |volumes| && 0 < |volumes| < 0x8000_0000
    requires IsVolumeColumn(p, volumes, column) && At(binary, offset, column)
    ensures r == VolumeWords(VolumeWidth(volumes), volumes)
    ensures next == offset + |column|
  {
    ghost var w := VolumeWidth(volumes);
    var words, width, end := ReadColumn(p, true, false, binary, offset, count, w, VolumeWords(w, volumes), column);
    r, next := words[..], end;
  }

  /** The volumes come back exactly when none of them is negative. */
  lemma VolumesSurvive(volumes: seq<int>)
    requires AllSigned(W64, volumes)
    ensures VolumeWords(VolumeWidth(volumes), volumes) == volumes <==>
            forall i :: 0 <= i < |volumes| ==> volumes[i] >= 0
  {
    var w := VolumeWidth(volumes);
    var words := VolumeWords(w, volumes);
    if forall i :: 0 <= i < |volumes| ==> volumes[i] >= 0 {
      forall i | 0 <= i < |volumes|
        ensures words[i] == volumes[i]
      {
        WrapSmall(w, volumes[i]);
      }
    } else {
      var i :| 0 <= i < |volumes| && volumes[i] < 0;
      assert words[i] != volumes[i];
    }
  }

  // ---------------------------------------------------------------------------
  // Time
  // ---------------------------------------------------------------------------

  ghost predicate IsTimeColumn(p: Packer, times: seq<nat>, initial: nat, column: seq<byte>)
    requires times != []
  {
    var gaps := Gaps(initial, times);
    gaps != [] && IsColumn(p, Layout(W32, false, false), gaps, column)
  }

  /** Reports times that are out of order; the output is then unchanged. */
  method EncodeTime(p: Packer, output: seq<byte>, times: seq<nat>, initial: nat)
    returns (ok: bool, r: seq<byte>, ghost column: seq<byte>)
    requires 0 < |times| < 0x8000_0000
    ensures ok == Ascending(initial, times)
    ensures ok ==> r == output + column && IsTimeColumn(p, times, initial, column)
    ensures !ok ==> r == output
  {
    GapsShape(initial, times);
    r, column := output, [];
    var gaps := new nat[|times|];
    ok := EncodeTimeDelta(times, initial, gaps);
    if ok {
      r, column := AppendColumn(p, Layout(W32, false, false), output, gaps);
    }
  }

  /** The decoder sums the gaps from its own base, which may differ from the base the encoder used. */
  method DecodeTime(p: Packer, binary: seq<byte>, offset: nat, count: nat, base: nat,
                    ghost initial: nat, ghost times: seq<nat>, ghost column: seq<byte>)
    returns (r: seq<nat>, next: nat)
    requires p.Lawful() && count == |times| && 0 < |times| < 0x8000_0000
    requires IsTimeColumn(p, times, initial, column) && At(binary, offset, column)
    ensures r == TimesFrom(base, Gaps(initial, times)) && next == offset + |column|
  {
    GapsShape(initial, times);
    var words, width, end := ReadColumn(p, false, false, binary, offset, count, W32, Gaps(initial, times), column);
    r := DecodeTimeDelta(words, base);
    next := end;
  }

  // ---------------------------------------------------------------------------
  // The format, part by part
  // ---------------------------------------------------------------------------

  /** The index map is 0, 1, 2 and so on, so its zig-zag steps are 0 once and then 2. */
  lemma IndexWordsAre(n: nat, i: nat)
    requires i < n <= 0x8000_0000
    ensures |IndexWords(n)| == n && IndexWords(n)[i] == if i == 0 then 0 else 2
  {
    ZigZagDeltaIs(W32, 0, Iota(n), i);
  }

  /**
   A column: the length of the table, doubled and with the width in its low bit when
   the layout is tagged, then the table, the index, the length of the codes, the codes.
   */
  lemma ColumnLayout(p: Packer, l: Layout, table: seq<nat>, codes: seq<nat>)
    requires codes != [] && |table| < 0x8000_0000
    ensures
      var column, runs, words := Column(p, l, table, codes), EncodedZeros(codes), Deltas(l.width, 0, table);
      var head := VByte(if l.tagged then 2 * |table| + (if l.width.W64? then 1 else 0) else |table|);
      var body, index := if l.width.W32? then p.pack(words) else VBytes(words), p.pack(IndexWords(|table|));
      var count, rest := VByte(|runs|), if l.packedCodes then p.pack(runs) else VBytes(runs);
      && At(column, 0, head)
      && At(column, |head|, body)
      && At(column, |head| + |body|, index)
      && At(column, |head| + |body| + |index|, count)
      && At(column, |head| + |body| + |index| + |count|, rest)
      && |column| == |head| + |body| + |index| + |count| + |rest|
  {
    hide VByte, VBytes, Deltas, EncodedZeros, IndexWords, At;
    var column, runs := Column(p, l, table, codes), EncodedZeros(codes);
    WrapSmall(W32, 2 * |table|);
    var h, t := VByte(l.Header(|table|)), TableBytes(p, l, Deltas(l.width, 0, table));
    var x, n, c := p.pack(IndexWords(|table|)), VByte(|runs|), CodeBytes(p, l, runs);
    AtStart(column);
    AtSplit(column, 0, h, t + (x + (n + c)));
    AtSplit(column, |h|, t, x + (n + c));
    AtSplit(column, |h| + |t|, x, n + c);
    AtSplit(column, |h| + |t| + |x|, n, c);
  }

  /** The width of a column: 32 bits exactly when every price step, or every volume, fits. */
  lemma WidthsAre(prices: seq<int>, initial: int, volumes: seq<int>)
    requires forall i :: 0 <= i < |prices| ==> W64.Signed(prices[i] - Preceding(initial, prices, i))
    ensures PriceWidth(prices, initial).W32? <==>
            forall i :: 0 <= i < |prices| ==> -0x8000_0000 <= prices[i] - Preceding(initial, prices, i) < 0x8000_0000
    ensures VolumeWidth(volumes).W32? <==> forall i :: 0 <= i < |volumes| ==> volumes[i] <= 4_294_967_295
  {
    PriceStepsFitIs(initial, prices);
  }
}
