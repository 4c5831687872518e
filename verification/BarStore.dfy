/** The bar tables of one backend, and the hub that routes segments to several backends. */
module BarStore {
  import opened Words
  import opened Bytes
  import opened Bars
  import opened Buckets
  import opened BarRecord
  import opened BarSegments
  import BlockBits
  import SortedLists
  import Routing = StorageMetadata

  // ---------------------------------------------------------------------------
  // Keys
  // ---------------------------------------------------------------------------

  datatype Symbol = Symbol(market: nat, exchange: nat, id: nat)

  /** The ranges of the key's fields: 3, 10 and 16 bits. */
  ghost predicate Keyed(s: Symbol) { s.market < 8 && s.exchange < 0x400 && s.id < 0x1_0000 }

  const SEGMENT_LIMIT: nat := 0x8_0000_0000

  /** The fields do not overlap, so `|` is addition. */
  function SymbolKey32(s: Symbol): nat {
    s.market % 8 * 0x400_0000 + s.exchange % 0x400 * 0x1_0000 + s.id % 0x1_0000
  }

  function DataKey(s: Symbol, segment: nat): nat {
    SymbolKey32(s) * SEGMENT_LIMIT + segment % SEGMENT_LIMIT
  }

  function SymbolFrom(key32: nat): Symbol {
    Symbol(key32 / 0x400_0000, key32 / 0x1_0000 % 0x400, key32 % 0x1_0000)
  }

  lemma SymbolKeyBack(s: Symbol)
    requires Keyed(s)
    ensures SymbolFrom(SymbolKey32(s)) == s && SymbolKey32(s) < 0x2000_0000
  {
    var key := SymbolKey32(s);
    assert s.market % 8 == s.market && s.exchange % 0x400 == s.exchange && s.id % 0x1_0000 == s.id;
    assert key == (s.market * 0x400 + s.exchange) * 0x1_0000 + s.id;
    assert key % 0x1_0000 == s.id && key / 0x1_0000 == s.market * 0x400 + s.exchange;
  }

  lemma DataKeyBack(s: Symbol, k: nat)
    ensures DataKey(s, k) / SEGMENT_LIMIT == SymbolKey32(s) && DataKey(s, k) % SEGMENT_LIMIT == k % SEGMENT_LIMIT
  {
    hide SymbolKey32;
  }

  /** Keys fit 64 bits and tell symbols and segments apart; the symbol key can be taken apart again. */
  lemma KeysAreDistinct(s: Symbol, k: nat, t: Symbol, j: nat)
    requires Keyed(s) && Keyed(t)
    ensures W64.Unsigned(DataKey(s, k))
    ensures DataKey(s, k) == DataKey(t, j) <==> s == t && k % SEGMENT_LIMIT == j % SEGMENT_LIMIT
    ensures SymbolFrom(SymbolKey32(s)) == s
  {
    hide SymbolKey32, SymbolFrom;
    SymbolKeyBack(s);
    SymbolKeyBack(t);
    DataKeyBack(s, k);
    DataKeyBack(t, j);
  }

  /** The bit fields of a key: three bits of market, ten of exchange, sixteen of symbol, thirty-five of segment. */
  lemma KeyLayout(s: Symbol, k: nat)
    ensures DataKey(s, k) == s.market % 8 * 0x2000_0000_0000_0000 + s.exchange % 1024 * 0x8_0000_0000_0000
                             + s.id % 65536 * 0x8_0000_0000 + k % 0x8_0000_0000
  {
  }

  /** The position of a time frame's table. */
  function TableIndex(timeFrame: nat): nat
    requires SegmentDuration(timeFrame) > 0
  {
    if timeFrame == 1 then 0 else if timeFrame == 3 then 1 else if timeFrame == 5 then 2 else if timeFrame == 15 then 3
    else if timeFrame == 60 then 4 else if timeFrame == 300 then 5 else if timeFrame == 900 then 6
    else if timeFrame == 1800 then 7 else if timeFrame == 3600 then 8 else if timeFrame == 14400 then 9 else 10
  }

  lemma TablesAreDistinct(a: nat, b: nat)
    requires SegmentDuration(a) > 0 && SegmentDuration(b) > 0
    ensures TableIndex(a) < 11 && (TableIndex(a) == TableIndex(b) <==> a == b)
    ensures [1, 3, 5, 15, 60, 300, 900, 1800, 3600, 14400, 86400][TableIndex(a)] == a
  {
  }

  // ---------------------------------------------------------------------------
  // State
  // ---------------------------------------------------------------------------

  /** A row is found by its table and its key. */
  type Rows = map<(nat, nat), seq<byte>>

  datatype Found = Absent | Present(data: seq<byte>)

  function RowAt(tables: seq<Rows>, db: nat, row: (nat, nat)): Found {
    if db < |tables| && row in tables[db] then Present(tables[db][row]) else Absent
  }

  /** The first backend that accepts bars of the symbol at a time, or the number of backends. */
  function Route(metas: seq<Routing.Metadata>, s: Symbol, time: nat): (db: nat)
    ensures db <= |metas|
  {
    if metas == [] then 0
    else if metas[0].Accepts(BARS, s.market, s.exchange, s.id, time) then 0
    else 1 + Route(metas[1..], s, time)
  }

  const BARS: nat := 2

  /** What routing asks of a backend, on the fields: the second flag bit, the three lists, and the time bounds. */
  ghost predicate Suitable(m: Routing.Metadata, s: Symbol, time: nat) {
    && m.flags / 2 % 2 == 1
    && s.id in m.symbols && s.exchange in m.exchanges && s.market in m.markets
    && (m.start == 0 || m.start <= time)
    && (m.end == 0 || time < m.end)
  }

  lemma AcceptedIsSuitable(m: Routing.Metadata, s: Symbol, time: nat)
    ensures m.Accepts(BARS, s.market, s.exchange, s.id, time) <==> Suitable(m, s, time)
  {
    BlockBits.HalvesAndBits(m.flags, 2);
    BlockBits.HalvesAndBits(m.flags / 2, 1);
    BlockBits.AndZeroRight(m.flags / 4);
  }

  /** Routing finds the first suitable backend, and none exactly when no backend is suitable. */
  lemma {:induction false} RouteIsFirst(metas: seq<Routing.Metadata>, s: Symbol, time: nat)
    ensures
      var db := Route(metas, s, time);
      && db <= |metas|
      && (forall i :: 0 <= i < db ==> !Suitable(metas[i], s, time))
      && (db < |metas| ==> Suitable(metas[db], s, time))
    decreases |metas|
  {
    if metas != [] {
      hide Suitable;
      AcceptedIsSuitable(metas[0], s, time);
      RouteIsFirst(metas[1..], s, time);
      forall i | 0 <= i < Route(metas, s, time) ensures !Suitable(metas[i], s, time) {
        if i > 0 { assert metas[i] == metas[1..][i - 1]; }
      }
    }
  }

  /** The backend and the row of one segment. */
  datatype Place = Place(db: nat, row: (nat, nat))

  function PlaceOf(metas: seq<Routing.Metadata>, s: Symbol, timeFrame: nat, k: nat): Place
    requires SegmentDuration(timeFrame) > 0
  {
    Place(Route(metas, s, StartOf(SegmentDuration(timeFrame), k)), (TableIndex(timeFrame), DataKey(s, k)))
  }

  /** Different segments below 2^35, of any symbols and time frames, have different rows. */
  lemma PlacesAreDistinct(metas: seq<Routing.Metadata>, s: Symbol, timeFrame: nat, k: nat, t: Symbol, otherFrame: nat,
      j: nat)
    requires SegmentDuration(timeFrame) > 0 && SegmentDuration(otherFrame) > 0 && Keyed(s) && Keyed(t)
    requires k < SEGMENT_LIMIT && j < SEGMENT_LIMIT
    ensures PlaceOf(metas, s, timeFrame, k).row == PlaceOf(metas, t, otherFrame, j).row <==>
            s == t && timeFrame == otherFrame && k == j
  {
    hide DataKey, TableIndex, SymbolKey32, SymbolFrom, Route, SegmentDuration, StartOf;
    KeysAreDistinct(s, k, t, j);
    TablesAreDistinct(timeFrame, otherFrame);
    assert k % SEGMENT_LIMIT == k && j % SEGMENT_LIMIT == j;
  }

  // ---------------------------------------------------------------------------
  // Writing segments
  // ---------------------------------------------------------------------------

  function PutRow(tables: seq<Rows>, p: Place, data: seq<byte>): (r: seq<Rows>)
    ensures |r| == |tables|
  {
    if p.db < |tables| then tables[p.db := tables[p.db][p.row := data]] else tables
  }

  function SegmentPlace(metas: seq<Routing.Metadata>, s: Symbol, c: BarConfig, segment: seq<MarketBar>): Place
    requires SegmentDuration(c.timeFrame) > 0
  {
    PlaceOf(metas, s, c.timeFrame, SegmentOf(SegmentDuration(c.timeFrame), segment))
  }

  ghost predicate NonEmpty(segments: seq<seq<MarketBar>>) { forall i :: 0 <= i < |segments| ==> segments[i] != [] }

  /**
   Where segment `k` goes: the first suitable backend at its start, the table of the
   frame, the key of the segment.
   */
  lemma PlaceIs(metas: seq<Routing.Metadata>, s: Symbol, timeFrame: nat, k: nat, d: nat)
    requires IsSegmentLength(timeFrame, d)
    ensures SegmentDuration(timeFrame) == d
    ensures
      var p := PlaceOf(metas, s, timeFrame, k);
      && p.db <= |metas|
      && (forall i :: 0 <= i < p.db ==> !Suitable(metas[i], s, k * d))
      && (p.db < |metas| ==> Suitable(metas[p.db], s, k * d))
      && p.row.0 < 11 && [1, 3, 5, 15, 60, 300, 900, 1800, 3600, 14400, 86400][p.row.0] == timeFrame
      && p.row.1 == s.market % 8 * 0x2000_0000_0000_0000 + s.exchange % 1024 * 0x8_0000_0000_0000
                    + s.id % 65536 * 0x8_0000_0000 + k % 0x8_0000_0000
  {
    hide Suitable, DataKey, TableIndex, Route;
    SegmentLengths(timeFrame, d);
    RouteIsFirst(metas, s, k * d);
    TablesAreDistinct(timeFrame, timeFrame);
    KeyLayout(s, k);
  }

  /** The tables after the segments have been written in order. */
  function PutAll(tables: seq<Rows>, metas: seq<Routing.Metadata>, s: Symbol, c: BarConfig,
      segments: seq<seq<MarketBar>>): (r: seq<Rows>)
    requires SegmentDuration(c.timeFrame) > 0 && forall i :: 0 <= i < |segments| ==> segments[i] != []
    ensures |r| == |tables|
  {
    if segments == [] then tables
    else
      var last := segments[|segments| - 1];
      PutRow(PutAll(tables, metas, s, c, segments[..|segments| - 1]), SegmentPlace(metas, s, c, last), Record(c, last))
  }

  ghost predicate Ascending(duration: nat, segments: seq<seq<MarketBar>>)
    requires duration > 0
  {
    && NonEmpty(segments)
    && (forall i :: 0 <= i < |segments| ==> SegmentOf(duration, segments[i]) < SEGMENT_LIMIT)
    && (forall i, j :: 0 <= i < j < |segments| ==> SegmentOf(duration, segments[i]) < SegmentOf(duration, segments[j]))
  }

  ghost predicate AllRouted(tables: seq<Rows>, metas: seq<Routing.Metadata>, s: Symbol, c: BarConfig,
      segments: seq<seq<MarketBar>>)
    requires SegmentDuration(c.timeFrame) > 0
  {
    forall i :: 0 <= i < |segments| ==> SegmentPlace(metas, s, c, segments[i]).db < |tables|
  }

  /** Every segment's row holds its record, and every other row of every backend is unchanged. */
  lemma {:induction false} PutAllLaw(tables: seq<Rows>, metas: seq<Routing.Metadata>, s: Symbol, c: BarConfig,
      segments: seq<seq<MarketBar>>, db: nat, row: (nat, nat))
    requires SegmentDuration(c.timeFrame) > 0 && Keyed(s) && Ascending(SegmentDuration(c.timeFrame), segments)
    requires AllRouted(tables, metas, s, c, segments)
    ensures forall i :: 0 <= i < |segments| && SegmentPlace(metas, s, c, segments[i]) == Place(db, row) ==>
              RowAt(PutAll(tables, metas, s, c, segments), db, row) == Present(Record(c, segments[i]))
    ensures (forall i :: 0 <= i < |segments| ==> SegmentPlace(metas, s, c, segments[i]) != Place(db, row)) ==>
              RowAt(PutAll(tables, metas, s, c, segments), db, row) == RowAt(tables, db, row)
    decreases |segments|
  {
    hide Record, PlaceOf, SegmentDuration, SegmentOf, RowAt, PutRow, Index;
    if segments != [] {
      var n := |segments| - 1;
      var fewer := segments[..n];
      assert forall i :: 0 <= i < n ==> fewer[i] == segments[i];
      PutAllLaw(tables, metas, s, c, fewer, db, row);
      forall i | 0 <= i < n ensures SegmentPlace(metas, s, c, fewer[i]) != SegmentPlace(metas, s, c, segments[n]) {
        PlacesAreDistinct(metas, s, c.timeFrame, SegmentOf(SegmentDuration(c.timeFrame), segments[i]),
                          s, c.timeFrame, SegmentOf(SegmentDuration(c.timeFrame), segments[n]));
      }
      PutRowLaw(PutAll(tables, metas, s, c, fewer), SegmentPlace(metas, s, c, segments[n]),
                Record(c, segments[n]), db, row);
    }
  }

  lemma PutRowLaw(tables: seq<Rows>, p: Place, data: seq<byte>, db: nat, row: (nat, nat))
    requires p.db < |tables|
    ensures RowAt(PutRow(tables, p, data), db, row) ==
            if p == Place(db, row) then Present(data) else RowAt(tables, db, row)
  {
  }

  // ---------------------------------------------------------------------------
  // One backend
  // ---------------------------------------------------------------------------

  datatype StoreStatus =
    | Stored
    | FrameNotSupported
    | BarsNotInOrder
    | NoSuitableStorage
    | CrossesSegmentBoundary
    | CannotSerialize

  datatype ReadStatus = Read | NotFound | UnknownFrame | BadRecord | NoStorage

  class BarBD {
    var rows: Rows
    const serializer: BarSerializer

    constructor (config: BarConfig)
      ensures rows == map[] && fresh(serializer)
    {
      rows := map[];
      serializer := new BarSerializer(config);
    }

    /** Stores one segment under its key, unless the last bar lies outside the segment of the first. */
    method Upsert(s: Symbol, bars: seq<MarketBar>, config: BarConfig) returns (status: StoreStatus)
      modifies this`rows, serializer
      ensures !status.BarsNotInOrder? && !status.NoSuitableStorage?
      ensures bars == [] ==> status.Stored? && rows == old(rows)
      ensures bars != [] ==>
                var d := SegmentDuration(config.timeFrame);
                && (status.FrameNotSupported? <==> d == 0)
                && (d > 0 ==>
                    && (status.CrossesSegmentBoundary? <==>
                       bars[|bars| - 1].time >= StartOf(d, SegmentIndex(config, bars)) + d)
                    && (status.Stored? <==> !status.CrossesSegmentBoundary? && Serializable(config))
                    && (status.Stored? ==>
                        rows == old(rows)[(TableIndex(config.timeFrame), DataKey(s, SegmentIndex(config, bars))) :=
                            Record(config, bars)]))
      ensures bars != [] && !status.Stored? ==> rows == old(rows)
      ensures forall d :: bars != [] && IsSegmentLength(config.timeFrame, d) ==>
                && (status.CrossesSegmentBoundary? <==> bars[|bars| - 1].time >= (bars[0].time / d + 1) * d)
                && (status.Stored? ==>
                    rows == old(rows)[(TableIndex(config.timeFrame), DataKey(s, bars[0].time / d)) :=
                        Record(config, bars)])
    {
      hide Record, IsSegmentLength, DataKey, TableIndex;
      forall d ensures IsSegmentLength(config.timeFrame, d) <==> d > 0 && SegmentDuration(config.timeFrame) == d {
        SegmentLengths(config.timeFrame, d);
      }
      if bars == [] { return Stored; }
      var duration := SegmentDuration(config.timeFrame);
      if duration == 0 { return FrameNotSupported; }
      var segment := bars[0].time / duration;
      if bars[|bars| - 1].time >= segment * duration + duration { return CrossesSegmentBoundary; }
      var key := DataKey(s, segment);
      if !config.flags.rawBinary { return CannotSerialize; }
      var written, buffer := serializer.Serialize(bars, config, []);
      if !written.Written? { return CannotSerialize; }
      rows := rows[(TableIndex(config.timeFrame), key) := buffer];
      status := Stored;
    }

    /**
     Reads one segment into the caller's vector, replacing what is there. An empty row has
     no signature and is refused.
     */
    method Fetch(s: Symbol, timeFrame: nat, segment: nat, v: BarVector) returns (status: ReadStatus, config: BarConfig)
      modifies serializer, v
      ensures status.UnknownFrame? <==> SegmentDuration(timeFrame) == 0
      ensures SegmentDuration(timeFrame) > 0 ==>
                var row := (TableIndex(timeFrame), DataKey(s, segment));
                && (status.NotFound? <==> row !in rows)
                && (row in rows ==>
                    var r := Parse(rows[row], old(serializer.config));
                    && (status.Read? <==> r.Done?)
                    && (r.Done? ==> v.items == r.bars && config == r.config)
                    && (!r.Done? ==> v.items == old(v.items)))
      ensures !status.Read? ==> v.items == old(v.items)
      ensures !status.NoStorage?
    {
      config := serializer.config;
      if SegmentDuration(timeFrame) == 0 { return UnknownFrame, config; }
      var row := (TableIndex(timeFrame), DataKey(s, segment));
      if row !in rows { return NotFound, config; }
      var r, bars := serializer.Deserialize(rows[row], v.items);
      v.items := bars;
      config := serializer.config;
      status := if r.Done? then Read else BadRecord;
    }
  }

  // ---------------------------------------------------------------------------
  // Reading a range
  // ---------------------------------------------------------------------------

  const ANY_CONFIG: BarConfig := BarConfig(0, 0, 0, 0,
    BarFlags(false, false, false, false, false, false, false, false, false, false, false, false, false, false), 0, 0, 0)

  datatype Reading = Reading(found: bool, bars: seq<MarketBar>) | Thrown

  /** One segment: a record replaces the bars read so far. */
  function ReadSegment(tables: seq<Rows>, p: Place, r: Reading): Reading
    requires r.Reading?
  {
    if p.db >= |tables| then Thrown
    else match RowAt(tables, p.db, p.row)
      case Absent => r
      case Present(data) =>
        match Parse(data, ANY_CONFIG)
        case Done(bars, _) => Reading(true, bars)
        case _ => Thrown
  }

  /** The segments `k` to `stop`, one after another. */
  function ReadRange(tables: seq<Rows>, metas: seq<Routing.Metadata>, s: Symbol, timeFrame: nat, k: nat, stop: nat,
      r: Reading): Reading
    requires SegmentDuration(timeFrame) > 0
    decreases if k <= stop then stop - k + 1 else 0
  {
    if k > stop || r.Thrown? then r
    else ReadRange(tables, metas, s, timeFrame, k + 1, stop, ReadSegment(tables, PlaceOf(metas, s, timeFrame, k), r))
  }

  /** The crops at the two ends, each only where the range ends inside a segment. */
  function Cropped(bars: seq<MarketBar>, duration: nat, start: nat, end: nat): seq<MarketBar>
    requires duration > 0 && end > 0
  {
    var a := if start > StartOf(duration, Index(duration, start)) then From(bars, start) else bars;
    if end < StartOf(duration, Index(duration, end - 1)) + duration then Until(a, end) else a
  }

  lemma ParsedBarsDoNotDepend(data: seq<byte>, a: BarConfig, b: BarConfig)
    ensures Parse(data, a).Done? == Parse(data, b).Done? && Parse(data, a).NoInput? == Parse(data, b).NoInput?
    ensures Parse(data, a).Done? ==> Parse(data, a).bars == Parse(data, b).bars
  {
    hide ReadVByte, ReadBars, SegmentDuration, AtDistance, FlagsFrom, StartOf;
  }

  // ---------------------------------------------------------------------------
  // The hub
  // ---------------------------------------------------------------------------

  class MarketDataStorageHub {
    const backends: seq<BarBD>
    var metadata: seq<Routing.Metadata>

    ghost predicate Valid()
      reads this
    {
      && |metadata| == |backends|
      && (forall i, j :: 0 <= i < j < |backends| ==> backends[i] != backends[j])
      && (forall i :: 0 <= i < |metadata| ==> metadata[i].Valid())
    }

    ghost function Tables(): (t: seq<Rows>)
      reads backends
      ensures |t| == |backends| && forall i :: 0 <= i < |t| ==> t[i] == backends[i].rows
    {
      seq(|backends|, i requires 0 <= i < |backends| reads backends => backends[i].rows)
    }

    constructor (backends: seq<BarBD>, metadata: seq<Routing.Metadata>)
      requires |metadata| == |backends| && forall i, j :: 0 <= i < j < |backends| ==> backends[i] != backends[j]
      requires forall i :: 0 <= i < |metadata| ==> metadata[i].Valid()
      ensures Valid() && this.backends == backends && this.metadata == metadata
    {
      this.backends := backends;
      this.metadata := metadata;
    }

    /** The first backend whose metadata accepts the time; the number of backends stands for the exception. */
    method FindStorageIndex(s: Symbol, time: nat) returns (db: nat)
      requires Valid()
      ensures db == Route(metadata, s, time) <= |metadata|
      ensures forall i :: 0 <= i < db ==> !Suitable(metadata[i], s, time)
      ensures db < |metadata| ==> Suitable(metadata[db], s, time)
    {
      hide Suitable;
      RouteIsFirst(metadata, s, time);
      db := 0;
      while db < |metadata|
        invariant db <= |metadata| && db + Route(metadata[db..], s, time) == Route(metadata, s, time)
      {
        var accepted := Accepts(metadata[db], s, time);
        if accepted { return; }
        assert metadata[db..][1..] == metadata[db + 1..];
        db := db + 1;
      }
    }

    /** The test of one backend: the flag, a binary search in each of the lists, and the time range. */
    method Accepts(m: Routing.Metadata, s: Symbol, time: nat) returns (accepted: bool)
      requires m.Valid()
      ensures accepted == m.Accepts(BARS, s.market, s.exchange, s.id, time)
    {
      accepted := m.HasFlag(BARS);
      if accepted { accepted := SortedLists.Contains(m.symbols, s.id); }
      if accepted { accepted := SortedLists.Contains(m.exchanges, s.exchange); }
      if accepted { accepted := SortedLists.Contains(m.markets, s.market); }
      if accepted { accepted := m.ContainsTime(time); }
    }

    /**
     Splits, routes and stores. Sorted bars never run into the boundary check;
     unsorted bars are refused before anything is written.
     */
    method Upsert(s: Symbol, bars: seq<MarketBar>, config: BarConfig) returns (status: StoreStatus)
      requires Valid()
      modifies backends, set b | b in backends :: b.serializer
      ensures Valid()
      ensures status.FrameNotSupported? <==> SegmentDuration(config.timeFrame) == 0
      ensures status.FrameNotSupported? || status.BarsNotInOrder? ==> Tables() == old(Tables())
      ensures SegmentDuration(config.timeFrame) > 0 ==>
                var segments := Segments(SegmentDuration(config.timeFrame), bars);
                && (status.BarsNotInOrder? <==> !Sorted(bars))
                && !status.CrossesSegmentBoundary?
                && (status.Stored? ==> Tables() == PutAll(old(Tables()), metadata, s, config, segments))
                && (Sorted(bars) ==>
                    && (status.Stored? <==>
                        AllRouted(Tables(), metadata, s, config, segments) && (bars == [] || Serializable(config)))
                    && exists n ::
                         0 <= n <= |segments| && Tables() == PutAll(old(Tables()), metadata, s, config, segments[..n]))
    {
      hide PutAll, PutRow, Record, Index, StartOf, Segments, Route, Flatten, IsSplit, Sorted, Serializable;
      var duration := SegmentDuration(config.timeFrame);
      if duration == 0 { return FrameNotSupported; }
      var ok, segments := SplitBars(duration, bars);
      if !ok { return BarsNotInOrder; }
      SplitLaw(duration, bars);
      EmptySplit(segments);
      status := StoreSegments(s, bars, segments, config, duration);
    }

    lemma EmptySplit(segments: seq<seq<MarketBar>>)
      requires forall i :: 0 <= i < |segments| ==> segments[i] != []
      ensures segments == [] <==> Flatten(segments) == []
    {
      if segments != [] { assert Flatten(segments)[0] == segments[0][0]; }
    }

    /** The loop over the segments. */
    method StoreSegments(s: Symbol, ghost bars: seq<MarketBar>, segments: seq<seq<MarketBar>>, config: BarConfig,
        duration: nat)
      returns (status: StoreStatus)
      requires Valid() && duration == SegmentDuration(config.timeFrame) > 0
      requires IsSplit(duration, segments, bars)
      requires forall i :: 0 <= i < |segments| ==> segments[i] != []
      modifies backends, set b | b in backends :: b.serializer
      ensures Valid() && (status.Stored? || status.NoSuitableStorage? || status.CannotSerialize?)
      ensures status.Stored? ==> Tables() == PutAll(old(Tables()), metadata, s, config, segments)
      ensures status.Stored? <==>
              AllRouted(Tables(), metadata, s, config, segments) && (segments == [] || Serializable(config))
      ensures exists n :: 0 <= n <= |segments| && Tables() == PutAll(old(Tables()), metadata, s, config, segments[..n])
    {
      hide PutAll, PutRow, Record, IsSplit, Serializable, SegmentDuration, SegmentPlace, Routing.Metadata.Valid;
      ghost var before := Tables();
      NothingPut(before, metadata, s, config, segments);
      for i := 0 to |segments|
        invariant Valid() && Tables() == PutAll(before, metadata, s, config, segments[..i])
        invariant AllRouted(before, metadata, s, config, segments[..i]) && (i > 0 ==> Serializable(config))
      {
        SegmentsStayInside(duration, segments, bars, i);
        status := StoreSegment(s, segments[i], config, duration);
        if !status.Stored? { return; }
        OneMorePut(before, metadata, s, config, segments, i);
        assert segments[..i + 1] == segments[..i] + [segments[i]];
      }
      assert segments[..|segments|] == segments;
      status := Stored;
    }

    /** One round of the loop: the backend is looked up, and its part is done. */
    method StoreSegment(s: Symbol, segment: seq<MarketBar>, config: BarConfig, duration: nat)
        returns (status: StoreStatus)
      requires Valid() && duration == SegmentDuration(config.timeFrame) > 0 && segment != []
      requires segment[|segment| - 1].time < StartOf(duration, Index(duration, segment[0].time)) + duration
      modifies backends, set b | b in backends :: b.serializer
      ensures Valid() && (status.Stored? || status.NoSuitableStorage? || status.CannotSerialize?)
      ensures status.Stored? <==> SegmentPlace(metadata, s, config, segment).db < |metadata| && Serializable(config)
      ensures Tables() ==
              if status.Stored? then
                PutRow(old(Tables()), SegmentPlace(metadata, s, config, segment), Record(config, segment))
              else old(Tables())
    {
      hide PutRow, Record, Index, StartOf, Route, TableIndex, DataKey, Serializable, SegmentDuration,
           Routing.Metadata.Valid;
      var db := FindStorageIndex(s, StartOfPeriod(duration, segment[0].time));
      assert db == SegmentPlace(metadata, s, config, segment).db;
      if db == |metadata| { return NoSuitableStorage; }
      status := UpsertSegment(s, db, segment, config);
    }

    lemma NothingPut(tables: seq<Rows>, metas: seq<Routing.Metadata>, s: Symbol, c: BarConfig,
        segments: seq<seq<MarketBar>>)
      requires SegmentDuration(c.timeFrame) > 0 && forall i :: 0 <= i < |segments| ==> segments[i] != []
      ensures PutAll(tables, metas, s, c, segments[..0]) == tables
    {
    }

    lemma OneMorePut(tables: seq<Rows>, metas: seq<Routing.Metadata>, s: Symbol, c: BarConfig,
        segments: seq<seq<MarketBar>>, i: nat)
      requires SegmentDuration(c.timeFrame) > 0 && i < |segments|
               && forall i :: 0 <= i < |segments| ==> segments[i] != []
      ensures PutAll(tables, metas, s, c, segments[..i + 1]) ==
              PutRow(PutAll(tables, metas, s, c, segments[..i]), SegmentPlace(metas, s, c, segments[i]),
                  Record(c, segments[i]))
    {
      hide Record, SegmentPlace, PutRow;
      assert segments[..i + 1][..i] == segments[..i];
    }

    /** The backend's part: one row of one backend changes. */
    method UpsertSegment(s: Symbol, db: nat, segment: seq<MarketBar>, config: BarConfig) returns (status: StoreStatus)
      requires Valid() && db < |backends| && segment != [] && SegmentDuration(config.timeFrame) > 0
      requires db == SegmentPlace(metadata, s, config, segment).db
      requires segment[|segment| - 1].time <
               StartOf(SegmentDuration(config.timeFrame), SegmentIndex(config, segment)) +
               SegmentDuration(config.timeFrame)
      modifies backends, set b | b in backends :: b.serializer
      ensures Valid() && (status.Stored? <==> Serializable(config)) && (status.Stored? || status.CannotSerialize?)
      ensures Tables() ==
              if status.Stored? then
                PutRow(old(Tables()), SegmentPlace(metadata, s, config, segment), Record(config, segment))
              else old(Tables())
    {
      hide Record, Index, StartOf, DataKey, TableIndex, Route;
      status := backends[db].Upsert(s, segment, config);
    }

    /** Reads all segments of [start, end) one after another into the caller's vector and crops at the ends. */
    method Fetch(s: Symbol, timeFrame: nat, start: nat, end: nat, v: BarVector) returns (status: ReadStatus)
      requires Valid() && end > 0
      modifies v, set b | b in backends :: b.serializer
      ensures Tables() == old(Tables())
      ensures status.UnknownFrame? <==> SegmentDuration(timeFrame) == 0
      ensures SegmentDuration(timeFrame) > 0 ==>
                var d := SegmentDuration(timeFrame);
                var r := ReadRange(Tables(), metadata, s, timeFrame, Index(d, start), Index(d, end - 1),
                    Reading(false, old(v.items)));
                && (r.Thrown? <==> status.BadRecord? || status.NoStorage?)
                && (r.Reading? ==> (status.Read? <==> r.found) && v.items == Cropped(r.bars, d, start, end))
    {
      hide Parse, From, Until, ReadSegment, PlaceOf;
      var duration := SegmentDuration(timeFrame);
      if duration == 0 { return UnknownFrame; }
      var first, stop := start / duration, (end - 1) / duration;
      var k := first;
      var success := false;
      ghost var r := Reading(false, v.items);
      ghost var tables := Tables();
      ghost var goal := ReadRange(tables, metadata, s, timeFrame, first, stop, r);
      while k <= stop
        invariant Tables() == tables && Valid() && first <= k
        invariant r == Reading(success, v.items)
        invariant ReadRange(tables, metadata, s, timeFrame, k, stop, r) == goal
        decreases stop + 1 - k
      {
        r := ReadSegment(tables, PlaceOf(metadata, s, timeFrame, k), r);
        assert r.Thrown? ==> ReadRange(tables, metadata, s, timeFrame, k + 1, stop, r) == Thrown;
        status, success := FetchSegment(s, timeFrame, k, v, success, duration, r);
        if status.BadRecord? || status.NoStorage? { return; }
        k := k + 1;
      }
      if start > first * duration { CropBefore(v, start); }
      if end < stop * duration + duration { CropAfter(v, end); }
      status := if success then Read else NotFound;
    }

    /** One round of the loop; `next` is what the segment leads to. */
    method FetchSegment(s: Symbol, timeFrame: nat, k: nat, v: BarVector, success: bool, duration: nat,
        ghost next: Reading)
      returns (status: ReadStatus, found: bool)
      requires Valid() && duration == SegmentDuration(timeFrame) > 0
      requires next == ReadSegment(Tables(), PlaceOf(metadata, s, timeFrame, k), Reading(success, v.items))
      modifies v, set b | b in backends :: b.serializer
      ensures Valid() && Tables() == old(Tables()) && !status.UnknownFrame?
      ensures next.Thrown? <==> status.BadRecord? || status.NoStorage?
      ensures next.Reading? ==> next == Reading(found, v.items)
    {
      hide Parse, DataKey, TableIndex, Route;
      found := success;
      var db := FindStorageIndex(s, k * duration);
      if db == |metadata| { return NoStorage, found; }
      ghost var config := backends[db].serializer.config;
      var restored;
      status, restored := backends[db].Fetch(s, timeFrame, k, v);
      ghost var row := PlaceOf(metadata, s, timeFrame, k).row;
      if row in backends[db].rows { ParsedBarsDoNotDepend(backends[db].rows[row], config, ANY_CONFIG); }
      found := success || status.Read?;
    }
  }

  // ---------------------------------------------------------------------------
  // What a stored list of bars reads back as
  // ---------------------------------------------------------------------------

  /** Segment `k` of `bars` is what the tables hold for it: nothing, or a record that reads as its bars. */
  ghost predicate HoldsSegment(tables: seq<Rows>, metas: seq<Routing.Metadata>, s: Symbol, timeFrame: nat,
      bars: seq<MarketBar>, k: nat)
    requires SegmentDuration(timeFrame) > 0
  {
    var p := PlaceOf(metas, s, timeFrame, k);
    var part := InBucket(SegmentDuration(timeFrame), k, bars);
    && p.db < |tables|
    && match RowAt(tables, p.db, p.row)
       case Absent => part == []
       case Present(data) => part != [] && Parse(data, ANY_CONFIG).Done? && Parse(data, ANY_CONFIG).bars == part
  }

  ghost predicate Holds(tables: seq<Rows>, metas: seq<Routing.Metadata>, s: Symbol, timeFrame: nat,
      bars: seq<MarketBar>, first: nat, stop: nat)
    requires SegmentDuration(timeFrame) > 0
  {
    forall k :: first <= k <= stop ==> HoldsSegment(tables, metas, s, timeFrame, bars, k)
  }

  /** What the tables must hold before, so that exactly `bars` can be read after: no older record in the read range. */
  ghost predicate Vacant(tables: seq<Rows>, metas: seq<Routing.Metadata>, s: Symbol, timeFrame: nat,
      bars: seq<MarketBar>, first: nat, stop: nat)
    requires SegmentDuration(timeFrame) > 0
  {
    forall k :: first <= k <= stop ==>
      var p := PlaceOf(metas, s, timeFrame, k);
      p.db < |tables| && (InBucket(SegmentDuration(timeFrame), k, bars) == [] ==> RowAt(tables, p.db, p.row) == Absent)
  }

  ghost predicate RecordsFit(c: BarConfig, bars: seq<MarketBar>)
    requires SegmentDuration(c.timeFrame) > 0
  {
    Serializable(c) && Typed(c) && AllStorable(bars) && W32.Unsigned(|bars|)
    && forall b :: b in bars ==> Index(SegmentDuration(c.timeFrame), b.time) < W32.Modulus()
  }

  lemma {:induction false} InBucketStorable(duration: nat, k: nat, s: seq<MarketBar>)
    requires duration > 0 && AllStorable(s)
    ensures AllStorable(InBucket(duration, k, s)) && |InBucket(duration, k, s)| <= |s|
    decreases |s|
  {
    hide Index, Storable;
    if s != [] { InBucketStorable(duration, k, s[1..]); }
  }

  /** The record of one segment reads as the segment. */
  lemma SegmentReadsBack(c: BarConfig, bars: seq<MarketBar>, segments: seq<seq<MarketBar>>, i: nat)
    requires SegmentDuration(c.timeFrame) > 0 && RecordsFit(c, bars) && i < |segments|
    requires IsSplit(SegmentDuration(c.timeFrame), segments, bars)
    ensures segments[i] != []
    ensures Parse(Record(c, segments[i]), ANY_CONFIG) == Done(segments[i], Kept(c, ANY_CONFIG))
  {
    hide Parse, Record, Index, InBucket, Storable, SegmentDuration, Serializable, Typed;
    var d := SegmentDuration(c.timeFrame);
    var segment := segments[i];
    var k := SegmentOf(d, segment);
    InBucketStorable(d, k, bars);
    InBucketMembers(d, k, bars);
    assert segment[0] in segment;
    RecordRoundTrip(c, ANY_CONFIG, segment);
  }

  lemma SplitAscends(duration: nat, segments: seq<seq<MarketBar>>, bars: seq<MarketBar>)
    requires duration > 0 && IsSplit(duration, segments, bars)
    requires forall b :: b in bars ==> Index(duration, b.time) < W32.Modulus()
    ensures Ascending(duration, segments)
  {
    hide Index, InBucket;
    forall i | 0 <= i < |segments| ensures SegmentOf(duration, segments[i]) < SEGMENT_LIMIT {
      InBucketMembers(duration, SegmentOf(duration, segments[i]), bars);
      assert segments[i][0] in segments[i];
    }
  }

  /** After an upsert into a vacant range, the range holds exactly the bars written. */
  lemma UpsertThenHolds(tables: seq<Rows>, metas: seq<Routing.Metadata>, s: Symbol, c: BarConfig, bars: seq<MarketBar>,
      first: nat, stop: nat)
    requires SegmentDuration(c.timeFrame) > 0 && Keyed(s) && Sorted(bars) && RecordsFit(c, bars) && stop < SEGMENT_LIMIT
    requires AllRouted(tables, metas, s, c, Segments(SegmentDuration(c.timeFrame), bars))
    requires Vacant(tables, metas, s, c.timeFrame, bars, first, stop)
    ensures Holds(PutAll(tables, metas, s, c, Segments(SegmentDuration(c.timeFrame), bars)), metas, s, c.timeFrame,
            bars, first, stop)
  {
    hide Parse, Record, Index, InBucket, SegmentDuration, PlaceOf, PutAll, RowAt, Sorted, Segments;
    var d := SegmentDuration(c.timeFrame);
    var segments := Segments(d, bars);
    SplitLaw(d, bars);
    assert Ascending(d, segments) by { SplitAscends(d, segments, bars); }
    forall k | first <= k <= stop
        ensures HoldsSegment(PutAll(tables, metas, s, c, segments), metas, s, c.timeFrame, bars, k) {
      SegmentHeld(tables, metas, s, c, bars, segments, k);
    }
  }

  lemma SegmentHeld(tables: seq<Rows>, metas: seq<Routing.Metadata>, s: Symbol, c: BarConfig, bars: seq<MarketBar>,
      segments: seq<seq<MarketBar>>, k: nat)
    requires SegmentDuration(c.timeFrame) > 0 && Keyed(s) && RecordsFit(c, bars) && k < SEGMENT_LIMIT
    requires IsSplit(SegmentDuration(c.timeFrame), segments, bars) && Ascending(SegmentDuration(c.timeFrame), segments)
    requires AllRouted(tables, metas, s, c, segments)
    requires Vacant(tables, metas, s, c.timeFrame, bars, k, k)
    ensures HoldsSegment(PutAll(tables, metas, s, c, segments), metas, s, c.timeFrame, bars, k)
  {
    hide Parse, Record, Index, InBucket, SegmentDuration, PlaceOf, PutAll, RowAt, RecordsFit, SegmentOf;
    var d := SegmentDuration(c.timeFrame);
    var p := PlaceOf(metas, s, c.timeFrame, k);
    PutAllLaw(tables, metas, s, c, segments, p.db, p.row);
    if i :| 0 <= i < |segments| && SegmentOf(d, segments[i]) == k {
      assert SegmentPlace(metas, s, c, segments[i]) == p;
      SegmentReadsBack(c, bars, segments, i);
    } else {
      forall i | 0 <= i < |segments| ensures SegmentPlace(metas, s, c, segments[i]) != p {
        PlacesAreDistinct(metas, s, c.timeFrame, SegmentOf(d, segments[i]), s, c.timeFrame, k);
      }
      NoSegmentNoBars(d, segments, bars, k);
    }
  }

  lemma NoSegmentNoBars(duration: nat, segments: seq<seq<MarketBar>>, bars: seq<MarketBar>, k: nat)
    requires duration > 0 && IsSplit(duration, segments, bars)
    requires forall i :: 0 <= i < |segments| ==> SegmentOf(duration, segments[i]) != k
    ensures InBucket(duration, k, bars) == []
  {
    hide Index, InBucket;
    InBucketMembers(duration, k, bars);
    if InBucket(duration, k, bars) != [] {
      assert InBucket(duration, k, bars)[0] in InBucket(duration, k, bars);
    }
  }

  /** Reading the covered segments in order gives back all the bars. */
  lemma SegmentsReadBackInOrder(tables: seq<Rows>, metas: seq<Routing.Metadata>, s: Symbol, c: BarConfig,
      bars: seq<MarketBar>)
    requires SegmentDuration(c.timeFrame) > 0 && Keyed(s) && Sorted(bars) && RecordsFit(c, bars)
    requires AllRouted(tables, metas, s, c, Segments(SegmentDuration(c.timeFrame), bars))
    ensures
      var segments := Segments(SegmentDuration(c.timeFrame), bars);
      var after := PutAll(tables, metas, s, c, segments);
      && Flatten(segments) == bars
      && forall i :: 0 <= i < |segments| ==>
           var p := SegmentPlace(metas, s, c, segments[i]);
           RowAt(after, p.db, p.row).Present?
           && Parse(RowAt(after, p.db, p.row).data, ANY_CONFIG) == Done(segments[i], Kept(c, ANY_CONFIG))
  {
    hide Parse, Record, Index, InBucket, SegmentDuration, PlaceOf, PutAll, RowAt, Sorted, Segments, RecordsFit;
    var d := SegmentDuration(c.timeFrame);
    var segments := Segments(d, bars);
    SplitLaw(d, bars);
    assert Ascending(d, segments) by { FitsAscend(c, segments, bars); }
    forall i | 0 <= i < |segments|
      ensures
        var p := SegmentPlace(metas, s, c, segments[i]);
        var after := PutAll(tables, metas, s, c, segments);
        RowAt(after, p.db, p.row).Present?
        && Parse(RowAt(after, p.db, p.row).data, ANY_CONFIG) == Done(segments[i], Kept(c, ANY_CONFIG))
    {
      var p := SegmentPlace(metas, s, c, segments[i]);
      PutAllLaw(tables, metas, s, c, segments, p.db, p.row);
      SegmentReadsBack(c, bars, segments, i);
    }
  }

  lemma FitsAscend(c: BarConfig, segments: seq<seq<MarketBar>>, bars: seq<MarketBar>)
    requires SegmentDuration(c.timeFrame) > 0 && RecordsFit(c, bars)
             && IsSplit(SegmentDuration(c.timeFrame), segments, bars)
    ensures Ascending(SegmentDuration(c.timeFrame), segments)
  {
    SplitAscends(SegmentDuration(c.timeFrame), segments, bars);
  }

  // ---------------------------------------------------------------------------
  // What a range read returns
  // ---------------------------------------------------------------------------

  /** The last segment of a range that has bars, or the number after the range. */
  function LastFound(duration: nat, bars: seq<MarketBar>, first: nat, stop: nat): (k: nat)
    requires duration > 0 && first <= stop + 1
    ensures first <= k <= stop + 1
    ensures k <= stop ==> InBucket(duration, k, bars) != []
    ensures forall j :: first <= j <= stop && (j > k || k > stop) ==> InBucket(duration, j, bars) == []
    decreases stop + 1 - first
  {
    if first > stop then stop + 1
    else
      var later := LastFound(duration, bars, first + 1, stop);
      if later <= stop then later else if InBucket(duration, first, bars) != [] then first else stop + 1
  }

  lemma {:induction false} ReadRangeLaw(tables: seq<Rows>, metas: seq<Routing.Metadata>, s: Symbol, timeFrame: nat,
      bars: seq<MarketBar>, first: nat, stop: nat, r: Reading)
    requires SegmentDuration(timeFrame) > 0 && first <= stop + 1 && r.Reading?
    requires Holds(tables, metas, s, timeFrame, bars, first, stop)
    ensures
      var d := SegmentDuration(timeFrame);
      var k := LastFound(d, bars, first, stop);
      ReadRange(tables, metas, s, timeFrame, first, stop, r) ==
          if k <= stop then Reading(true, InBucket(d, k, bars)) else r
    decreases stop + 1 - first
  {
    hide Parse, InBucket, SegmentDuration, PlaceOf, RowAt;
    if first <= stop {
      assert HoldsSegment(tables, metas, s, timeFrame, bars, first);
      var next := ReadSegment(tables, PlaceOf(metas, s, timeFrame, first), r);
      ReadRangeLaw(tables, metas, s, timeFrame, bars, first + 1, stop, next);
    }
  }

  lemma CroppedIsBetween(duration: nat, k: nat, part: seq<MarketBar>, start: nat, end: nat)
    requires duration > 0 && start < end && AllInBucket(duration, k, part)
    requires Index(duration, start) <= k <= Index(duration, end - 1)
    ensures Cropped(part, duration, start, end) == Between(part, start, end)
  {
    hide Index, StartOf, From, Until, Between;
    var first, stop := Index(duration, start), Index(duration, end - 1);
    BucketBounds(duration, start, first);
    BucketBounds(duration, end - 1, stop);
    StartsGrow(duration, first, first + 1);
    StartsGrow(duration, stop, stop + 1);
    if first < k { StartsGrow(duration, first, k); }
    if k < stop { StartsGrow(duration, k, stop + 1); }
    forall i | 0 <= i < |part| ensures StartOf(duration, first) <= part[i].time < StartOf(duration, stop + 1) {
      BucketBounds(duration, part[i].time, k);
    }
    CropsGiveRange(part, start, end);
    NothingToCrop(part, start, end);
    var a := if start > StartOf(duration, first) then From(part, start) else part;
    assert a == From(part, start);
    var untilEnd := if end < StartOf(duration, stop) + duration then Until(a, end) else a;
    FromKeepsBound(part, start, end);
    assert untilEnd == Until(a, end);
  }

  lemma {:induction false} FromKeepsBound(s: seq<MarketBar>, start: nat, end: nat)
    ensures (forall i :: 0 <= i < |s| ==> s[i].time < end) ==> Until(From(s, start), end) == From(s, start)
  {
    FromMembers(s, start);
    var a := From(s, start);
    if forall i :: 0 <= i < |s| ==> s[i].time < end {
      forall i | 0 <= i < |a| ensures a[i].time < end { assert a[i] in a; }
      NothingToCrop(a, start, end);
    }
  }

  /** The ends are cropped unless they fall on a segment boundary. */
  lemma CroppedMembers(bars: seq<MarketBar>, d: nat, start: nat, end: nat)
    requires d > 0 && end > 0
    ensures forall b :: b in Cropped(bars, d, start, end) <==>
              b in bars && (start % d == 0 || b.time >= start) && (end % d == 0 || b.time < end)
    ensures start % d == 0 && end % d == 0 ==> Cropped(bars, d, start, end) == bars
  {
    hide Index, StartOf;
    MultipleIsStart(d, start);
    BucketBounds(d, start, Index(d, start));
    LastSegmentEnds(d, end);
    CropMembers(bars, start);
    CropMembers(From(bars, start), end);
    CropMembers(bars, end);
  }

  lemma LastSegmentEnds(d: nat, end: nat)
    requires d > 0 && end > 0
    ensures end < StartOf(d, Index(d, end - 1)) + d <==> end % d != 0
  {
    hide Index, StartOf;
    var k := Index(d, end - 1);
    BucketBounds(d, end - 1, k);
    StartsGrow(d, k, k + 1);
    StartsGrow(d, k + 1, k + 2);
    BucketBounds(d, end, k);
    BucketBounds(d, end, k + 1);
    MultipleIsStart(d, end);
    IndexOfStart(d, k + 1);
    if end == StartOf(d, k) { IndexOfStart(d, k); }
  }

  /** A segment cannot be read: no backend is suitable, or its row holds something else than a record. */
  ghost predicate Unreadable(tables: seq<Rows>, metas: seq<Routing.Metadata>, s: Symbol, timeFrame: nat, k: nat)
    requires SegmentDuration(timeFrame) > 0
  {
    var p := PlaceOf(metas, s, timeFrame, k);
    || p.db == |metas|
    || (p.db < |tables| && p.row in tables[p.db] && !Parse(tables[p.db][p.row], ANY_CONFIG).Done?)
  }

  ghost predicate HasRow(tables: seq<Rows>, metas: seq<Routing.Metadata>, s: Symbol, timeFrame: nat, k: nat)
    requires SegmentDuration(timeFrame) > 0
  {
    var p := PlaceOf(metas, s, timeFrame, k);
    p.db < |tables| && p.row in tables[p.db]
  }

  /**
   A range read fails exactly when one of its segments cannot be read, and otherwise finds
   bars when one has a row.
   */
  lemma {:induction false} ReadRangeOutcome(tables: seq<Rows>, metas: seq<Routing.Metadata>, s: Symbol, timeFrame: nat,
      first: nat, stop: nat, r: Reading)
    requires SegmentDuration(timeFrame) > 0 && |tables| == |metas| && r.Reading?
    ensures
      var out := ReadRange(tables, metas, s, timeFrame, first, stop, r);
      && (out.Thrown? <==> exists k :: first <= k <= stop && Unreadable(tables, metas, s, timeFrame, k))
      && (out.Reading? ==>
            (out.found <==> r.found || exists k :: first <= k <= stop && HasRow(tables, metas, s, timeFrame, k)))
    decreases if first <= stop then stop - first + 1 else 0
  {
    hide Parse, SegmentDuration, TableIndex, DataKey;
    if first <= stop {
      var next := ReadSegment(tables, PlaceOf(metas, s, timeFrame, first), r);
      assert next.Thrown? <==> Unreadable(tables, metas, s, timeFrame, first);
      if next.Reading? {
        assert next.found <==> r.found || HasRow(tables, metas, s, timeFrame, first);
        ReadRangeOutcome(tables, metas, s, timeFrame, first + 1, stop, next);
      }
    }
  }

  lemma {:induction false} FromMembers(s: seq<MarketBar>, start: nat)
    ensures forall b :: b in From(s, start) ==> b in s
    decreases |s|
  {
    if s != [] { FromMembers(s[1..], start); }
  }

  /**
   A range read gives the range's bars of the last stored segment it covers. That
   is every bar of [start, end) exactly when all of them lie in that one segment.
   */
  lemma RangeRead(tables: seq<Rows>, metas: seq<Routing.Metadata>, s: Symbol, timeFrame: nat, bars: seq<MarketBar>,
      start: nat, end: nat, before: seq<MarketBar>)
    requires SegmentDuration(timeFrame) > 0 && start < end
    requires Holds(tables, metas, s, timeFrame, bars, Index(SegmentDuration(timeFrame), start),
             Index(SegmentDuration(timeFrame), end - 1))
    ensures Index(SegmentDuration(timeFrame), start) <= Index(SegmentDuration(timeFrame), end - 1)
    ensures
      var d := SegmentDuration(timeFrame);
      var stop := Index(d, end - 1);
      var k := LastFound(d, bars, Index(d, start), stop);
      var r := ReadRange(tables, metas, s, timeFrame, Index(d, start), stop, Reading(false, before));
      && r.Reading? && (r.found <==> k <= stop)
      && (r.found ==>
          && Cropped(r.bars, d, start, end) == Between(InBucket(d, k, bars), start, end)
          && (Cropped(r.bars, d, start, end) == Between(bars, start, end)
              <==> forall b :: b in bars && start <= b.time < end ==> Index(d, b.time) == k))
  {
    hide Parse, InBucket, SegmentDuration, PlaceOf, RowAt, Holds, Index, Cropped, Between;
    var d := SegmentDuration(timeFrame);
    IndexGrows(d, start, end - 1);
    var first, stop := Index(d, start), Index(d, end - 1);
    var k := LastFound(d, bars, first, stop);
    ReadRangeLaw(tables, metas, s, timeFrame, bars, first, stop, Reading(false, before));
    if k <= stop {
      var part := InBucket(d, k, bars);
      InBucketMembers(d, k, bars);
      assert AllInBucket(d, k, part) by {
        forall i | 0 <= i < |part| ensures Index(d, part[i].time) == k { assert part[i] in part; }
      }
      CroppedIsBetween(d, k, part, start, end);
      RangeInOneBucket(d, k, bars, start, end);
      BetweenMembers(part, start, end);
      BetweenMembers(bars, start, end);
    }
  }

  /** A range inside one segment reads back exactly its bars. */
  lemma RangeInsideSegment(tables: seq<Rows>, metas: seq<Routing.Metadata>, s: Symbol, timeFrame: nat,
      bars: seq<MarketBar>, start: nat, end: nat, before: seq<MarketBar>)
    requires SegmentDuration(timeFrame) > 0 && start < end
    requires Index(SegmentDuration(timeFrame), start) == Index(SegmentDuration(timeFrame), end - 1)
    requires Holds(tables, metas, s, timeFrame, bars, Index(SegmentDuration(timeFrame), start),
             Index(SegmentDuration(timeFrame), end - 1))
    ensures
      var d := SegmentDuration(timeFrame);
      var r := ReadRange(tables, metas, s, timeFrame, Index(d, start), Index(d, end - 1), Reading(false, before));
      && r.Reading? && (r.found <==> exists b :: b in bars && Index(d, b.time) == Index(d, start))
      && (r.found ==> Cropped(r.bars, d, start, end) == Between(bars, start, end))
      && (!r.found ==> Between(bars, start, end) == [])
  {
    hide Parse, InBucket, SegmentDuration, PlaceOf, RowAt, Holds, Index, Cropped, Between, ReadRange;
    var d := SegmentDuration(timeFrame);
    var k := Index(d, start);
    RangeRead(tables, metas, s, timeFrame, bars, start, end, before);
    forall b | b in bars && start <= b.time < end ensures Index(d, b.time) == k {
      IndexGrows(d, start, b.time);
      IndexGrows(d, b.time, end - 1);
    }
    InBucketMembers(d, k, bars);
    BetweenMembers(bars, start, end);
    var part := InBucket(d, k, bars);
    assert part != [] ==> part[0] in part;
    if Between(bars, start, end) != [] { assert Between(bars, start, end)[0] in Between(bars, start, end); }
  }

  /**
   Written, then read: bars stored into a range without older records read back as
   exactly the bars of [start, end), when the range lies in one hour, day or week,
   whichever the time frame is stored by.
   */
  lemma WrittenThenRead(tables: seq<Rows>, metas: seq<Routing.Metadata>, s: Symbol, c: BarConfig, bars: seq<MarketBar>,
      d: nat, start: nat, end: nat, before: seq<MarketBar>)
    requires IsSegmentLength(c.timeFrame, d) && SegmentDuration(c.timeFrame) > 0
    requires start < end && start / d == (end - 1) / d < SEGMENT_LIMIT
    requires Keyed(s) && Sorted(bars) && RecordsFit(c, bars)
    requires AllRouted(tables, metas, s, c, Segments(SegmentDuration(c.timeFrame), bars))
    requires Vacant(tables, metas, s, c.timeFrame, bars, start / d, start / d)
    ensures
      var after := PutAll(tables, metas, s, c, Segments(SegmentDuration(c.timeFrame), bars));
      var r := ReadRange(after, metas, s, c.timeFrame, start / d, start / d, Reading(false, before));
      && r.Reading? && (r.found <==> exists b :: b in bars && b.time / d == start / d)
      && (r.found ==> Cropped(r.bars, d, start, end) == Between(bars, start, end))
      && (!r.found ==> Between(bars, start, end) == [])
  {
    hide PutAll, ReadRange, Vacant, Holds, Segments, AllRouted, Cropped, Between, RecordsFit, Sorted;
    SegmentLengths(c.timeFrame, d);
    UpsertThenHolds(tables, metas, s, c, bars, start / d, start / d);
    var after := PutAll(tables, metas, s, c, Segments(SegmentDuration(c.timeFrame), bars));
    RangeInsideSegment(after, metas, s, c.timeFrame, bars, start, end, before);
  }

  /**
   Two bars of the range in different segments: the later segment has replaced the earlier
   one, and a bar is missing.
   */
  lemma RangeAcrossSegmentsLosesBars(tables: seq<Rows>, metas: seq<Routing.Metadata>, s: Symbol, timeFrame: nat,
      bars: seq<MarketBar>, start: nat, end: nat, before: seq<MarketBar>, a: MarketBar, b: MarketBar)
    requires SegmentDuration(timeFrame) > 0 && start < end
    requires Holds(tables, metas, s, timeFrame, bars, Index(SegmentDuration(timeFrame), start),
             Index(SegmentDuration(timeFrame), end - 1))
    requires a in bars && b in bars && start <= a.time < end && start <= b.time < end
    requires Index(SegmentDuration(timeFrame), a.time) != Index(SegmentDuration(timeFrame), b.time)
    ensures
      var d := SegmentDuration(timeFrame);
      var r := ReadRange(tables, metas, s, timeFrame, Index(d, start), Index(d, end - 1), Reading(false, before));
      r.Reading? && r.found && Cropped(r.bars, d, start, end) != Between(bars, start, end)
  {
    hide Parse, InBucket, SegmentDuration, PlaceOf, RowAt, Holds, Index, Cropped, Between, ReadRange;
    var d := SegmentDuration(timeFrame);
    RangeRead(tables, metas, s, timeFrame, bars, start, end, before);
    IndexGrows(d, start, a.time);
    IndexGrows(d, a.time, end - 1);
    InBucketMembers(d, Index(d, a.time), bars);
    assert a in InBucket(d, Index(d, a.time), bars);
  }

  const EXAMPLE_SYMBOL: Symbol := Symbol(1, 1, 1)
  const EXAMPLE_BACKENDS: seq<Routing.Metadata> := [Routing.Metadata(BARS, 0, 0, [1], [1], [1])]
  const MINUTE_BARS: BarConfig := ANY_CONFIG.(timeFrame := 60, flags := ANY_CONFIG.flags.(rawBinary := true))
  const DAY_MS: nat := 86_400_000

  lemma ExampleRoute(time: nat)
    ensures Route(EXAMPLE_BACKENDS, EXAMPLE_SYMBOL, time) == 0
  {
    var m := EXAMPLE_BACKENDS[0];
    assert BlockBits.And(1, 1) == 1 && BlockBits.And(BARS, BARS) == 2;
    assert m.HasFlag(BARS) && m.ContainsTime(time);
    assert 1 in m.symbols && 1 in m.exchanges && 1 in m.markets;
  }

  /** Two one-minute bars on consecutive days, stored in one backend and read back with one range: a bar is missing. */
  lemma TwoDaysLoseABar()
    ensures
      var bars := [EMPTY_BAR, EMPTY_BAR.(time := DAY_MS)];
      var after := PutAll([map[]], EXAMPLE_BACKENDS, EXAMPLE_SYMBOL, MINUTE_BARS, Segments(DAY_MS, bars));
      var r := ReadRange(after, EXAMPLE_BACKENDS, EXAMPLE_SYMBOL, 60, Index(DAY_MS, 0), Index(DAY_MS, DAY_MS),
          Reading(false, []));
      r.Reading? && r.found && Cropped(r.bars, DAY_MS, 0, DAY_MS + 1) != Between(bars, 0, DAY_MS + 1)
  {
    var first, second := EMPTY_BAR, EMPTY_BAR.(time := DAY_MS);
    var bars := [first, second];
    var tables: seq<Rows> := [map[]];
    assert SegmentDuration(60) == DAY_MS;
    assert Index(DAY_MS, 0) == 0 && Index(DAY_MS, DAY_MS) == 1;
    assert RecordsFit(MINUTE_BARS, bars);
    var segments := Segments(DAY_MS, bars);
    hide Record, Parse, PutAll, ReadRange, Cropped, Between, Segments, SegmentDuration, Index, InBucket, Route;
    forall i | 0 <= i < |segments|
      ensures SegmentPlace(EXAMPLE_BACKENDS, EXAMPLE_SYMBOL, MINUTE_BARS, segments[i]).db < |tables|
    {
      ExampleRoute(StartOf(DAY_MS, SegmentOf(DAY_MS, segments[i])));
    }
    forall k | 0 <= k <= 1 ensures PlaceOf(EXAMPLE_BACKENDS, EXAMPLE_SYMBOL, 60, k).db == 0 {
      ExampleRoute(StartOf(DAY_MS, k));
    }
    UpsertThenHolds(tables, EXAMPLE_BACKENDS, EXAMPLE_SYMBOL, MINUTE_BARS, bars, 0, 1);
    RangeAcrossSegmentsLosesBars(PutAll(tables, EXAMPLE_BACKENDS, EXAMPLE_SYMBOL, MINUTE_BARS, segments),
                                 EXAMPLE_BACKENDS, EXAMPLE_SYMBOL, 60, bars, 0, DAY_MS + 1, [], first, second);
  }
}
