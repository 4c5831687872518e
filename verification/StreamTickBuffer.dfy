/**
 An hour of ticks with its per-second index. Hours are loaded from a deterministic
 data source, either streamed one after the other or reloaded together with the
 hour before when the sequence was broken.
 */
module StreamTickBuffer {
  import opened Ticks
  import opened SpreadProcessors
  import opened SpreadLaws

  type DataSource = nat -> seq<Tick>

  ghost predicate Sorted(ticks: seq<Tick>) {
    forall i, j :: 0 <= i < j < |ticks| ==> ticks[i].time <= ticks[j].time
  }

  /** Asked for the hour that starts at `start`, the source returns ticks of that hour in time order. */
  ghost predicate GoodSource(source: DataSource) {
    forall start :: WithinHour(source(start), start) && Sorted(source(start))
  }

  function LastOf(ticks: seq<Tick>): Option<Tick> {
    if ticks == [] then None else Some(ticks[|ticks| - 1])
  }

  /** The buffer of an hour as a function of the hour before and the hour itself. */
  function HourBuffer(config: Config, source: DataSource, start: nat): seq<Tick>
    requires start >= HOUR_MS
  {
    if source(start) == [] then []
    else Hour(config, LastOf(source(start - HOUR_MS)), Spreads(0, 0, 0), source(start)).0
  }

  /** The tick and the spreads that the requested hour is processed with. */
  datatype Carried = Carried(previous: Option<Tick>, spreads: Spreads)

  /** After a reload: the hour before is processed as if nothing preceded it. */
  function Reloaded(config: Config, spreads: Spreads, before: seq<Tick>): Carried {
    if before == [] then Carried(None, spreads)
    else
      var (r, q) := Hour(config, None, spreads, before);
      Carried(LastOf(r), q.spreads)
  }

  ghost predicate SameLast(a: Option<Tick>, b: Option<Tick>) {
    a.Some? == b.Some? && (a.Some? ==> a.value.last == b.value.last)
  }

  lemma {:induction false} StatelessRest(config: Config, previous: Tick, q: Quoting, q': Quoting, s: seq<Tick>)
    requires config.model.NoSpread? || (config.model.FixedSpread? && q.current == q'.current)
    ensures Rest(config, previous, q, s).0 == Rest(config, previous, q', s).0
    decreases |s|
  {
    if s != [] {
      var t := NextTick(config, previous, q, s[0]);
      var t' := NextTick(config, previous, q', s[0]);
      StatelessRest(config, t.0, t.1, t'.1, s[1..]);
    }
  }

  /**
   Without a spread model and with a fixed spread, an hour depends on what came before
   only through the last price.
   */
  lemma StatelessHour(config: Config, a: Option<Tick>, b: Option<Tick>, sa: Spreads, sb: Spreads, s: seq<Tick>)
    requires s != [] && SameLast(a, b)
    requires config.model.NoSpread? || config.model.FixedSpread?
    ensures Hour(config, a, sa, s).0 == Hour(config, b, sb, s).0
  {
    var t := FirstTick(config, a, sa, s[0]);
    var t' := FirstTick(config, b, sb, s[0]);
    StatelessRest(config, t.0, t.1, t'.1, s[1..]);
  }

  // ---------------------------------------------------------------------------
  // Time ranges
  // ---------------------------------------------------------------------------

  /** `data`, `size` describe the ticks of [start, end): a run of indices, or nothing. */
  ghost predicate ExactSpan(ticks: seq<Tick>, start: nat, end: nat, data: int, size: int) {
    if data < 0 then
      size == 0 && forall i :: 0 <= i < |ticks| ==> !(start <= ticks[i].time < end)
    else
      && 0 <= size && data + size <= |ticks|
      && forall i :: 0 <= i < |ticks| ==> (data <= i < data + size <==> start <= ticks[i].time < end)
  }

  class StreamTickBuffer {
    var ticks: seq<Tick>
    const chunks: array<nat>
    var prevTick: Tick
    var hasPrev: bool
    var config: Config
    const processors: Processors
    var startMs: nat
    var endMs: nat
    /** The span: the index of its first tick, -1 for a null pointer, and its length. */
    var spanData: int
    var spanSize: int

    /** What holds after every successful fetch. */
    ghost predicate Valid()
      reads this, chunks
    {
      && chunks.Length == SECONDS + 1 && chunks[0] == 0
      && (ticks == [] ==> !hasPrev && forall k :: 0 <= k <= SECONDS ==> chunks[k] == 0)
      && (ticks != [] ==>
            && hasPrev && prevTick == ticks[|ticks| - 1]
            && WithinHour(ticks, startMs) && Sorted(ticks) && endMs == startMs + HOUR_MS
            && IsIndex(ticks, startMs, chunks[..]))
    }

    /** The remembered tick is the last one of the hour that ends at `endMs`. */
    ghost predicate Synced(source: DataSource)
      reads this
    {
      hasPrev ==> endMs >= HOUR_MS && SameLast(Some(prevTick), LastOf(source(endMs - HOUR_MS)))
    }

    constructor (config: Config)
      ensures Valid() && this.config == config && !hasPrev && ticks == []
      ensures fresh(chunks) && fresh(processors)
    {
      this.config := config;
      ticks, prevTick, hasPrev := [], BLANK, false;
      startMs, endMs := 0, 0;
      spanData, spanSize := -1, 0;
      chunks := new nat[SECONDS + 1](_ => 0);
      processors := new Processors();
    }

    method SetBidAskConfig(config: Config)
      modifies this`config
      ensures this.config == config
    {
      this.config := config;
    }

    /** The remembered tick, if there is one. */
    ghost function Previous(): Option<Tick>
      reads this
    {
      if hasPrev then Some(prevTick) else None
    }

    /** Hands the buffered ticks to the processor; on success remembers the last one. */
    method RunProcessor(start: nat) returns (ok: bool)
      requires ticks != [] && WithinHour(ticks, start) && chunks.Length == SECONDS + 1
      modifies this`ticks, this`prevTick, this`hasPrev, chunks, processors
      ensures ok == Quotable(config, old(ticks))
      ensures ok ==>
                && ticks == Hour(config, old(Previous()), old(processors.spreads), old(ticks)).0
                && processors.spreads == Hour(config, old(Previous()), old(processors.spreads), old(ticks)).1.spreads
                && IsIndex(ticks, start, chunks[..])
                && ticks != [] && hasPrev && prevTick == ticks[|ticks| - 1]
      ensures !ok ==> hasPrev == old(hasPrev) && prevTick == old(prevTick)
      ensures chunks[0] == old(chunks[0])
    {
      hide Hour, IsIndex, Quotable;
      var buffered := ticks;
      var work := new Tick[|buffered|](i requires 0 <= i < |buffered| => buffered[i]);
      assert work[..] == ticks;
      ghost var s, previous, spreads := ticks, if hasPrev then Some(prevTick) else None, processors.spreads;
      ok := processors.Process(config, work, chunks, if hasPrev then Some(prevTick) else None, start);
      ticks := work[..];
      if ok {
        TimesKept(config, previous, spreads, s);
        prevTick := ticks[|ticks| - 1];
        hasPrev := true;
      }
    }

    /** `load_and_process` of the previous hour, then the load of the requested one. */
    method ReloadTicks(start: nat, source: DataSource) returns (ok: bool)
      requires GoodSource(source) && start >= HOUR_MS && chunks.Length == SECONDS + 1
      modifies this`ticks, this`prevTick, this`hasPrev, chunks, processors
      ensures ok == (source(start - HOUR_MS) == [] || Quotable(config, source(start - HOUR_MS)))
      ensures ok ==> ticks == source(start)
      ensures ok ==> hasPrev == (source(start - HOUR_MS) != [])
      ensures ok && hasPrev ==> SameLast(Some(prevTick), LastOf(source(start - HOUR_MS)))
      ensures ok ==>
                var state := Reloaded(config, old(processors.spreads), source(start - HOUR_MS));
                Carried(Previous(), processors.spreads) == state
      ensures !ok ==> !hasPrev
      ensures chunks[0] == old(chunks[0])
    {
      hide Hour, IsIndex, Quotable;
      hasPrev := false;
      ticks := source(start - HOUR_MS);
      ok := true;
      if ticks != [] {
        ghost var s, spreads := ticks, processors.spreads;
        assert WithinHour(ticks, start - HOUR_MS);
        ok := RunProcessor(start - HOUR_MS);
        if !ok { return; }
        TimesKept(config, None, spreads, s);
      }
      ticks := source(start);
    }

    /**
     Loads the hour that contains `time`. It fails, and leaves the buffer half
     updated, exactly when a tick that has to be quoted carries no side. It needs
     no earlier fetch to have succeeded: whatever the state, success makes the
     buffer valid again.
     */
    method FetchTicks(time: nat, source: DataSource) returns (ok: bool)
      requires GoodSource(source) && time >= HOUR_MS
      requires chunks.Length == SECONDS + 1 && chunks[0] == 0
      modifies this, chunks, processors
      ensures
        var start := time - time % HOUR_MS;
        && ok == (
             (source(start) == [] || Quotable(config, source(start)))
             && (old(hasPrev && endMs == start) || source(start - HOUR_MS) == []
                || Quotable(config, source(start - HOUR_MS))))
        && (ok ==> startMs == start && endMs == start + HOUR_MS && Valid() && Synced(source))
        && (ok ==> |ticks| == |source(start)| && forall i :: 0 <= i < |ticks| ==> SameTrade(ticks[i], source(start)[i]))
        && (ok && source(start) != [] ==>
              var carried := old(CarriedTo(source, start));
              && ticks == Hour(config, carried.previous, carried.spreads, source(start)).0
              && processors.spreads == Hour(config, carried.previous, carried.spreads, source(start)).1.spreads)
        && (ok && source(start) == [] ==> processors.spreads == old(CarriedTo(source, start)).spreads)
        && (ok && old(Synced(source)) && (config.model.NoSpread? || config.model.FixedSpread?) ==>
              ticks == HourBuffer(config, source, start))
      ensures config == old(config) && chunks[0] == 0
    {
      var start := time - time % HOUR_MS;
      assert start >= HOUR_MS;
      ok := LoadHour(start, source);
      if !ok { return; }
      startMs, endMs := start, start + HOUR_MS;
      if ticks == [] {
        ClearChunks();
        hasPrev := false;
        return;
      }
      ok := ProcessHour(source);
    }

    /** What a fetch of the hour from `start` on carries into it: the buffer's own state, or that of a reload. */
    ghost function CarriedTo(source: DataSource, start: nat): Carried
      requires start >= HOUR_MS
      reads this, processors
    {
      if start == endMs && hasPrev then Carried(Some(prevTick), processors.spreads)
      else Reloaded(config, processors.spreads, source(start - HOUR_MS))
    }

    /** The streaming path, when the requested hour follows the buffered one, or the reload path. */
    method LoadHour(start: nat, source: DataSource) returns (ok: bool)
      requires GoodSource(source) && start >= HOUR_MS && chunks.Length == SECONDS + 1
      modifies this`ticks, this`prevTick, this`hasPrev, chunks, processors
      ensures ok == (old(hasPrev && endMs == start) || source(start - HOUR_MS) == []
              || Quotable(config, source(start - HOUR_MS)))
      ensures ok ==> ticks == source(start)
      ensures ok && old(Synced(source)) ==> PreviousKnown(source, start)
      ensures ok ==> Carried(Previous(), processors.spreads) == old(CarriedTo(source, start))
      ensures chunks[0] == old(chunks[0])
    {
      hide Hour, IsIndex, Quotable;
      ok := true;
      if start == endMs && hasPrev {
        ticks := source(start);
      } else {
        ok := ReloadTicks(start, source);
      }
    }

    /** The remembered tick stands for the last tick of the hour before `start`, if that hour had any. */
    ghost predicate PreviousKnown(source: DataSource, start: nat)
      requires start >= HOUR_MS
      reads this
    {
      SameLast(if hasPrev then Some(prevTick) else None, LastOf(source(start - HOUR_MS)))
    }

    /** The main `process` call, on a non-empty hour that has just been loaded. */
    method ProcessHour(source: DataSource) returns (ok: bool)
      requires GoodSource(source) && startMs >= HOUR_MS && endMs == startMs + HOUR_MS
      requires ticks == source(startMs) && ticks != []
      requires chunks.Length == SECONDS + 1 && chunks[0] == 0
      modifies this`ticks, this`prevTick, this`hasPrev, chunks, processors
      ensures ok == Quotable(config, source(startMs))
      ensures ok ==> Valid() && Synced(source)
      ensures ok ==>
                && |ticks| == |source(startMs)|
                && forall i :: 0 <= i < |ticks| ==> SameTrade(ticks[i], source(startMs)[i])
      ensures ok ==>
                && ticks == Hour(config, old(Previous()), old(processors.spreads), source(startMs)).0
                && processors.spreads == Hour(config, old(Previous()), old(processors.spreads),
                   source(startMs)).1.spreads
      ensures ok && old(PreviousKnown(source, startMs)) && (config.model.NoSpread? || config.model.FixedSpread?) ==>
                ticks == HourBuffer(config, source, startMs)
      ensures chunks[0] == 0
    {
      hide Hour, IsIndex, Quotable;
      ghost var s, previous, spreads := ticks, if hasPrev then Some(prevTick) else None, processors.spreads;
      assert WithinHour(s, startMs) && Sorted(s);
      ok := RunProcessor(startMs);
      if !ok { return; }
      TimesKept(config, previous, spreads, s);
      TradesKeepOrder(s, ticks, startMs);
      assert ticks[|ticks| - 1].last == s[|s| - 1].last;
      if SameLast(previous, LastOf(source(startMs - HOUR_MS)))
          && (config.model.NoSpread? || config.model.FixedSpread?) {
        StatelessHour(config, previous, LastOf(source(startMs - HOUR_MS)), spreads, Spreads(0, 0, 0), s);
      }
    }

    lemma TradesKeepOrder(s: seq<Tick>, r: seq<Tick>, start: nat)
      requires WithinHour(s, start) && Sorted(s)
      requires |r| == |s| && forall i :: 0 <= i < |s| ==> SameTrade(r[i], s[i])
      ensures WithinHour(r, start) && Sorted(r)
    {
    }

    method ClearChunks()
      modifies chunks
      ensures forall k :: 0 <= k < chunks.Length ==> chunks[k] == 0
    {
      for i := 0 to chunks.Length
        invariant forall k :: 0 <= k < i ==> chunks[k] == 0
      {
        chunks[i] := 0;
      }
    }

    /** The tick where the search for a range starts. */
    ghost function SearchStart(start: nat): nat
      requires Valid() && startMs <= start <= startMs + HOUR_MS
      reads this, chunks
    {
      chunks[(start - startMs) / SECOND_MS]
    }

    /**
     Selects the ticks of [start, end). The span is exact whenever the tick where
     the search starts lies before `end`, and only then. Otherwise the backward
     loop finds nothing: it reads before the first tick when the search started
     there (the comparison is unsigned), and else leaves the start index as size.
     */
    method SetTickSpan(start: nat, end: nat) returns (readsInside: bool)
      requires Valid() && startMs <= start <= end <= startMs + HOUR_MS
      modifies this`spanData, this`spanSize
      ensures ticks == [] ==> readsInside && spanData == -1 && spanSize == 0
      ensures ticks != [] ==>
                && SearchStart(start) < |ticks|
                && (readsInside && ExactSpan(ticks, start, end, spanData, spanSize) <==>
                   ticks[SearchStart(start)].time < end)
      ensures ticks != [] ==> (readsInside <==> SearchStart(start) > 0 || ticks[0].time < end)
      ensures ticks != [] && ticks[|ticks| - 1].time < start ==> readsInside && spanData == -1 && spanSize == 0
      ensures (exists i :: 0 <= i < |ticks| && start <= ticks[i].time < end) ==>
                readsInside && spanData >= 0 && ExactSpan(ticks, start, end, spanData, spanSize)
    {
      hide ExactSpan, IsIndex, Window, WithinHour, Sorted, IsFirstAtOrAfter;
      readsInside, spanSize, spanData := true, 0, -1;
      if ticks == [] { return; }
      var lo := chunks[(start - startMs) / SECOND_MS];
      var hi := chunks[(end - startMs + SECOND_MS - 1) / SECOND_MS];
      SearchWindow(start, end);
      readsInside := SpanBetween(lo, hi, start, end);
    }

    /** The two loops between the index entries. */
    method SpanBetween(lo: nat, hi: nat, start: nat, end: nat) returns (readsInside: bool)
      requires lo <= hi < |ticks| && Window(ticks, lo, hi, start, end)
      modifies this`spanData, this`spanSize
      ensures readsInside && ExactSpan(ticks, start, end, spanData, spanSize) <==> ticks[lo].time < end
      ensures readsInside <==> lo > 0 || ticks[0].time < end
      ensures ticks[|ticks| - 1].time < start ==> readsInside && spanData == -1 && spanSize == 0
      ensures (exists i :: 0 <= i < |ticks| && start <= ticks[i].time < end) ==>
                readsInside && spanData >= 0 && ExactSpan(ticks, start, end, spanData, spanSize)
    {
      hide ExactSpan, Window;
      readsInside, spanSize := true, 0;
      spanData := FirstNotBefore(lo, hi, start);
      if spanData < 0 {
        NothingInRange(lo, hi, start, end);
        return;
      }
      var last;
      readsInside, last := LastBefore(lo, hi, end);
      spanSize := if last.Some? then last.value - spanData + 1 else spanData;
      SpanFound(lo, hi, start, end, spanData, last);
    }

    /** The forward loop: the first tick of the window at or after `start`, or -1. */
    method FirstNotBefore(lo: nat, hi: nat, start: nat) returns (first: int)
      requires lo <= hi < |ticks|
      ensures first == -1 ==> forall j :: lo <= j <= hi ==> ticks[j].time < start
      ensures first != -1 ==>
                && lo <= first <= hi && ticks[first].time >= start
                && forall j :: lo <= j < first ==> ticks[j].time < start
    {
      var i := lo;
      while i <= hi
        invariant lo <= i <= hi + 1
        invariant forall j :: lo <= j < i ==> ticks[j].time < start
      {
        if start <= ticks[i].time { return i; }
        i := i + 1;
      }
      return -1;
    }

    /**
     The backward loop: the last tick of the window before `end`. With `lo` zero it runs
     past the first tick when there is none.
     */
    method LastBefore(lo: nat, hi: nat, end: nat) returns (readsInside: bool, last: Option<int>)
      requires lo <= hi < |ticks|
      ensures last.Some? ==>
                && lo <= last.value <= hi && ticks[last.value].time < end
                && forall j :: last.value < j <= hi ==> ticks[j].time >= end
      ensures last.None? ==> forall j :: lo <= j <= hi ==> ticks[j].time >= end
      ensures readsInside == (last.Some? || lo > 0)
    {
      readsInside, last := true, None;
      var k: int := hi;
      while lo == 0 || k >= lo
        invariant lo - 1 <= k <= hi
        invariant forall j :: k < j <= hi ==> ticks[j].time >= end
        decreases k + 1
      {
        if k < 0 { return false, None; }
        if ticks[k].time < end { return true, Some(k); }
        k := k - 1;
      }
    }

    static ghost predicate Window(ticks: seq<Tick>, lo: nat, hi: nat, start: nat, end: nat)
    {
      && Sorted(ticks) && lo <= hi < |ticks| && start <= end
      && (forall i :: 0 <= i < lo ==> ticks[i].time < start)
      && (forall i :: hi < i < |ticks| ==> ticks[i].time >= end)
    }

    lemma NothingInRange(lo: nat, hi: nat, start: nat, end: nat)
      requires Window(ticks, lo, hi, start, end)
      requires forall j :: lo <= j <= hi ==> ticks[j].time < start
      ensures ExactSpan(ticks, start, end, -1, 0)
      ensures forall i :: 0 <= i < |ticks| ==> !(start <= ticks[i].time < end)
      ensures ticks[lo].time < end
    {
    }

    lemma SpanFound(lo: nat, hi: nat, start: nat, end: nat, first: int, last: Option<int>)
      requires Window(ticks, lo, hi, start, end)
      requires lo <= first <= hi && ticks[first].time >= start && forall j :: lo <= j < first ==> ticks[j].time < start
      requires last.Some? ==>
                 && lo <= last.value <= hi && ticks[last.value].time < end
                 && forall j :: last.value < j <= hi ==> ticks[j].time >= end
      requires last.None? ==> forall j :: lo <= j <= hi ==> ticks[j].time >= end
      ensures last.Some? <==> ticks[lo].time < end
      ensures last.Some? ==> ExactSpan(ticks, start, end, first, last.value - first + 1)
      ensures last.None? && lo > 0 ==> !ExactSpan(ticks, start, end, first, first)
      ensures last.None? ==> forall i :: 0 <= i < |ticks| ==> !(start <= ticks[i].time < end)
      ensures ticks[|ticks| - 1].time >= start
    {
      if last.Some? {
        assert first > lo ==> ticks[first - 1].time < start;
      } else {
        assert !(start <= ticks[first].time < end);
      }
    }

    /** Everything of the range lies between the two index entries. */
    lemma SearchWindow(start: nat, end: nat)
      requires Valid() && ticks != [] && startMs <= start <= end <= startMs + HOUR_MS
      ensures
        var lo := chunks[(start - startMs) / SECOND_MS];
        var hi := chunks[(end - startMs + SECOND_MS - 1) / SECOND_MS];
        lo <= hi < |ticks| && Window(ticks, lo, hi, start, end)
    {
      var a, b := (start - startMs) / SECOND_MS, (end - startMs + SECOND_MS - 1) / SECOND_MS;
      var bounds := chunks[..];
      assert a > 0 ==> IsFirstAtOrAfter(ticks, startMs + SECOND_MS * a, bounds[a]);
      assert b > 0 ==> IsFirstAtOrAfter(ticks, startMs + SECOND_MS * b, bounds[b]);
    }
  }

  // ---------------------------------------------------------------------------
  // Runs of fetches
  // ---------------------------------------------------------------------------

  /** The hours of the source from `first` on. */
  function HoursFrom(source: DataSource, first: nat, n: nat): seq<seq<Tick>> {
    if n == 0 then [] else HoursFrom(source, first, n - 1) + [source(first + (n - 1) * HOUR_MS)]
  }

  /** The hours that have been processed once `n` hours from `first` on were fetched: a reload comes first. */
  function Processed(source: DataSource, first: nat, n: nat): seq<seq<Tick>>
    requires first >= HOUR_MS
  {
    (if source(first - HOUR_MS) == [] then [] else [source(first - HOUR_MS)]) + HoursFrom(source, first, n)
  }

  ghost predicate NoGaps(source: DataSource, first: nat, n: nat) {
    forall i :: 0 <= i < n ==> source(first + i * HOUR_MS) != []
  }

  lemma {:induction false} ProcessedAreNotEmpty(source: DataSource, first: nat, n: nat)
    requires first >= HOUR_MS && NoGaps(source, first, n)
    ensures NonEmptyHours(Processed(source, first, n))
  {
    if n > 0 {
      ProcessedAreNotEmpty(source, first, n - 1);
      assert source(first + (n - 1) * HOUR_MS) != [];
      assert Processed(source, first, n) == Processed(source, first, n - 1) + [source(first + (n - 1) * HOUR_MS)];
    }
  }

  lemma RunSnoc(config: Config, initial: Spreads, hours: seq<seq<Tick>>, hour: seq<Tick>)
    requires NonEmptyHours(hours) && hour != []
    ensures NonEmptyHours(hours + [hour])
    ensures RunSpreads(config, initial, hours + [hour])
         == Hour(config, LastTick(hours), RunSpreads(config, initial, hours), hour).1.spreads
    ensures LastTick(hours + [hour]) == LastOf(hour)
  {
    hide Hour;
    assert (hours + [hour])[..|hours|] == hours;
  }

  /** What a fetch carries into the next hour agrees with the run of hours so far. */
  ghost predicate Matches(config: Config, initial: Spreads, hours: seq<seq<Tick>>, carried: Carried)
    requires NonEmptyHours(hours)
  {
    carried.spreads == RunSpreads(config, initial, hours) && SamePrevious(carried.previous, LastTick(hours))
  }

  lemma ReloadMatches(config: Config, initial: Spreads, source: DataSource, first: nat)
    requires first >= HOUR_MS
    ensures NonEmptyHours(Processed(source, first, 0))
    ensures Matches(config, initial, Processed(source, first, 0), Reloaded(config, initial, source(first - HOUR_MS)))
  {
    hide Hour;
    var before := source(first - HOUR_MS);
    if before == [] {
      assert Processed(source, first, 0) == [];
    } else {
      assert Processed(source, first, 0) == [] + [before];
      RunSnoc(config, initial, [], before);
      TimesKept(config, None, initial, before);
    }
  }

  lemma NextMatches(config: Config, initial: Spreads, hours: seq<seq<Tick>>, carried: Carried, hour: seq<Tick>)
    requires NonEmptyHours(hours) && hour != [] && Matches(config, initial, hours, carried)
    ensures Hour(config, carried.previous, carried.spreads, hour)
         == Hour(config, LastTick(hours), RunSpreads(config, initial, hours), hour)
    ensures NonEmptyHours(hours + [hour])
    ensures
      var (r, q) := Hour(config, carried.previous, carried.spreads, hour);
      |r| == |hour| && Matches(config, initial, hours + [hour], Carried(LastOf(r), q.spreads))
  {
    hide Hour;
    HourDependsOnTrade(config, carried.previous, LastTick(hours), carried.spreads, hour);
    RunSnoc(config, initial, hours, hour);
    TimesKept(config, carried.previous, carried.spreads, hour);
  }

  lemma StartOfHour(first: nat, i: nat)
    requires first % HOUR_MS == 0
    ensures (first + i * HOUR_MS) % HOUR_MS == 0
  {
  }

  /** The buffer is ready for hour `i` of the run: it has to reload, or it continues the hours processed so far. */
  ghost predicate Ready(buffer: StreamTickBuffer, initial: Spreads, source: DataSource, first: nat, i: nat)
    requires first >= HOUR_MS
    reads buffer, buffer.chunks, buffer.processors
  {
    && buffer.Valid() && NonEmptyHours(Processed(source, first, i))
    && (i == 0 ==> !buffer.hasPrev && buffer.processors.spreads == initial)
    && (i > 0 ==>
          && buffer.hasPrev && buffer.endMs == first + i * HOUR_MS
          && Matches(buffer.config, initial, Processed(source, first, i),
             Carried(Some(buffer.prevTick), buffer.processors.spreads)))
  }

  lemma ReadyMatches(buffer: StreamTickBuffer, initial: Spreads, source: DataSource, first: nat, i: nat)
    requires first >= HOUR_MS && Ready(buffer, initial, source, first, i)
    ensures Matches(buffer.config, initial, Processed(source, first, i), buffer.CarriedTo(source, first + i * HOUR_MS))
  {
    hide Matches, Hour;
    if i == 0 { ReloadMatches(buffer.config, initial, source, first); }
  }

  predicate HourQuotable(config: Config, hour: seq<Tick>) { hour == [] || Quotable(config, hour) }

  /** Every tick that has to be quoted, in `n` hours from `first` on and in the hour before, has a side. */
  ghost predicate RunQuotable(config: Config, source: DataSource, first: nat, n: nat)
    requires first >= HOUR_MS
  {
    HourQuotable(config, source(first - HOUR_MS))
        && forall i :: 0 <= i < n ==> HourQuotable(config, source(first + i * HOUR_MS))
  }

  /** The fetch of hour `i` of a run continues it. */
  method FetchNext(buffer: StreamTickBuffer, source: DataSource, first: nat, i: nat, ghost initial: Spreads)
      returns (ok: bool)
    requires GoodSource(source) && first >= HOUR_MS && first % HOUR_MS == 0 && source(first + i * HOUR_MS) != []
    requires Ready(buffer, initial, source, first, i)
    modifies buffer, buffer.chunks, buffer.processors
    ensures buffer.config == old(buffer.config)
    ensures ok == (HourQuotable(buffer.config, source(first + i * HOUR_MS))
                   && (i == 0 ==> HourQuotable(buffer.config, source(first - HOUR_MS))))
    ensures ok ==>
              var hours, last := Processed(source, first, i), source(first + i * HOUR_MS);
              var spreads := RunSpreads(buffer.config, initial, hours);
              && Ready(buffer, initial, source, first, i + 1)
              && buffer.ticks == Hour(buffer.config, LastTick(hours), spreads, last).0
              && buffer.processors.spreads == Hour(buffer.config, LastTick(hours), spreads, last).1.spreads
  {
    hide Hour, RunSpreads, GoodSource, Matches, NonEmptyHours, IsIndex, Quotable;
    var start := first + i * HOUR_MS;
    StartOfHour(first, i);
    ghost var hours, carried := Processed(source, first, i), buffer.CarriedTo(source, start);
    assert Processed(source, first, i + 1) == hours + [source(start)];
    ReadyMatches(buffer, initial, source, first, i);
    NextMatches(buffer.config, initial, hours, carried, source(start));
    ok := buffer.FetchTicks(start, source);
  }

  /**
   A client that asks for consecutive hours without a gap. Each fetch continues the
   run of all hours processed so far, so the laws about runs of hours hold of the
   buffer: the ticks of the last hour and the spreads left behind are those of the run.
   */
  method ReplayHours(buffer: StreamTickBuffer, source: DataSource, first: nat, n: nat) returns (ok: bool)
    requires GoodSource(source) && first >= HOUR_MS && first % HOUR_MS == 0 && n > 0 && NoGaps(source, first, n)
    requires buffer.Valid() && !buffer.hasPrev
    modifies buffer, buffer.chunks, buffer.processors
    ensures buffer.config == old(buffer.config)
    ensures NonEmptyHours(Processed(source, first, n - 1))
    ensures ok <==> RunQuotable(buffer.config, source, first, n)
    ensures ok ==>
              var hours, last := Processed(source, first, n - 1), source(first + (n - 1) * HOUR_MS);
              var spreads := RunSpreads(buffer.config, old(buffer.processors.spreads), hours);
              && buffer.Valid() && last != []
              && buffer.ticks == Hour(buffer.config, LastTick(hours), spreads, last).0
              && buffer.processors.spreads == Hour(buffer.config, LastTick(hours), spreads, last).1.spreads
  {
    hide Hour, RunSpreads, GoodSource, Matches, IsIndex, HourQuotable;
    ghost var initial := buffer.processors.spreads;
    ReloadMatches(buffer.config, initial, source, first);
    ProcessedAreNotEmpty(source, first, n - 1);
    var i := 0;
    while i < n - 1
      invariant 0 <= i <= n - 1 && buffer.config == old(buffer.config)
      invariant Ready(buffer, initial, source, first, i)
      invariant i > 0 ==> RunQuotable(buffer.config, source, first, i)
    {
      ok := FetchNext(buffer, source, first, i, initial);
      if !ok { return; }
      i := i + 1;
    }
    ok := FetchNext(buffer, source, first, n - 1, initial);
  }

  // ---------------------------------------------------------------------------
  // A query that reads before the first tick
  // ---------------------------------------------------------------------------

  /** A source with a single tick, five seconds into the second hour. */
  function LateTick(hour: nat): seq<Tick> {
    if hour == HOUR_MS then [BLANK.(time := HOUR_MS + 5000)] else []
  }

  /** The buffer is filled with that hour and asked for its first second. */
  method LateTickReadsBeforeFirst() returns (readsInside: bool)
    ensures !readsInside
  {
    var buffer := new StreamTickBuffer(Config(NoSpread, 0, (a, b) => false));
    assert GoodSource(LateTick);
    var ok := buffer.FetchTicks(HOUR_MS, LateTick);
    assert buffer.ticks[0].time == HOUR_MS + 5000;
    readsInside := buffer.SetTickSpan(HOUR_MS, HOUR_MS + SECOND_MS);
  }
}
