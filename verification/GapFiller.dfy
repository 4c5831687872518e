/** Filling gaps in a list of bars with flat bars of zero volume: as a copy, and inside the caller's vector. */
module GapFiller {
  import opened Bars
  import opened Buckets
  import Sequences

  function Flat(time: nat, price: int, spread: nat): MarketBar {
    EMPTY_BAR.(time := time, open := price, high := price, low := price, close := price, spread := spread)
  }

  /** A bar without trades: four equal prices, a spread, and nothing in any volume. */
  ghost predicate IsFiller(b: MarketBar, time: nat, price: int, spread: nat) {
    && b.time == time
    && b.open == b.high == b.low == b.close == price
    && b.spread == spread
    && b.volume == b.quoteVolume == b.buyVolume == b.buyQuoteVolume == 0 && b.tickVolume == 0
  }

  lemma FlatIsFiller(time: nat, price: int, spread: nat)
    ensures IsFiller(Flat(time, price, spread), time, price, spread)
  {
  }

  predicate OnGrid(start: nat, interval: nat, time: nat)
    requires interval > 0
  {
    time >= start && (time - start) % interval == 0
  }

  lemma GridStep(start: nat, interval: nat, a: nat, b: nat)
    requires interval > 0 && OnGrid(start, interval, a) && OnGrid(start, interval, b)
    ensures OnGrid(start, interval, a + interval)
    ensures b > a ==> b >= a + interval && OnGrid(a, interval, b)
  {
    hide Index, StartOf;
    var x, y := Index(interval, a - start), Index(interval, b - start);
    MultipleIsStart(interval, a - start);
    MultipleIsStart(interval, b - start);
    StartsGrow(interval, x, x + 1);
    IndexOfStart(interval, x + 1);
    MultipleIsStart(interval, a + interval - start);
    if b > a {
      if y < x { StartsGrow(interval, y, x); }
      StartsGrow(interval, x, y);
      StartsAdd(interval, x, y - x);
      IndexOfStart(interval, y - x);
      MultipleIsStart(interval, b - a);
    }
  }

  // ---------------------------------------------------------------------------
  // The copying form
  // ---------------------------------------------------------------------------

  /**
   What the loop still emits from time `t` on: the bars not yet used, and the bar whose
   close and spread fill a gap.
   */
  function Copied(bars: seq<MarketBar>, previous: MarketBar, interval: nat, t: nat, end: nat): seq<MarketBar>
    requires interval > 0
    decreases if t < end then end - t else 0
  {
    if t >= end then []
    else if bars != [] && bars[0].time == t then [bars[0]] + Copied(bars[1..], bars[0], interval, t + interval, end)
    else [Flat(t, previous.close, previous.spread)] + Copied(bars, previous, interval, t + interval, end)
  }

  function FilledCopy(bars: seq<MarketBar>, interval: nat, start: nat, end: nat): seq<MarketBar>
    requires interval > 0
  {
    if bars == [] then [] else Copied(bars, bars[0], interval, start, end)
  }

  /** `(end - start) / interval + 1` in signed arithmetic, which truncates toward zero. */
  function EstimatedSize(interval: nat, start: nat, end: nat): int
    requires interval > 0
  {
    (if end >= start then (end - start) / interval else -((start - end) / interval)) + 1
  }

  lemma EstimateIsNegative(interval: nat, start: nat, end: nat)
    requires interval > 0
    ensures EstimatedSize(interval, start, end) < 0 <==> start >= end + 2 * interval
  {
    if start > end {
      var q, r := (start - end) / interval, (start - end) % interval;
      assert start - end == q * interval + r;
      if q >= 2 { assert q * interval >= 2 * interval; }
    }
  }

  /**
   The copying form. A range that ends two intervals or more before its start makes
   the size estimate negative, and reserving that many elements is a length error.
   */
  method FillMissingBars(bars: seq<MarketBar>, interval: nat, start: nat, end: nat)
      returns (ok: bool, result: seq<MarketBar>)
    requires interval > 0
    ensures ok <==> bars == [] || start < end + 2 * interval
    ensures ok ==> result == FilledCopy(bars, interval, start, end)
  {
    hide Flat;
    ok, result := true, [];
    if bars == [] { return; }
    EstimateIsNegative(interval, start, end);
    if EstimatedSize(interval, start, end) < 0 { return false, []; }
    var index: nat := 0;
    var expected: nat := start;
    var lastSpread := bars[0].spread;
    while expected < end
      invariant index <= |bars|
      invariant lastSpread == bars[if index > 0 then index - 1 else 0].spread
      invariant result + Copied(bars[index..], bars[if index > 0 then index - 1 else 0], interval, expected, end)
                == FilledCopy(bars, interval, start, end)
      decreases end - expected
    {
      if index < |bars| && bars[index].time == expected {
        assert bars[index..][1..] == bars[index + 1..];
        Sequences.Regroup(result, [bars[index]],
            Copied(bars[index + 1..], bars[index], interval, expected + interval, end));
        result := result + [bars[index]];
        lastSpread := bars[index].spread;
        index := index + 1;
      } else {
        var price := if index > 0 then bars[index - 1].close else bars[0].close;
        var filler := Flat(expected, price, lastSpread);
        Sequences.Regroup(result, [filler],
                Copied(bars[index..], bars[if index > 0 then index - 1 else 0], interval, expected + interval, end));
        result := result + [filler];
      }
      expected := expected + interval;
    }
  }

  // ---------------------------------------------------------------------------
  // What a filled copy contains
  // ---------------------------------------------------------------------------

  /** The leading bars the copying loop can meet: on the grid, at or after the start, each later than the one before. */
  function UsableFrom(bars: seq<MarketBar>, interval: nat, start: nat, i: nat): (u: nat)
    requires interval > 0 && i <= |bars|
    ensures i <= u <= |bars|
    decreases |bars| - i
  {
    if i == |bars| || !OnGrid(start, interval, bars[i].time) || (i > 0 && bars[i].time <= bars[i - 1].time) then i
    else UsableFrom(bars, interval, start, i + 1)
  }

  function Usable(bars: seq<MarketBar>, interval: nat, start: nat): (u: nat)
    requires interval > 0
    ensures u <= |bars|
  {
    UsableFrom(bars, interval, start, 0)
  }

  /** How many of the first `u` bars lie before `t`, counted from the end. */
  function Before(bars: seq<MarketBar>, u: nat, t: nat): (i: nat)
    requires u <= |bars|
    ensures i <= u
  {
    if u == 0 then 0 else if bars[u - 1].time < t then u else Before(bars, u - 1, t)
  }

  /**
   The bar for grid time `t`: the input bar of that time, or a flat bar at the close of
   the latest earlier one (of the first, when there is none).
   */
  function GridBar(bars: seq<MarketBar>, u: nat, t: nat): MarketBar
    requires bars != [] && u <= |bars|
  {
    var i := Before(bars, u, t);
    if i < u && bars[i].time == t then bars[i]
    else
      var latest := bars[if i > 0 then i - 1 else 0];
      Flat(t, latest.close, latest.spread)
  }

  lemma {:induction false} UsableLaw(bars: seq<MarketBar>, interval: nat, start: nat, i: nat)
    requires interval > 0 && i <= |bars|
    ensures
      var u := UsableFrom(bars, interval, start, i);
      && (forall k :: i <= k < u ==> OnGrid(start, interval, bars[k].time))
      && (forall k :: i <= k < u && k > 0 ==> bars[k].time > bars[k - 1].time)
      && (u < |bars| ==> !OnGrid(start, interval, bars[u].time) || (u > 0 && bars[u].time <= bars[u - 1].time))
    decreases |bars| - i
  {
    if i < |bars| { UsableLaw(bars, interval, start, i + 1); }
  }

  lemma {:induction false} BeforeIs(bars: seq<MarketBar>, u: nat, t: nat, i: nat)
    requires i <= u <= |bars|
    requires i > 0 ==> bars[i - 1].time < t
    requires forall k :: i <= k < u ==> bars[k].time >= t
    ensures Before(bars, u, t) == i
  {
    if u > i { BeforeIs(bars, u - 1, t, i); }
  }

  /** The state of the copying loop: `index` usable bars lie before `t`, the next one at or after it. */
  ghost predicate LoopState(bars: seq<MarketBar>, interval: nat, start: nat, u: nat, index: nat, t: nat)
    requires interval > 0
  {
    && index <= u <= |bars| && bars != [] && OnGrid(start, interval, t)
    && (forall k :: 0 <= k < u ==> OnGrid(start, interval, bars[k].time))
    && (forall k :: 0 < k < u ==> bars[k].time > bars[k - 1].time)
    && (u < |bars| ==> !OnGrid(start, interval, bars[u].time) || (u > 0 && bars[u].time <= bars[u - 1].time))
    && (index > 0 ==> bars[index - 1].time < t)
    && (index < u ==> bars[index].time >= t)
  }

  lemma {:induction false} Increasing(bars: seq<MarketBar>, u: nat, i: nat, j: nat)
    requires u <= |bars| && forall k :: 0 < k < u ==> bars[k].time > bars[k - 1].time
    requires i <= j < u
    ensures bars[i].time <= bars[j].time
    decreases j
  {
    if i < j { Increasing(bars, u, i, j - 1); }
  }

  lemma StateGivesBar(bars: seq<MarketBar>, interval: nat, start: nat, u: nat, index: nat, t: nat)
    requires interval > 0 && LoopState(bars, interval, start, u, index, t)
    ensures Before(bars, u, t) == index
    ensures GridBar(bars, u, t) ==
            if index < |bars| && bars[index].time == t then bars[index]
            else Flat(t, bars[if index > 0 then index - 1 else 0].close,
                bars[if index > 0 then index - 1 else 0].spread)
    ensures
      var met := index < |bars| && bars[index].time == t;
      LoopState(bars, interval, start, u, if met then index + 1 else index, t + interval)
  {
    forall k | index <= k < u ensures bars[k].time >= t { Increasing(bars, u, index, k); }
    BeforeIs(bars, u, t, index);
    GridStep(start, interval, t, t);
    if index < u { GridStep(start, interval, t, bars[index].time); }
    if index + 1 < u { GridStep(start, interval, t, bars[index + 1].time); }
  }

  lemma {:induction false} CopiedIsGrid(bars: seq<MarketBar>, interval: nat, start: nat, u: nat, index: nat, t: nat,
      end: nat)
    requires interval > 0 && LoopState(bars, interval, start, u, index, t)
    ensures
      var out := Copied(bars[index..], bars[if index > 0 then index - 1 else 0], interval, t, end);
      && (forall j :: 0 <= j < |out| ==> t + j * interval < end && out[j] == GridBar(bars, u, t + j * interval))
      && t + |out| * interval >= end
    decreases if t < end then end - t else 0
  {
    hide LoopState, GridBar, Flat;
    if t < end {
      StateGivesBar(bars, interval, start, u, index, t);
      assert index <= |bars| by { StateBounds(bars, interval, start, u, index, t); }
      var rest := bars[index..];
      var met := index < |bars| && bars[index].time == t;
      var next := if met then index + 1 else index;
      CopiedIsGrid(bars, interval, start, u, next, t + interval, end);
      assert met ==> rest[0] == bars[index] && rest[1..] == bars[index + 1..];
      var tail := Copied(bars[next..], bars[if next > 0 then next - 1 else 0], interval, t + interval, end);
      var out := [GridBar(bars, u, t)] + tail;
      assert out == Copied(rest, bars[if index > 0 then index - 1 else 0], interval, t, end);
      ShiftGrid(bars, u, interval, t, end, tail, out);
    }
  }

  lemma StateBounds(bars: seq<MarketBar>, interval: nat, start: nat, u: nat, index: nat, t: nat)
    requires interval > 0 && LoopState(bars, interval, start, u, index, t)
    ensures index <= |bars|
  {
  }

  lemma ShiftGrid(bars: seq<MarketBar>, u: nat, interval: nat, t: nat, end: nat, tail: seq<MarketBar>,
      out: seq<MarketBar>)
    requires bars != [] && u <= |bars| && t < end && out == [GridBar(bars, u, t)] + tail
    requires forall j :: 0 <= j < |tail| ==>
             t + interval + j * interval < end && tail[j] == GridBar(bars, u, t + interval + j * interval)
    requires t + interval + |tail| * interval >= end
    ensures forall j :: 0 <= j < |out| ==> t + j * interval < end && out[j] == GridBar(bars, u, t + j * interval)
    ensures t + |out| * interval >= end
  {
    hide GridBar;
    assert |out| * interval == |tail| * interval + interval;
    forall j | 0 <= j < |out| ensures t + j * interval < end && out[j] == GridBar(bars, u, t + j * interval) {
      if j == 0 {
        assert j * interval == 0;
      } else {
        assert out[j] == tail[j - 1];
        assert interval + (j - 1) * interval == j * interval;
      }
    }
  }

  /** Bar `b` is what the first `u` bars give for time `t`: the bar of that time, or a filler. */
  ghost predicate FitsGrid(bars: seq<MarketBar>, u: nat, t: nat, b: MarketBar)
    requires bars != [] && u <= |bars|
  {
    && (forall i :: 0 <= i < u && bars[i].time == t ==> b == bars[i])
    && ((forall i :: 0 <= i < u ==> bars[i].time != t) ==>
        && (forall i :: 0 <= i < u && bars[i].time < t && (i + 1 == u || bars[i + 1].time > t) ==>
              IsFiller(b, t, bars[i].close, bars[i].spread))
        && (u == 0 || bars[0].time > t ==> IsFiller(b, t, bars[0].close, bars[0].spread)))
  }

  lemma GridBarFits(bars: seq<MarketBar>, u: nat, t: nat)
    requires bars != [] && u <= |bars| && forall k :: 0 < k < u ==> bars[k].time > bars[k - 1].time
    ensures FitsGrid(bars, u, t, GridBar(bars, u, t))
  {
    hide Flat, IsFiller, Before, GridBar;
    forall i | 0 <= i < u && bars[i].time == t ensures GridBar(bars, u, t) == bars[i] {
      BarsFrom(bars, u, i);
      GridBarAfter(bars, u, t, i);
    }
    if forall i :: 0 <= i < u ==> bars[i].time != t {
      forall i | 0 <= i < u && bars[i].time < t && (i + 1 == u || bars[i + 1].time > t)
        ensures IsFiller(GridBar(bars, u, t), t, bars[i].close, bars[i].spread)
      {
        if i + 1 < u { BarsFrom(bars, u, i + 1); }
        GridBarAfter(bars, u, t, i + 1);
      }
      if u == 0 || bars[0].time > t {
        if u > 0 { BarsFrom(bars, u, 0); }
        GridBarAfter(bars, u, t, 0);
        assert IsFiller(GridBar(bars, u, t), t, bars[0].close, bars[0].spread);
      }
    }
  }

  /** When the first `i` bars lie before `t` and the others do not, bar `i` is used if it has that time. */
  lemma GridBarAfter(bars: seq<MarketBar>, u: nat, t: nat, i: nat)
    requires bars != [] && i <= u <= |bars|
    requires i > 0 ==> bars[i - 1].time < t
    requires forall k :: i <= k < u ==> bars[k].time >= t
    ensures i < u && bars[i].time == t ==> GridBar(bars, u, t) == bars[i]
    ensures i == u || bars[i].time != t ==>
              var latest := bars[if i > 0 then i - 1 else 0];
              IsFiller(GridBar(bars, u, t), t, latest.close, latest.spread)
  {
    hide Flat, IsFiller, Before;
    BeforeIs(bars, u, t, i);
    var latest := bars[if i > 0 then i - 1 else 0];
    FlatIsFiller(t, latest.close, latest.spread);
  }

  lemma BarsFrom(bars: seq<MarketBar>, u: nat, i: nat)
    requires u <= |bars| && i < u && forall k :: 0 < k < u ==> bars[k].time > bars[k - 1].time
    ensures forall k :: i <= k < u ==> bars[k].time >= bars[i].time
  {
    forall k | i <= k < u ensures bars[k].time >= bars[i].time { Increasing(bars, u, i, k); }
  }

  lemma FilledCopyIsGrid(bars: seq<MarketBar>, interval: nat, start: nat, end: nat)
    requires interval > 0 && bars != []
    ensures
      var out, u := FilledCopy(bars, interval, start, end), Usable(bars, interval, start);
      && (forall j :: 0 <= j < |out| ==> start + j * interval < end && out[j] == GridBar(bars, u, start + j * interval))
      && start + |out| * interval >= end
  {
    UsableLaw(bars, interval, start, 0);
    MultipleIsStart(interval, 0);
    CopiedIsGrid(bars, interval, start, Usable(bars, interval, start), 0, start, end);
    assert bars[0..] == bars;
  }

  /**
   The filled copy has exactly one bar for each grid time of [start, end): the input
   bar of that time, or a bar without trades at the close and the spread of the latest
   earlier one, or of the first when there is none. All input bars take part when
   they are on the grid, at or after the start and strictly increasing; otherwise
   only those before the first that is not.
   */
  lemma FilledCopyLaw(bars: seq<MarketBar>, interval: nat, start: nat, end: nat)
    requires interval > 0 && bars != []
    ensures
      var out, u := FilledCopy(bars, interval, start, end), Usable(bars, interval, start);
      && (forall j :: 0 <= j < |out| ==>
            start + j * interval < end && FitsGrid(bars, u, start + j * interval, out[j]))
      && start + |out| * interval >= end
  {
    hide FitsGrid, GridBar, Copied;
    var u := Usable(bars, interval, start);
    UsableLaw(bars, interval, start, 0);
    FilledCopyIsGrid(bars, interval, start, end);
    var out := FilledCopy(bars, interval, start, end);
    forall j | 0 <= j < |out| ensures FitsGrid(bars, u, start + j * interval, out[j]) {
      GridBarFits(bars, u, start + j * interval);
    }
  }

  ghost predicate Aligned(bars: seq<MarketBar>, interval: nat, start: nat)
    requires interval > 0
  {
    && (forall k :: 0 <= k < |bars| ==> OnGrid(start, interval, bars[k].time))
    && (forall k :: 0 < k < |bars| ==> bars[k].time > bars[k - 1].time)
  }

  lemma AlignedIsUsable(bars: seq<MarketBar>, interval: nat, start: nat)
    requires interval > 0
    ensures Aligned(bars, interval, start) <==> Usable(bars, interval, start) == |bars|
  {
    UsableLaw(bars, interval, start, 0);
  }

  // ---------------------------------------------------------------------------
  // The in-place form
  // ---------------------------------------------------------------------------

  /** Flat bars at `from`, one interval later, and so on before `until`. */
  function Flats(from: nat, until: nat, interval: nat, price: int, spread: nat): seq<MarketBar>
    requires interval > 0
    decreases if from < until then until - from else 0
  {
    if from >= until then [] else [Flat(from, price, spread)] + Flats(from + interval, until, interval, price, spread)
  }

  /** Every gap between neighbours filled at the close of the earlier one. */
  function GapsFilled(bars: seq<MarketBar>, interval: nat): seq<MarketBar>
    requires interval > 0
    decreases |bars|
  {
    if |bars| < 2 then bars
    else [bars[0]] + Flats(bars[0].time + interval, bars[1].time, interval, bars[0].close, bars[0].spread)
         + GapsFilled(bars[1..], interval)
  }

  function FilledInPlace(bars: seq<MarketBar>, interval: nat, start: nat, end: nat): seq<MarketBar>
    requires interval > 0
  {
    if bars == [] then []
    else
      var first := bars[0];
      var inner := GapsFilled(Flats(start, first.time, interval, first.open, first.spread) + bars, interval);
      var last := bars[|bars| - 1];
      inner + Flats(last.time + interval, end, interval, last.close, last.spread)
  }

  lemma {:induction false} GapsKeepLast(bars: seq<MarketBar>, interval: nat)
    requires interval > 0 && bars != []
    ensures |GapsFilled(bars, interval)| >= |bars|
    ensures GapsFilled(bars, interval)[|GapsFilled(bars, interval)| - 1] == bars[|bars| - 1]
    decreases |bars|
  {
    if |bars| >= 2 { GapsKeepLast(bars[1..], interval); }
  }

  /** Inserting the next filler in front of the later bar leaves the same gaps to fill. */
  lemma OneGapLess(s: seq<MarketBar>, interval: nat)
    requires interval > 0 && |s| >= 2 && s[0].time + interval < s[1].time
    ensures
      var f := Flat(s[0].time + interval, s[0].close, s[0].spread);
      GapsFilled(s, interval) == [s[0]] + GapsFilled([f] + s[1..], interval)
  {
    var f := Flat(s[0].time + interval, s[0].close, s[0].spread);
    var t := [f] + s[1..];
    assert t[1..] == s[1..] && t[1] == s[1] && t[0] == f;
    assert f.close == s[0].close && f.spread == s[0].spread && f.time == s[0].time + interval;
    hide Flat;
    var flats := Flats(f.time + interval, s[1].time, interval, f.close, f.spread);
    assert Flats(f.time, s[1].time, interval, s[0].close, s[0].spread) == [f] + flats by { hide GapsFilled; }
    GapsUnfold(t, interval);
    GapsUnfold(s, interval);
    hide *;
    Sequences.Regroup([f], flats, GapsFilled(s[1..], interval));
    Sequences.Regroup([s[0]], [f] + flats, GapsFilled(s[1..], interval));
  }

  lemma GapsUnfold(s: seq<MarketBar>, interval: nat)
    requires interval > 0 && |s| >= 2
    ensures GapsFilled(s, interval) ==
            [s[0]] + Flats(s[0].time + interval, s[1].time, interval, s[0].close, s[0].spread) +
                GapsFilled(s[1..], interval)
  {
  }

  lemma NoGapHere(s: seq<MarketBar>, interval: nat)
    requires interval > 0 && |s| >= 2 && s[0].time + interval >= s[1].time
    ensures GapsFilled(s, interval) == [s[0]] + GapsFilled(s[1..], interval)
  {
  }

  /** Grows the vector it walks; the last bar is taken by value before the vector grows at its end. */
  method FillMissingInPlace(v: BarVector, interval: nat, start: nat, end: nat)
    requires interval > 0
    modifies v
    ensures v.items == FilledInPlace(old(v.items), interval, start, end)
  {
    hide Flat, GapsFilled;
    if v.items == [] { return; }
    FillBefore(v, interval, start);
    ghost var padded := v.items;
    FillInside(v, interval);
    GapsKeepLast(padded, interval);
    FillAfter(v, interval, end);
  }

  method FillBefore(v: BarVector, interval: nat, start: nat)
    requires interval > 0 && v.items != []
    modifies v
    ensures v.items == Flats(start, old(v.items[0]).time, interval, old(v.items[0]).open, old(v.items[0]).spread) +
            old(v.items)
  {
    hide Flat;
    var missing := [];
    var expected := start;
    var first := v.items[0];
    while expected < first.time
      invariant missing + Flats(expected, first.time, interval, first.open, first.spread)
                == Flats(start, first.time, interval, first.open, first.spread)
      decreases first.time - expected
    {
      missing := missing + [Flat(expected, first.open, first.spread)];
      expected := expected + interval;
    }
    v.items := missing + v.items;
  }

  method FillInside(v: BarVector, interval: nat)
    requires interval > 0 && v.items != []
    modifies v
    ensures v.items == GapsFilled(old(v.items), interval)
  {
    hide Flat, GapsFilled;
    ghost var goal := GapsFilled(v.items, interval);
    var i := 1;
    while i < |v.items|
      invariant 1 <= i <= |v.items|
      invariant v.items[..i - 1] + GapsFilled(v.items[i - 1..], interval) == goal
      decreases |v.items| - i
    {
      var left := |v.items| - i;
      var expected := v.items[i - 1].time + interval;
      while expected < v.items[i].time
        invariant 1 <= i < |v.items| && |v.items| - i == left
        invariant expected == v.items[i - 1].time + interval
        invariant v.items[..i - 1] + GapsFilled(v.items[i - 1..], interval) == goal
        decreases v.items[i].time - expected
      {
        var filler := Flat(expected, v.items[i - 1].close, v.items[i - 1].spread);
        Inserted(v.items, i, filler, interval, goal);
        v.items := v.items[..i] + [filler] + v.items[i..];
        i := i + 1;
        expected := expected + interval;
      }
      Passed(v.items, i, interval, goal);
      i := i + 1;
    }
    LastAlone(v.items, interval);
  }

  lemma Inserted(s: seq<MarketBar>, i: nat, filler: MarketBar, interval: nat, goal: seq<MarketBar>)
    requires interval > 0 && 1 <= i < |s| && s[i - 1].time + interval < s[i].time
    requires filler == Flat(s[i - 1].time + interval, s[i - 1].close, s[i - 1].spread)
    requires s[..i - 1] + GapsFilled(s[i - 1..], interval) == goal
    ensures
      var t := s[..i] + [filler] + s[i..];
      && t[i] == filler && t[i + 1] == s[i] && filler.time == s[i - 1].time + interval
      && t[..i] + GapsFilled(t[i..], interval) == goal
  {
    hide GapsFilled;
    var t := s[..i] + [filler] + s[i..];
    OneGapLess(s[i - 1..], interval);
    assert s[i - 1..][1..] == s[i..];
    assert t[i..] == [filler] + s[i..];
    assert t[..i] == s[..i - 1] + [s[i - 1]];
  }

  lemma Passed(s: seq<MarketBar>, i: nat, interval: nat, goal: seq<MarketBar>)
    requires interval > 0 && 1 <= i < |s| && s[i - 1].time + interval >= s[i].time
    requires s[..i - 1] + GapsFilled(s[i - 1..], interval) == goal
    ensures s[..i] + GapsFilled(s[i..], interval) == goal
  {
    hide GapsFilled;
    NoGapHere(s[i - 1..], interval);
    assert s[i - 1..][1..] == s[i..];
    assert s[..i] == s[..i - 1] + [s[i - 1]];
  }

  lemma LastAlone(s: seq<MarketBar>, interval: nat)
    requires interval > 0 && s != []
    ensures s[..|s| - 1] + GapsFilled(s[|s| - 1..], interval) == s
  {
  }

  method FillAfter(v: BarVector, interval: nat, end: nat)
    requires interval > 0 && v.items != []
    modifies v
    ensures
      var last := old(v.items[|v.items| - 1]);
      v.items == old(v.items) + Flats(last.time + interval, end, interval, last.close, last.spread)
  {
    hide Flat;
    var last := v.items[|v.items| - 1];
    var expected := last.time + interval;
    while expected < end
      invariant v.items + Flats(expected, end, interval, last.close, last.spread)
                == old(v.items) + Flats(last.time + interval, end, interval, last.close, last.spread)
      decreases end - expected
    {
      v.items := v.items + [Flat(expected, last.close, last.spread)];
      expected := expected + interval;
    }
  }

  // ---------------------------------------------------------------------------
  // What the in-place form leaves
  // ---------------------------------------------------------------------------

  /** Fillers before the first bar have no gaps among them, nor before that bar. */
  lemma {:induction false} LeadingFillers(start: nat, bars: seq<MarketBar>, interval: nat, price: int, spread: nat)
    requires interval > 0 && bars != []
    ensures
      var lead := Flats(start, bars[0].time, interval, price, spread);
      GapsFilled(lead + bars, interval) == lead + GapsFilled(bars, interval)
    decreases if start < bars[0].time then bars[0].time - start else 0
  {
    var first := bars[0].time;
    var lead := Flats(start, first, interval, price, spread);
    if start >= first {
      assert lead + bars == bars;
    } else {
      LeadingFillers(start + interval, bars, interval, price, spread);
      var rest := Flats(start + interval, first, interval, price, spread);
      var s := lead + bars;
      assert lead == [Flat(start, price, spread)] + rest;
      assert s[1..] == rest + bars;
      assert s[1].time <= start + interval by { assert s[1] == (rest + bars)[0]; }
      NoGapHere(s, interval);
      hide *;
      Sequences.Regroup([s[0]], rest, GapsFilled(bars, interval));
    }
  }

  /** Fillers at `from` and every interval after it before `until`. */
  ghost predicate AreFillers(f: seq<MarketBar>, from: nat, until: nat, interval: nat, price: int, spread: nat) {
    && (forall j :: 0 <= j < |f| ==>
          from + j * interval < until && IsFiller(f[j], from + j * interval, price, spread))
    && from + |f| * interval >= until
  }

  lemma {:induction false} FlatsAreFillers(from: nat, until: nat, interval: nat, price: int, spread: nat)
    requires interval > 0
    ensures AreFillers(Flats(from, until, interval, price, spread), from, until, interval, price, spread)
    decreases if from < until then until - from else 0
  {
    if from < until {
      hide AreFillers, Flat;
      FlatsAreFillers(from + interval, until, interval, price, spread);
      FlatIsFiller(from, price, spread);
      OneMoreFiller(Flat(from, price, spread), Flats(from + interval, until, interval, price, spread),
                    from, until, interval, price, spread);
    }
  }

  lemma OneMoreFiller(b: MarketBar, rest: seq<MarketBar>, from: nat, until: nat, interval: nat, price: int, spread: nat)
    requires from < until && IsFiller(b, from, price, spread)
    requires AreFillers(rest, from + interval, until, interval, price, spread)
    ensures AreFillers([b] + rest, from, until, interval, price, spread)
  {
    hide IsFiller;
    var f := [b] + rest;
    assert |f| * interval == |rest| * interval + interval;
    forall j | 0 <= j < |f|
      ensures from + j * interval < until && IsFiller(f[j], from + j * interval, price, spread)
    {
      if j == 0 {
        assert j * interval == 0;
      } else {
        assert f[j] == rest[j - 1] && interval + (j - 1) * interval == j * interval;
      }
    }
  }

  /** `out` holds the bars in order, with fillers at the close and the spread of the earlier bar in every gap. */
  ghost predicate Fills(bars: seq<MarketBar>, out: seq<MarketBar>, interval: nat)
    decreases |bars|
  {
    if |bars| < 2 then out == bars
    else
      exists gap, rest ::
        && out == [bars[0]] + gap + rest
        && AreFillers(gap, bars[0].time + interval, bars[1].time, interval, bars[0].close, bars[0].spread)
        && Fills(bars[1..], rest, interval)
  }

  lemma {:induction false} GapsFilledFill(bars: seq<MarketBar>, interval: nat)
    requires interval > 0
    ensures Fills(bars, GapsFilled(bars, interval), interval)
    decreases |bars|
  {
    hide AreFillers, Flats;
    if |bars| >= 2 {
      var gap := Flats(bars[0].time + interval, bars[1].time, interval, bars[0].close, bars[0].spread);
      FlatsAreFillers(bars[0].time + interval, bars[1].time, interval, bars[0].close, bars[0].spread);
      GapsFilledFill(bars[1..], interval);
      assert GapsFilled(bars, interval) == [bars[0]] + gap + GapsFilled(bars[1..], interval);
    }
  }

  /**
   In place, for any bars: fillers at the first open from the start to the first bar,
   the bars with their gaps filled, and fillers at the last close to the end.
   */
  lemma InPlaceLaw(bars: seq<MarketBar>, interval: nat, start: nat, end: nat)
    requires interval > 0 && bars != []
    ensures
      var first, last := bars[0], bars[|bars| - 1];
      exists lead, inner, trail ::
        && FilledInPlace(bars, interval, start, end) == lead + inner + trail
        && AreFillers(lead, start, first.time, interval, first.open, first.spread)
        && Fills(bars, inner, interval)
        && AreFillers(trail, last.time + interval, end, interval, last.close, last.spread)
  {
    hide AreFillers, Fills, Flats, GapsFilled;
    var first, last := bars[0], bars[|bars| - 1];
    LeadingFillers(start, bars, interval, first.open, first.spread);
    FlatsAreFillers(start, first.time, interval, first.open, first.spread);
    GapsFilledFill(bars, interval);
    FlatsAreFillers(last.time + interval, end, interval, last.close, last.spread);
    var lead, inner := Flats(start, first.time, interval, first.open, first.spread), GapsFilled(bars, interval);
    var trail := Flats(last.time + interval, end, interval, last.close, last.spread);
    assert FilledInPlace(bars, interval, start, end) == lead + inner + trail;
  }

  // ---------------------------------------------------------------------------
  // The two forms compared
  // ---------------------------------------------------------------------------

  /** A grid may be counted from any later point of it. */
  lemma MoveOrigin(start: nat, interval: nat, time: nat)
    requires interval > 0 && OnGrid(start, interval, time) && time > start
    ensures time >= start + interval && OnGrid(start + interval, interval, time)
  {
    hide Index, StartOf;
    var k := Index(interval, time - start);
    MultipleIsStart(interval, time - start);
    MultipleIsStart(interval, 0);
    if k == 0 { IndexOfStart(interval, 0); StartsAdd(interval, 0, 0); }
    assert k > 0;
    StartsAdd(interval, k - 1, 1);
    StartsGrow(interval, 0, 1);
    StartsAdd(interval, 0, 0);
    if k - 1 > 0 { StartsGrow(interval, 0, k - 1); }
    IndexOfStart(interval, k - 1);
    MultipleIsStart(interval, time - start - interval);
  }

  /** The copying loop up to the next bar: fillers only. */
  lemma {:induction false} CopyReachesBar(bars: seq<MarketBar>, previous: MarketBar, interval: nat, t: nat, end: nat)
    requires interval > 0 && bars != [] && OnGrid(t, interval, bars[0].time) && bars[0].time < end
    ensures
      Copied(bars, previous, interval, t, end) ==
        Flats(t, bars[0].time, interval, previous.close, previous.spread)
        + Copied(bars, previous, interval, bars[0].time, end)
    decreases bars[0].time - t
  {
    hide Flat;
    if t < bars[0].time {
      MoveOrigin(t, interval, bars[0].time);
      CopyReachesBar(bars, previous, interval, t + interval, end);
      Sequences.Regroup([Flat(t, previous.close, previous.spread)],
              Flats(t + interval, bars[0].time, interval, previous.close, previous.spread),
              Copied(bars, previous, interval, bars[0].time, end));
    }
  }

  lemma {:induction false} CopyAfterLast(previous: MarketBar, interval: nat, t: nat, end: nat)
    requires interval > 0
    ensures Copied([], previous, interval, t, end) == Flats(t, end, interval, previous.close, previous.spread)
    decreases if t < end then end - t else 0
  {
    if t < end { CopyAfterLast(previous, interval, t + interval, end); }
  }

  /** From a bar on, the copy is the filled gaps and the trailing fillers. */
  lemma {:induction false} CopyFromBar(bars: seq<MarketBar>, previous: MarketBar, interval: nat, start: nat, end: nat)
    requires interval > 0 && bars != [] && Aligned(bars, interval, start) && bars[|bars| - 1].time < end
    ensures
      var last := bars[|bars| - 1];
      Copied(bars, previous, interval, bars[0].time, end) ==
        GapsFilled(bars, interval) + Flats(last.time + interval, end, interval, last.close, last.spread)
    decreases |bars|
  {
    hide Flat, Flats;
    Increasing(bars, |bars|, 0, |bars| - 1);
    var first, last := bars[0], bars[|bars| - 1];
    var after := Flats(last.time + interval, end, interval, last.close, last.spread);
    if |bars| == 1 {
      assert bars[1..] == [];
      CopyAfterLast(first, interval, first.time + interval, end);
    } else {
      var rest := bars[1..];
      AlignedRest(bars, interval, start);
      GridStep(start, interval, first.time, rest[0].time);
      MoveOrigin(first.time, interval, rest[0].time);
      Increasing(bars, |bars|, 1, |bars| - 1);
      CopyReachesBar(rest, first, interval, first.time + interval, end);
      CopyFromBar(rest, first, interval, start, end);
      var gap := Flats(first.time + interval, rest[0].time, interval, first.close, first.spread);
      Sequences.Regroup([first] + gap, GapsFilled(rest, interval), after);
      Sequences.Regroup([first], gap, Copied(rest, first, interval, rest[0].time, end));
    }
  }

  lemma AlignedRest(bars: seq<MarketBar>, interval: nat, start: nat)
    requires interval > 0 && |bars| >= 2 && Aligned(bars, interval, start)
    ensures Aligned(bars[1..], interval, start) && bars[1].time > bars[0].time
  {
    var rest := bars[1..];
    forall k | 0 < k < |rest| ensures rest[k].time > rest[k - 1].time {
      assert rest[k] == bars[k + 1] && rest[k - 1] == bars[k];
    }
  }

  lemma AllCopiedBeforeEnd(bars: seq<MarketBar>, interval: nat, start: nat, end: nat)
    requires interval > 0 && bars != [] && Aligned(bars, interval, start)
    ensures forall b :: b in FilledCopy(bars, interval, start, end) ==> b.time < end
  {
    FilledCopyIsGrid(bars, interval, start, end);
    var out := FilledCopy(bars, interval, start, end);
    forall b | b in out ensures b.time < end {
      var j :| 0 <= j < |out| && out[j] == b;
      assert GridBar(bars, Usable(bars, interval, start), start + j * interval).time == start + j * interval;
    }
  }

  /**
   On aligned bars the two forms give the same list exactly when the last bar is
   before the end and nothing is to be filled before the first, or its open is its close.
   */
  lemma FormsAgree(bars: seq<MarketBar>, interval: nat, start: nat, end: nat)
    requires interval > 0 && bars != [] && Aligned(bars, interval, start)
    ensures
      FilledInPlace(bars, interval, start, end) == FilledCopy(bars, interval, start, end)
      <==> bars[|bars| - 1].time < end && (bars[0].time == start || bars[0].open == bars[0].close)
  {
    hide Flat, GapsFilled, Copied, Flats;
    var first, last := bars[0], bars[|bars| - 1];
    LeadingFillers(start, bars, interval, first.open, first.spread);
    GapsKeepLast(bars, interval);
    Increasing(bars, |bars|, 0, |bars| - 1);
    if last.time < end {
      CopyReachesBar(bars, first, interval, start, end);
      CopyFromBar(bars, first, interval, start, end);
      var inner := GapsFilled(bars, interval);
      var after := Flats(last.time + interval, end, interval, last.close, last.spread);
      Sequences.Regroup(Flats(start, first.time, interval, first.open, first.spread), inner, after);
      LeadsDiffer(start, first, interval, inner + after);
    } else {
      AllCopiedBeforeEnd(bars, interval, start, end);
      assert last in GapsFilled(bars, interval);
      assert last in FilledInPlace(bars, interval, start, end);
    }
  }

  /** One bar in the second minute, open 1 and close 2: the fillers of the first minute differ. */
  lemma FormsDisagreeOnOpening()
    ensures
      var bars := [EMPTY_BAR.(time := 60_000, open := 1, high := 2, low := 1, close := 2)];
      && FilledInPlace(bars, 60_000, 0, 120_000) == [Flat(0, 1, 0)] + bars
      && FilledCopy(bars, 60_000, 0, 120_000) == [Flat(0, 2, 0)] + bars
  {
    var bar := EMPTY_BAR.(time := 60_000, open := 1, high := 2, low := 1, close := 2);
    var bars := [bar];
    assert Copied([], bar, 60_000, 120_000, 120_000) == [] && bars[1..] == [];
    assert Copied(bars, bar, 60_000, 60_000, 120_000) == bars;
    assert Flats(60_000, 60_000, 60_000, 1, 0) == [] && Flats(0, 60_000, 60_000, 1, 0) == [Flat(0, 1, 0)];
    var padded := [Flat(0, 1, 0)] + bars;
    assert padded[1..] == bars;
    assert Flats(padded[0].time + 60_000, padded[1].time, 60_000, padded[0].close, padded[0].spread) == [];
    assert GapsFilled(bars, 60_000) == bars;
    assert GapsFilled(padded, 60_000) == padded;
  }

  lemma LeadsDiffer(start: nat, first: MarketBar, interval: nat, s: seq<MarketBar>)
    requires interval > 0 && first.time >= start
    ensures
      Flats(start, first.time, interval, first.open, first.spread) + s ==
          Flats(start, first.time, interval, first.close, first.spread) + s
      <==> first.time == start || first.open == first.close
  {
    var a := Flats(start, first.time, interval, first.open, first.spread) + s;
    var b := Flats(start, first.time, interval, first.close, first.spread) + s;
    if first.time > start && first.open != first.close {
      assert a[0].open == first.open && b[0].open == first.close;
    }
  }
}
