/** Resampling of bars to a longer interval, with the four ways to combine their spreads. */
module Resample {
  import opened Words
  import opened Bars
  import opened Buckets
  import Sequences

  datatype Strategy = LastSpread | MaxSpread | AverageSpread | NoSpread

  /** A bar being built: the averaging form also keeps the sum and the count of its spreads, in 32 bits. */
  datatype Running = Running(bar: MarketBar, sum: nat, count: nat)

  function Max(a: int, b: int): int { if a < b then b else a }

  function Min(a: int, b: int): int { if b < a then b else a }

  function MaxNat(a: nat, b: nat): nat { if a < b then b else a }

  function Begin(strategy: Strategy, bar: MarketBar, bucket: nat): Running {
    Running(bar.(time := bucket, spread := if strategy.LastSpread? || strategy.MaxSpread? then bar.spread else 0),
            if strategy.AverageSpread? then bar.spread else 0, if strategy.AverageSpread? then 1 else 0)
  }

  function Merge(strategy: Strategy, r: Running, bar: MarketBar): Running {
    Running(r.bar.(
            high := Max(r.bar.high, bar.high),
            low := Min(r.bar.low, bar.low),
            close := bar.close,
            volume := r.bar.volume + bar.volume,
            quoteVolume := r.bar.quoteVolume + bar.quoteVolume,
            buyVolume := r.bar.buyVolume + bar.buyVolume,
            buyQuoteVolume := r.bar.buyQuoteVolume + bar.buyQuoteVolume,
            tickVolume := W32.Wrap(r.bar.tickVolume + bar.tickVolume),
            spread := if strategy.LastSpread? then bar.spread
                      else if strategy.MaxSpread? then MaxNat(r.bar.spread, bar.spread)
                      else r.bar.spread),
            if strategy.AverageSpread? then W32.Wrap(r.sum + bar.spread) else 0,
            if strategy.AverageSpread? then W32.Wrap(r.count + 1) else 0)
  }

  function Emit(strategy: Strategy, r: Running): MarketBar {
    if strategy.AverageSpread? then r.bar.(spread := if r.count != 0 then r.sum / r.count else 0) else r.bar
  }

  // ---------------------------------------------------------------------------
  // The loop
  // ---------------------------------------------------------------------------

  /** What the loop still produces: a new bar begins only when a time equals the next boundary. */
  function Walk(strategy: Strategy, target: nat, r: Running, next: nat, s: seq<MarketBar>): (out: seq<MarketBar>)
    ensures out != []
    decreases |s|
  {
    if s == [] then [Emit(strategy, r)]
    else if s[0].time == next then
      [Emit(strategy, r)] + Walk(strategy, target, Begin(strategy, s[0], next), next + target, s[1..])
    else Walk(strategy, target, Merge(strategy, r, s[0]), next, s[1..])
  }

  function Resampled(strategy: Strategy, target: nat, bars: seq<MarketBar>): seq<MarketBar>
    requires target > 0
  {
    if bars == [] then []
    else
      var bucket := StartOf(target, Index(target, bars[0].time));
      Walk(strategy, target, Begin(strategy, bars[0], bucket), bucket + target, bars[1..])
  }

  /** The four resampling functions, which differ in the treatment of the spread only. */
  method ResampleWith(strategy: Strategy, target: nat, bars: seq<MarketBar>) returns (result: seq<MarketBar>)
    requires target > 0 && bars != []
    ensures result == Resampled(strategy, target, bars)
  {
    hide Begin, Merge, Emit;
    result := [];
    var bucket := StartOf(target, Index(target, bars[0].time));
    var next: nat := bucket + target;
    var current := Begin(strategy, bars[0], bucket);
    for i := 1 to |bars|
      invariant result + Walk(strategy, target, current, next, bars[i..]) == Resampled(strategy, target, bars)
    {
      var bar := bars[i];
      assert bars[i..][0] == bar && bars[i..][1..] == bars[i + 1..];
      if bar.time == next {
        Sequences.Regroup(result, [Emit(strategy, current)],
            Walk(strategy, target, Begin(strategy, bar, next), next + target, bars[i + 1..]));
        result := result + [Emit(strategy, current)];
        current := Begin(strategy, bar, next);
        next := next + target;
      } else {
        current := Merge(strategy, current, bar);
      }
    }
    assert bars[|bars|..] == [];
    result := result + [Emit(strategy, current)];
  }

  datatype Outcome = Bars(bars: seq<MarketBar>) | UnsupportedSpreadMode

  datatype SpreadFlags = SpreadFlags(enabled: bool, last: bool, max: bool, average: bool)

  /** Empty input gives empty output before the flags are looked at; no chosen mode is an error. */
  method ResampleBars(flags: SpreadFlags, target: nat, bars: seq<MarketBar>) returns (r: Outcome)
    requires target > 0
    ensures r.UnsupportedSpreadMode? <==> bars != [] && flags.enabled && !flags.last && !flags.max && !flags.average
    ensures r.Bars? && bars == [] ==> r.bars == []
    ensures r.Bars? && bars != [] ==>
              && (!flags.enabled ==> r.bars == Resampled(NoSpread, target, bars))
              && (flags.enabled && flags.last ==> r.bars == Resampled(LastSpread, target, bars))
              && (flags.enabled && !flags.last && flags.max ==> r.bars == Resampled(MaxSpread, target, bars))
              && (flags.enabled && !flags.last && !flags.max ==>
                    flags.average && r.bars == Resampled(AverageSpread, target, bars))
  {
    if bars == [] { return Bars([]); }
    var result;
    if !flags.enabled {
      result := ResampleWith(NoSpread, target, bars);
    } else if flags.last {
      result := ResampleWith(LastSpread, target, bars);
    } else if flags.max {
      result := ResampleWith(MaxSpread, target, bars);
    } else if flags.average {
      result := ResampleWith(AverageSpread, target, bars);
    } else {
      return UnsupportedSpreadMode;
    }
    r := Bars(result);
  }

  // ---------------------------------------------------------------------------
  // Meaning: one bar for each occurring value of floor(time / target)
  // ---------------------------------------------------------------------------

  function ByBucketFrom(strategy: Strategy, target: nat, r: Running, k: nat, s: seq<MarketBar>): (out: seq<MarketBar>)
    requires target > 0
    ensures out != []
    decreases |s|
  {
    if s == [] then [Emit(strategy, r)]
    else
      var j := Index(target, s[0].time);
      if j == k then ByBucketFrom(strategy, target, Merge(strategy, r, s[0]), k, s[1..])
      else [Emit(strategy, r)] + ByBucketFrom(strategy, target, Begin(strategy, s[0], StartOf(target, j)), j, s[1..])
  }

  function ByBucket(strategy: Strategy, target: nat, bars: seq<MarketBar>): seq<MarketBar>
    requires target > 0
  {
    if bars == [] then []
    else
      var k := Index(target, bars[0].time);
      ByBucketFrom(strategy, target, Begin(strategy, bars[0], StartOf(target, k)), k, bars[1..])
  }

  /** From bucket `k` on, no bucket is entered other than the next one, at its very start. */
  ghost predicate ContinuousFrom(target: nat, k: nat, s: seq<MarketBar>)
    requires target > 0
    decreases |s|
  {
    s == []
    || (Index(target, s[0].time) == k && ContinuousFrom(target, k, s[1..]))
    || (s[0].time == StartOf(target, k + 1) && ContinuousFrom(target, k + 1, s[1..]))
  }

  ghost predicate Continuous(target: nat, bars: seq<MarketBar>)
    requires target > 0
  {
    bars != [] ==> ContinuousFrom(target, Index(target, bars[0].time), bars[1..])
  }

  lemma {:induction false} AllBeyond(strategy: Strategy, target: nat, r: Running, next: nat, s: seq<MarketBar>)
    requires forall i :: 0 <= i < |s| ==> s[i].time > next
    ensures |Walk(strategy, target, r, next, s)| == 1
    decreases |s|
  {
    if s != [] { AllBeyond(strategy, target, Merge(strategy, r, s[0]), next, s[1..]); }
  }

  lemma {:induction false} WalkAgainstBuckets(strategy: Strategy, target: nat, r: Running, k: nat, s: seq<MarketBar>)
    requires target > 0 && Sorted(s)
    requires s != [] ==> s[0].time >= StartOf(target, k)
    ensures ContinuousFrom(target, k, s) ==>
              Walk(strategy, target, r, StartOf(target, k + 1), s) == ByBucketFrom(strategy, target, r, k, s)
    ensures !ContinuousFrom(target, k, s) ==>
              |Walk(strategy, target, r, StartOf(target, k + 1), s)| < |ByBucketFrom(strategy, target, r, k, s)|
    decreases |s|
  {
    hide Begin, Merge, Emit, Index, StartOf;
    if s != [] {
      var j := Index(target, s[0].time);
      BucketBounds(target, s[0].time, k);
      BucketBounds(target, s[0].time, k + 1);
      BucketBounds(target, s[0].time, j);
      StartsGrow(target, k, k + 1);
      StartsGrow(target, k + 1, k + 2);
      if j == k {
        WalkAgainstBuckets(strategy, target, Merge(strategy, r, s[0]), k, s[1..]);
      } else if s[0].time == StartOf(target, k + 1) {
        WalkAgainstBuckets(strategy, target, Begin(strategy, s[0], StartOf(target, j)), k + 1, s[1..]);
      } else {
        AllBeyond(strategy, target, r, StartOf(target, k + 1), s);
      }
    }
  }

  /** On sorted bars the loop groups by floor(time / target) exactly when no boundary is jumped over. */
  lemma GroupsByBucket(strategy: Strategy, target: nat, bars: seq<MarketBar>)
    requires target > 0 && Sorted(bars)
    ensures Resampled(strategy, target, bars) == ByBucket(strategy, target, bars) <==> Continuous(target, bars)
  {
    if bars != [] {
      var k := Index(target, bars[0].time);
      hide Index, StartOf;
      BucketBounds(target, bars[0].time, k);
      StartsGrow(target, k, k + 1);
      if |bars| > 1 { assert bars[1..][0].time >= bars[0].time; }
      WalkAgainstBuckets(strategy, target, Begin(strategy, bars[0], StartOf(target, k)), k, bars[1..]);
    }
  }

  // ---------------------------------------------------------------------------
  // Each resampled bar against its own input bars
  // ---------------------------------------------------------------------------

  function Fold(strategy: Strategy, r: Running, s: seq<MarketBar>): Running
    decreases |s|
  {
    if s == [] then r else Fold(strategy, Merge(strategy, r, s[0]), s[1..])
  }

  /** The bar made of one group. */
  function Aggregate(strategy: Strategy, bucket: nat, group: seq<MarketBar>): MarketBar
    requires group != []
  {
    Emit(strategy, Fold(strategy, Begin(strategy, group[0], bucket), group[1..]))
  }

  function Sum(f: MarketBar -> int, s: seq<MarketBar>): int
    decreases |s|
  {
    if s == [] then 0 else f(s[0]) + Sum(f, s[1..])
  }

  ghost predicate IsMaximum(m: int, f: MarketBar -> int, s: seq<MarketBar>) {
    (forall i :: 0 <= i < |s| ==> f(s[i]) <= m) && exists i :: 0 <= i < |s| && f(s[i]) == m
  }

  ghost predicate IsMinimum(m: int, f: MarketBar -> int, s: seq<MarketBar>) {
    (forall i :: 0 <= i < |s| ==> f(s[i]) >= m) && exists i :: 0 <= i < |s| && f(s[i]) == m
  }

  const HIGH: MarketBar -> int := (b: MarketBar) => b.high
  const LOW: MarketBar -> int := (b: MarketBar) => b.low
  const SPREAD: MarketBar -> int := (b: MarketBar) => b.spread
  const VOLUME: MarketBar -> int := (b: MarketBar) => b.volume
  const QUOTE_VOLUME: MarketBar -> int := (b: MarketBar) => b.quoteVolume
  const BUY_VOLUME: MarketBar -> int := (b: MarketBar) => b.buyVolume
  const BUY_QUOTE_VOLUME: MarketBar -> int := (b: MarketBar) => b.buyQuoteVolume
  const TICK_VOLUME: MarketBar -> int := (b: MarketBar) => b.tickVolume

  /** What a group's bar has to be; the mean is of the 32-bit sum by the 32-bit count, rounded down. */
  ghost predicate Summarizes(strategy: Strategy, bar: MarketBar, bucket: nat, group: seq<MarketBar>)
    requires group != []
  {
    && bar.time == bucket
    && bar.open == group[0].open
    && bar.close == group[|group| - 1].close
    && IsMaximum(bar.high, HIGH, group)
    && IsMinimum(bar.low, LOW, group)
    && bar.volume == Sum(VOLUME, group)
    && bar.quoteVolume == Sum(QUOTE_VOLUME, group)
    && bar.buyVolume == Sum(BUY_VOLUME, group)
    && bar.buyQuoteVolume == Sum(BUY_QUOTE_VOLUME, group)
    && bar.tickVolume == W32.Wrap(Sum(TICK_VOLUME, group))
    && match strategy
       case LastSpread => bar.spread == group[|group| - 1].spread
       case MaxSpread => IsMaximum(bar.spread, SPREAD, group)
       case NoSpread => bar.spread == 0
       case AverageSpread =>
         bar.spread ==
         if W32.Wrap(|group|) == 0 then 0 else W32.Wrap(Sum(SPREAD, group)) / W32.Wrap(|group|)
  }

  /** The state of a loop that has read `group`. */
  ghost predicate Holds(strategy: Strategy, r: Running, bucket: nat, group: seq<MarketBar>)
    requires group != []
  {
    && Summarizes(NoSpread, r.bar.(spread := 0), bucket, group)
    && match strategy
       case LastSpread => r.bar.spread == group[|group| - 1].spread
       case MaxSpread => IsMaximum(r.bar.spread, SPREAD, group)
       case NoSpread => r.bar.spread == 0
       case AverageSpread => r.sum == W32.Wrap(Sum(SPREAD, group)) && r.count == W32.Wrap(|group|)
  }

  lemma {:induction false} SumOfAppend(f: MarketBar -> int, s: seq<MarketBar>, b: MarketBar)
    ensures Sum(f, s + [b]) == Sum(f, s) + f(b)
    decreases |s|
  {
    if s == [] {
      assert (s + [b])[1..] == [];
    } else {
      SumOfAppend(f, s[1..], b);
      assert (s + [b])[1..] == s[1..] + [b];
    }
  }

  lemma WrapAdds(x: int, y: int)
    ensures W32.Wrap(W32.Wrap(x) + y) == W32.Wrap(x + y)
  {
    var k := WrapCongruence(W32, x);
    assert W32.Wrap(x + y + k * W32.Modulus()) == W32.Wrap(x + y);
  }

  lemma MaximumOfAppend(m: int, f: MarketBar -> int, s: seq<MarketBar>, b: MarketBar)
    ensures IsMaximum(m, f, s) ==> IsMaximum(Max(m, f(b)), f, s + [b])
    ensures IsMinimum(m, f, s) ==> IsMinimum(Min(m, f(b)), f, s + [b])
  {
    assert (s + [b])[|s|] == b;
    if IsMaximum(m, f, s) {
      var i :| 0 <= i < |s| && f(s[i]) == m;
      assert f((s + [b])[i]) == m;
    }
    if IsMinimum(m, f, s) {
      var i :| 0 <= i < |s| && f(s[i]) == m;
      assert f((s + [b])[i]) == m;
    }
  }

  lemma MergeHolds(strategy: Strategy, r: Running, bucket: nat, group: seq<MarketBar>, bar: MarketBar)
    requires group != [] && Holds(strategy, r, bucket, group)
    ensures Holds(strategy, Merge(strategy, r, bar), bucket, group + [bar])
  {
    hide Sum, IsMaximum, IsMinimum;
    MaximumOfAppend(r.bar.high, HIGH, group, bar);
    MaximumOfAppend(r.bar.low, LOW, group, bar);
    MaximumOfAppend(r.bar.spread, SPREAD, group, bar);
    SumOfAppend(VOLUME, group, bar);
    SumOfAppend(QUOTE_VOLUME, group, bar);
    SumOfAppend(BUY_VOLUME, group, bar);
    SumOfAppend(BUY_QUOTE_VOLUME, group, bar);
    SumOfAppend(TICK_VOLUME, group, bar);
    SumOfAppend(SPREAD, group, bar);
    WrapAdds(Sum(TICK_VOLUME, group), bar.tickVolume);
    WrapAdds(Sum(SPREAD, group), bar.spread);
    WrapAdds(|group|, 1);
  }

  lemma {:induction false} FoldHolds(strategy: Strategy, r: Running, bucket: nat, group: seq<MarketBar>,
      s: seq<MarketBar>)
    requires group != [] && Holds(strategy, r, bucket, group)
    ensures Holds(strategy, Fold(strategy, r, s), bucket, group + s)
    decreases |s|
  {
    hide Holds, Merge;
    if s == [] {
      assert group + s == group;
    } else {
      MergeHolds(strategy, r, bucket, group, s[0]);
      FoldHolds(strategy, Merge(strategy, r, s[0]), bucket, group + [s[0]], s[1..]);
      assert group + [s[0]] + s[1..] == group + s;
    }
  }

  ghost predicate TickVolumesFit(s: seq<MarketBar>) {
    forall i :: 0 <= i < |s| ==> W32.Unsigned(s[i].tickVolume) && W32.Unsigned(s[i].spread)
  }

  lemma BeginHolds(strategy: Strategy, bar: MarketBar, bucket: nat)
    requires TickVolumesFit([bar])
    ensures Holds(strategy, Begin(strategy, bar, bucket), bucket, [bar])
  {
    var one := [bar];
    assert one[0] == bar && one[1..] == [];
    assert HIGH(one[0]) == bar.high && LOW(one[0]) == bar.low && SPREAD(one[0]) == bar.spread;
    WrapSmall(W32, bar.tickVolume);
    WrapSmall(W32, bar.spread);
  }

  /** The bar of a group: first open, last close, extremes, sums, and the spread of the chosen strategy. */
  lemma AggregateLaw(strategy: Strategy, bucket: nat, group: seq<MarketBar>)
    requires group != [] && TickVolumesFit(group)
    ensures Summarizes(strategy, Aggregate(strategy, bucket, group), bucket, group)
  {
    hide IsMaximum, IsMinimum, Sum;
    assert TickVolumesFit([group[0]]);
    BeginHolds(strategy, group[0], bucket);
    FoldHolds(strategy, Begin(strategy, group[0], bucket), bucket, [group[0]], group[1..]);
    assert [group[0]] + group[1..] == group;
  }

  /** Bar `o` is the aggregate of exactly the bars of its bucket. */
  ghost predicate CoversItsBucket(strategy: Strategy, target: nat, o: MarketBar, s: seq<MarketBar>)
    requires target > 0
  {
    var group := InBucket(target, Index(target, o.time), s);
    group != [] && o == Aggregate(strategy, StartOf(target, Index(target, o.time)), group)
  }

  /** Some output bar stands for the bucket of bar `b`. */
  ghost predicate Represented(target: nat, out: seq<MarketBar>, b: MarketBar)
    requires target > 0
  {
    exists j :: 0 <= j < |out| && out[j].time == StartOf(target, Index(target, b.time))
  }

  ghost predicate OneBarPerBucket(strategy: Strategy, target: nat, out: seq<MarketBar>, s: seq<MarketBar>)
    requires target > 0
  {
    && (forall i :: 0 <= i < |out| ==> CoversItsBucket(strategy, target, out[i], s))
    && (forall i, j :: 0 <= i < j < |out| ==> out[i].time < out[j].time)
    && (forall i :: 0 <= i < |s| ==> Represented(target, out, s[i]))
  }

  lemma {:induction false} FoldOfAppend(strategy: Strategy, r: Running, s: seq<MarketBar>, b: MarketBar)
    ensures Fold(strategy, r, s + [b]) == Merge(strategy, Fold(strategy, r, s), b)
    decreases |s|
  {
    hide Merge;
    if s == [] {
      assert (s + [b])[1..] == [];
    } else {
      assert (s + [b])[1..] == s[1..] + [b];
      FoldOfAppend(strategy, Merge(strategy, r, s[0]), s[1..], b);
    }
  }

  lemma {:induction false} FoldKeepsTime(strategy: Strategy, r: Running, s: seq<MarketBar>)
    ensures Fold(strategy, r, s).bar.time == r.bar.time
    decreases |s|
  {
    if s != [] { FoldKeepsTime(strategy, Merge(strategy, r, s[0]), s[1..]); }
  }

  /** A finished group in front of the bars after it. */
  lemma OneMoreBucket(strategy: Strategy, target: nat, o: MarketBar, k: nat, group: seq<MarketBar>, out: seq<MarketBar>,
      s: seq<MarketBar>)
    requires target > 0 && group != [] && AllInBucket(target, k, group)
             && o == Aggregate(strategy, StartOf(target, k), group)
    requires o.time == StartOf(target, k)
    requires forall i :: 0 <= i < |s| ==> Index(target, s[i].time) > k
    requires OneBarPerBucket(strategy, target, out, s)
    requires forall i :: 0 <= i < |out| ==> Index(target, out[i].time) > k && out[i].time > StartOf(target, k)
    ensures OneBarPerBucket(strategy, target, [o] + out, group + s)
  {
    hide Aggregate, Index, StartOf, CoversItsBucket;
    var all, outs := group + s, [o] + out;
    forall i | 0 <= i < |outs| ensures CoversItsBucket(strategy, target, outs[i], all) {
      if i == 0 {
        FirstCovers(strategy, target, o, k, group, s);
      } else {
        assert CoversItsBucket(strategy, target, out[i - 1], s);
        LaterCovers(strategy, target, out[i - 1], k, group, s);
      }
    }
    forall i, j | 0 <= i < j < |outs| ensures outs[i].time < outs[j].time {
      assert outs[j] == out[j - 1];
      assert i > 0 ==> outs[i] == out[i - 1];
    }
    forall i | 0 <= i < |all| ensures Represented(target, outs, all[i]) {
      if i < |group| {
        assert all[i] == group[i];
        assert outs[0].time == StartOf(target, Index(target, group[i].time));
      } else {
        assert all[i] == s[i - |group|] && Represented(target, out, s[i - |group|]);
        StillRepresented(target, o, out, s[i - |group|]);
      }
    }
  }

  lemma StillRepresented(target: nat, o: MarketBar, out: seq<MarketBar>, b: MarketBar)
    requires target > 0 && Represented(target, out, b)
    ensures Represented(target, [o] + out, b)
  {
    hide Index, StartOf;
    var j :| 0 <= j < |out| && out[j].time == StartOf(target, Index(target, b.time));
    assert ([o] + out)[j + 1] == out[j];
  }

  lemma FirstCovers(strategy: Strategy, target: nat, o: MarketBar, k: nat, group: seq<MarketBar>, s: seq<MarketBar>)
    requires target > 0 && group != [] && AllInBucket(target, k, group)
             && o == Aggregate(strategy, StartOf(target, k), group)
    requires o.time == StartOf(target, k)
    requires forall i :: 0 <= i < |s| ==> Index(target, s[i].time) > k
    ensures CoversItsBucket(strategy, target, o, group + s)
  {
    hide Aggregate, Index, StartOf, InBucket;
    IndexOfStart(target, k);
    InBucketOfConcat(target, k, group, s);
    InBucketAllOrNone(target, k, group);
    InBucketAllOrNone(target, k, s);
    assert group + [] == group;
  }

  lemma LaterCovers(strategy: Strategy, target: nat, o: MarketBar, k: nat, group: seq<MarketBar>, s: seq<MarketBar>)
    requires target > 0 && AllInBucket(target, k, group) && Index(target, o.time) > k
    requires CoversItsBucket(strategy, target, o, s)
    ensures CoversItsBucket(strategy, target, o, group + s)
  {
    hide Aggregate, Index, StartOf, InBucket;
    var j := Index(target, o.time);
    InBucketOfConcat(target, j, group, s);
    InBucketAllOrNone(target, j, group);
    assert [] + InBucket(target, j, s) == InBucket(target, j, s);
  }

  lemma {:induction false} BucketsCovered(strategy: Strategy, target: nat, k: nat, group: seq<MarketBar>,
      s: seq<MarketBar>)
    requires target > 0 && group != [] && AllInBucket(target, k, group) && Sorted(s)
    requires s != [] ==> Index(target, s[0].time) >= k
    ensures
      var out := ByBucketFrom(strategy, target,
          Fold(strategy, Begin(strategy, group[0], StartOf(target, k)), group[1..]), k, s);
      && OneBarPerBucket(strategy, target, out, group + s)
      && forall i :: 0 <= i < |out| ==> Index(target, out[i].time) >= k && out[i].time >= StartOf(target, k)
    decreases |s|
  {
    hide Begin, Merge, Emit, Fold, OneBarPerBucket, InBucket, Aggregate, Index, StartOf;
    var r := Fold(strategy, Begin(strategy, group[0], StartOf(target, k)), group[1..]);
    FinishedGroup(strategy, target, k, group);
    if s == [] {
      NothingLeft(strategy, target);
      OneMoreBucket(strategy, target, Emit(strategy, r), k, group, [], []);
      assert [Emit(strategy, r)] + [] == [Emit(strategy, r)];
    } else {
      var j := Index(target, s[0].time);
      if |s| > 1 { IndexGrows(target, s[0].time, s[1].time); }
      if j == k {
        FoldOfAppend(strategy, Begin(strategy, group[0], StartOf(target, k)), group[1..], s[0]);
        assert (group + [s[0]])[1..] == group[1..] + [s[0]];
        BucketsCovered(strategy, target, k, group + [s[0]], s[1..]);
        assert group + [s[0]] + s[1..] == group + s;
      } else {
        BucketsCovered(strategy, target, j, [s[0]], s[1..]);
        FoldOfNone(strategy, Begin(strategy, s[0], StartOf(target, j)));
        assert [s[0]] + s[1..] == s && [s[0]][1..] == [];
        TimesGrow(target, s, k);
        StartsGrow(target, k, j);
        OneMoreBucket(strategy, target, Emit(strategy, r), k, group,
                      ByBucketFrom(strategy, target, Begin(strategy, s[0], StartOf(target, j)), j, s[1..]), s);
      }
    }
  }

  lemma FoldOfNone(strategy: Strategy, r: Running)
    ensures Fold(strategy, r, []) == r
  {
  }

  lemma NothingLeft(strategy: Strategy, target: nat)
    requires target > 0
    ensures OneBarPerBucket(strategy, target, [], [])
  {
  }

  lemma FinishedGroup(strategy: Strategy, target: nat, k: nat, group: seq<MarketBar>)
    requires target > 0 && group != []
    ensures
      var o := Emit(strategy, Fold(strategy, Begin(strategy, group[0], StartOf(target, k)), group[1..]));
      o == Aggregate(strategy, StartOf(target, k), group) && o.time == StartOf(target, k) && Index(target, o.time) == k
  {
    hide Fold, Merge, Index, StartOf;
    FoldKeepsTime(strategy, Begin(strategy, group[0], StartOf(target, k)), group[1..]);
    IndexOfStart(target, k);
  }

  /**
   Sorted bars that jump over no boundary are resampled to one bar per occurring
   bucket, in order, each the aggregate of exactly the input bars of that bucket.
   */
  lemma ResamplingLaw(strategy: Strategy, target: nat, bars: seq<MarketBar>)
    requires target > 0 && Sorted(bars) && Continuous(target, bars)
    ensures OneBarPerBucket(strategy, target, Resampled(strategy, target, bars), bars)
  {
    GroupsByBucket(strategy, target, bars);
    if bars != [] {
      var k := Index(target, bars[0].time);
      if |bars| > 1 { IndexGrows(target, bars[0].time, bars[1].time); }
      BucketsCovered(strategy, target, k, [bars[0]], bars[1..]);
      FoldOfNone(strategy, Begin(strategy, bars[0], StartOf(target, k)));
      assert [bars[0]] + bars[1..] == bars;
    }
  }

  // ---------------------------------------------------------------------------
  // Conservation
  // ---------------------------------------------------------------------------

  ghost predicate SameTotals(r: MarketBar, s: seq<MarketBar>, out: seq<MarketBar>) {
    && Sum(VOLUME, out) == r.volume + Sum(VOLUME, s)
    && Sum(QUOTE_VOLUME, out) == r.quoteVolume + Sum(QUOTE_VOLUME, s)
    && Sum(BUY_VOLUME, out) == r.buyVolume + Sum(BUY_VOLUME, s)
    && Sum(BUY_QUOTE_VOLUME, out) == r.buyQuoteVolume + Sum(BUY_QUOTE_VOLUME, s)
    && W32.Wrap(Sum(TICK_VOLUME, out)) == W32.Wrap(r.tickVolume + Sum(TICK_VOLUME, s))
  }

  lemma TotalsAfterMerge(strategy: Strategy, r: Running, b: MarketBar, s: seq<MarketBar>, out: seq<MarketBar>)
    requires s != [] && b == s[0] && SameTotals(Merge(strategy, r, b).bar, s[1..], out)
    ensures SameTotals(r.bar, s, out)
  {
    WrapAdds(r.bar.tickVolume + b.tickVolume, Sum(TICK_VOLUME, s[1..]));
  }

  lemma TotalsAfterEmit(strategy: Strategy, r: Running, bucket: nat, s: seq<MarketBar>, out: seq<MarketBar>)
    requires s != [] && SameTotals(Begin(strategy, s[0], bucket).bar, s[1..], out)
    ensures SameTotals(r.bar, s, [Emit(strategy, r)] + out)
  {
    var o := Emit(strategy, r);
    var outs := [o] + out;
    assert outs[1..] == out;
    WrapAdds(Sum(TICK_VOLUME, out), o.tickVolume);
    WrapAdds(Sum(TICK_VOLUME, s), o.tickVolume);
  }

  lemma {:induction false} WalkConserves(strategy: Strategy, target: nat, r: Running, next: nat, s: seq<MarketBar>)
    ensures SameTotals(r.bar, s, Walk(strategy, target, r, next, s))
    decreases |s|
  {
    if s == [] {
      var o := Emit(strategy, r);
      assert [o][1..] == [];
    } else {
      hide SameTotals, Begin, Merge, Emit, Sum;
      if s[0].time == next {
        WalkConserves(strategy, target, Begin(strategy, s[0], next), next + target, s[1..]);
        TotalsAfterEmit(strategy, r, next, s,
            Walk(strategy, target, Begin(strategy, s[0], next), next + target, s[1..]));
      } else {
        WalkConserves(strategy, target, Merge(strategy, r, s[0]), next, s[1..]);
        TotalsAfterMerge(strategy, r, s[0], s, Walk(strategy, target, Merge(strategy, r, s[0]), next, s[1..]));
      }
    }
  }

  /** Resampling loses no volume, whatever the times are; tick volumes are conserved modulo 2^32. */
  lemma VolumeIsConserved(strategy: Strategy, target: nat, bars: seq<MarketBar>)
    requires target > 0
    ensures
      var out := Resampled(strategy, target, bars);
      && Sum(VOLUME, out) == Sum(VOLUME, bars)
      && Sum(QUOTE_VOLUME, out) == Sum(QUOTE_VOLUME, bars)
      && Sum(BUY_VOLUME, out) == Sum(BUY_VOLUME, bars)
      && Sum(BUY_QUOTE_VOLUME, out) == Sum(BUY_QUOTE_VOLUME, bars)
      && W32.Wrap(Sum(TICK_VOLUME, out)) == W32.Wrap(Sum(TICK_VOLUME, bars))
  {
    if bars != [] {
      var bucket := StartOf(target, Index(target, bars[0].time));
      WalkConserves(strategy, target, Begin(strategy, bars[0], bucket), bucket + target, bars[1..]);
    }
  }

  // ---------------------------------------------------------------------------
  // Two steps and one
  // ---------------------------------------------------------------------------

  ghost predicate Clear(strategy: Strategy, r: Running) { strategy.NoSpread? ==> r.bar.spread == 0 }

  /** An intermediate bar merges like the bars it is made of. */
  lemma MergeIsAssociative(strategy: Strategy, r: Running, inner: Running, b: MarketBar, bucket: nat, small: nat)
    requires !strategy.AverageSpread? && Clear(strategy, r) && Clear(strategy, inner)
    ensures Merge(strategy, r, Emit(strategy, Merge(strategy, inner, b))) ==
            Merge(strategy, Merge(strategy, r, Emit(strategy, inner)), b)
    ensures Begin(strategy, Emit(strategy, Merge(strategy, inner, b)), bucket) ==
            Merge(strategy, Begin(strategy, Emit(strategy, inner), bucket), b)
    ensures Merge(strategy, r, Emit(strategy, Begin(strategy, b, small))) == Merge(strategy, r, b)
    ensures Begin(strategy, Emit(strategy, Begin(strategy, b, small)), bucket) == Begin(strategy, b, bucket)
  {
    WrapAdds(r.bar.tickVolume + inner.bar.tickVolume, b.tickVolume);
    WrapAdds(inner.bar.tickVolume + b.tickVolume, r.bar.tickVolume);
  }

  /** The coarse grouping of a list that starts with the bar of a finer group in progress. */
  lemma {:induction false} CoarseOverFine(strategy: Strategy, m: nat, q: nat, n: nat, r: Running, k: nat,
      inner: Running, j: nat, s: seq<MarketBar>)
    requires m > 0 && q > 0 && n > 0 && Nested(m, q, n) && !strategy.AverageSpread?
    requires inner.bar.time == StartOf(m, j) && Clear(strategy, r) && Clear(strategy, inner)
    ensures
      var i := Index(q, j);
      ByBucketFrom(strategy, n, r, k, ByBucketFrom(strategy, m, inner, j, s)) ==
        if i == k then ByBucketFrom(strategy, n, Merge(strategy, r, Emit(strategy, inner)), k, s)
        else
          [Emit(strategy, r)]
          + ByBucketFrom(strategy, n, Begin(strategy, Emit(strategy, inner), StartOf(n, i)), i, s)
    decreases |s|, 1
  {
    hide Begin, Merge, Emit, Index, StartOf, Nested, Clear;
    CoarseIndex(strategy, m, q, n, inner, j);
    if s == [] {
      assert ByBucketFrom(strategy, m, inner, j, s)[1..] == [];
    } else if Index(m, s[0].time) == j {
      NestedIndex(m, q, n, s[0].time);
      MergeIsAssociative(strategy, r, inner, s[0], StartOf(n, Index(q, j)), 0);
      MergeKeeps(strategy, inner, s[0]);
      CoarseOverFine(strategy, m, q, n, r, k, Merge(strategy, inner, s[0]), j, s[1..]);
    } else {
      NewFineGroup(strategy, m, q, n, r, k, inner, j, s);
    }
  }

  lemma CoarseIndex(strategy: Strategy, m: nat, q: nat, n: nat, inner: Running, j: nat)
    requires m > 0 && q > 0 && n > 0 && Nested(m, q, n)
    requires inner.bar.time == StartOf(m, j)
    ensures Index(n, Emit(strategy, inner).time) == Index(q, j)
  {
    hide Index, StartOf;
    IndexOfStart(m, j);
    NestedIndex(m, q, n, StartOf(m, j));
  }

  lemma MergeKeeps(strategy: Strategy, r: Running, b: MarketBar)
    requires Clear(strategy, r)
    ensures Clear(strategy, Merge(strategy, r, b)) && Merge(strategy, r, b).bar.time == r.bar.time
  {
  }

  lemma BeginKeeps(strategy: Strategy, b: MarketBar, bucket: nat)
    ensures Clear(strategy, Begin(strategy, b, bucket)) && Begin(strategy, b, bucket).bar.time == bucket
  {
  }

  /** The case of the step where the next bar opens another fine group. */
  lemma {:induction false} NewFineGroup(strategy: Strategy, m: nat, q: nat, n: nat, r: Running, k: nat, inner: Running,
      j: nat, s: seq<MarketBar>)
    requires m > 0 && q > 0 && n > 0 && Nested(m, q, n) && !strategy.AverageSpread?
    requires inner.bar.time == StartOf(m, j) && Clear(strategy, r) && Clear(strategy, inner)
    requires s != [] && Index(m, s[0].time) != j
    ensures
      var i := Index(q, j);
      ByBucketFrom(strategy, n, r, k, ByBucketFrom(strategy, m, inner, j, s)) ==
        if i == k then ByBucketFrom(strategy, n, Merge(strategy, r, Emit(strategy, inner)), k, s)
        else
          [Emit(strategy, r)]
          + ByBucketFrom(strategy, n, Begin(strategy, Emit(strategy, inner), StartOf(n, i)), i, s)
    decreases |s|, 0
  {
    hide Begin, Merge, Emit, Index, StartOf, Nested, Clear;
    var i := Index(q, j);
    var o := Emit(strategy, inner);
    var f := Index(m, s[0].time);
    var next := Begin(strategy, s[0], StartOf(m, f));
    var rest := ByBucketFrom(strategy, m, next, f, s[1..]);
    var fine := ByBucketFrom(strategy, m, inner, j, s);
    assert fine == [o] + rest && fine[1..] == rest;
    CoarseIndex(strategy, m, q, n, inner, j);
    NestedIndex(m, q, n, s[0].time);
    BeginKeeps(strategy, s[0], StartOf(m, f));
    var after := if i == k then Merge(strategy, r, o) else Begin(strategy, o, StartOf(n, i));
    MergeKeeps(strategy, r, o);
    BeginKeeps(strategy, o, StartOf(n, i));
    MergeIsAssociative(strategy, after, inner, s[0], StartOf(n, Index(q, f)), StartOf(m, f));
    CoarseOverFine(strategy, m, q, n, after, i, next, f, s[1..]);
  }

  /** Grouping by `m` first does not change the groups of a multiple of `m`. */
  lemma GroupTwice(strategy: Strategy, m: nat, q: nat, n: nat, bars: seq<MarketBar>)
    requires m > 0 && q > 0 && n > 0 && Nested(m, q, n) && !strategy.AverageSpread?
    ensures ByBucket(strategy, n, ByBucket(strategy, m, bars)) == ByBucket(strategy, n, bars)
  {
    hide Begin, Merge, Emit, Index, StartOf, Nested, Clear, ByBucketFrom;
    if bars != [] {
      var j := Index(m, bars[0].time);
      var inner := Begin(strategy, bars[0], StartOf(m, j));
      BeginKeeps(strategy, bars[0], StartOf(m, j));
      NestedIndex(m, q, n, bars[0].time);
      FirstFineBar(strategy, m, inner, j, bars[1..]);
      CoarseOverFineStart(strategy, m, q, n, inner, j, bars[1..]);
      MergeIsAssociative(strategy, inner, inner, bars[0], StartOf(n, Index(q, j)), StartOf(m, j));
    }
  }

  lemma {:induction false} FirstFineBar(strategy: Strategy, m: nat, inner: Running, j: nat, s: seq<MarketBar>)
    requires m > 0
    ensures ByBucketFrom(strategy, m, inner, j, s)[0].time == inner.bar.time
    decreases |s|
  {
    if s != [] { FirstFineBar(strategy, m, Merge(strategy, inner, s[0]), j, s[1..]); }
  }

  /** The same without a coarse group in progress: drop the one that `CoarseOverFine` emits first. */
  lemma CoarseOverFineStart(strategy: Strategy, m: nat, q: nat, n: nat, inner: Running, j: nat, s: seq<MarketBar>)
    requires m > 0 && q > 0 && n > 0 && Nested(m, q, n) && !strategy.AverageSpread?
    requires inner.bar.time == StartOf(m, j) && Clear(strategy, inner)
    ensures
      var i := Index(q, j);
      ByBucket(strategy, n, ByBucketFrom(strategy, m, inner, j, s)) ==
        ByBucketFrom(strategy, n, Begin(strategy, Emit(strategy, inner), StartOf(n, i)), i, s)
  {
    hide Begin, Merge, Emit, Index, StartOf, Nested;
    var i := Index(q, j);
    var fine := ByBucketFrom(strategy, m, inner, j, s);
    CoarseOverFine(strategy, m, q, n, inner, i + 1, inner, j, s);
    FirstFineBar(strategy, m, inner, j, s);
    IndexOfStart(m, j);
    NestedIndex(m, q, n, StartOf(m, j));
    var first := [Emit(strategy, inner)];
    var left := ByBucket(strategy, n, fine);
    var right := ByBucketFrom(strategy, n, Begin(strategy, Emit(strategy, inner), StartOf(n, i)), i, s);
    assert first + left == first + right;
    assert (first + left)[1..] == left && (first + right)[1..] == right;
  }

  /** A run without jumps over fine boundaries jumps over no coarse one. */
  lemma {:induction false} ContinuousCoarser(m: nat, q: nat, n: nat, j: nat, s: seq<MarketBar>)
    requires m > 0 && q > 0 && n > 0 && Nested(m, q, n)
    requires ContinuousFrom(m, j, s)
    ensures ContinuousFrom(n, Index(q, j), s)
    decreases |s|
  {
    hide Index, StartOf, Nested;
    if s != [] {
      NestedIndex(m, q, n, s[0].time);
      IndexOfStart(m, j + 1);
      if Index(m, s[0].time) == j {
        ContinuousCoarser(m, q, n, j, s[1..]);
      } else {
        ContinuousCoarser(m, q, n, j + 1, s[1..]);
        NextIndex(m, q, n, j);
      }
    }
  }

  /** Grouping keeps continuity: consecutive groups have consecutive buckets. */
  lemma {:induction false} GroupsAreContinuous(strategy: Strategy, m: nat, inner: Running, j: nat, s: seq<MarketBar>)
    requires m > 0 && inner.bar.time == StartOf(m, j) && ContinuousFrom(m, j, s)
    ensures
      var out := ByBucketFrom(strategy, m, inner, j, s);
      out[0].time == StartOf(m, j) && ContinuousFrom(m, j, out[1..])
    decreases |s|
  {
    hide Index, StartOf;
    IndexOfStart(m, j + 1);
    if s == [] {
    } else if Index(m, s[0].time) == j {
      GroupsAreContinuous(strategy, m, Merge(strategy, inner, s[0]), j, s[1..]);
    } else {
      var next := Begin(strategy, s[0], StartOf(m, j + 1));
      GroupsAreContinuous(strategy, m, next, j + 1, s[1..]);
      var rest := ByBucketFrom(strategy, m, next, j + 1, s[1..]);
      assert ([Emit(strategy, inner)] + rest)[1..] == rest;
    }
  }

  /** Resampled bars can be resampled again: they are sorted and meet every boundary of the longer interval. */
  lemma FineBarsContinue(strategy: Strategy, m: nat, q: nat, n: nat, bars: seq<MarketBar>)
    requires m > 0 && q > 0 && n > 0 && Nested(m, q, n)
    requires Sorted(bars) && Continuous(m, bars)
    ensures Continuous(n, bars)
    ensures Resampled(strategy, m, bars) == ByBucket(strategy, m, bars)
    ensures Sorted(Resampled(strategy, m, bars)) && Continuous(n, Resampled(strategy, m, bars))
  {
    hide Index, StartOf, Begin, Merge, Emit, Nested, Walk, ByBucketFrom, InBucket, ContinuousFrom, CoversItsBucket;
    GroupsByBucket(strategy, m, bars);
    ResamplingLaw(strategy, m, bars);
    if bars != [] {
      var j := Index(m, bars[0].time);
      var inner := Begin(strategy, bars[0], StartOf(m, j));
      BeginKeeps(strategy, bars[0], StartOf(m, j));
      NestedIndex(m, q, n, bars[0].time);
      ContinuousCoarser(m, q, n, j, bars[1..]);
      var fine := ByBucket(strategy, m, bars);
      GroupsAreContinuous(strategy, m, inner, j, bars[1..]);
      ContinuousCoarser(m, q, n, j, fine[1..]);
      IndexOfStart(m, j);
      NestedIndex(m, q, n, StartOf(m, j));
    }
  }

  /**
   Resampling to `m` and then to a multiple of `m` gives the bars of resampling to
   the multiple at once, for the last, max and no-spread forms.
   */
  lemma TwoStepsAreOne(strategy: Strategy, m: nat, q: nat, n: nat, bars: seq<MarketBar>)
    requires m > 0 && q > 0 && n > 0 && Nested(m, q, n) && !strategy.AverageSpread?
    requires Sorted(bars) && Continuous(m, bars)
    ensures Resampled(strategy, n, Resampled(strategy, m, bars)) == Resampled(strategy, n, bars)
  {
    hide Nested, Resampled, ByBucket, Continuous;
    FineBarsContinue(strategy, m, q, n, bars);
    GroupTwice(strategy, m, q, n, bars);
    GroupsByBucket(strategy, n, bars);
    GroupsByBucket(strategy, n, Resampled(strategy, m, bars));
  }

  /** Bars one step apart, starting on the step's grid. */
  ghost predicate Gapless(step: nat, bars: seq<MarketBar>) {
    && step > 0
    && (bars != [] ==> bars[0].time % step == 0)
    && forall i :: 0 <= i < |bars| ==> bars[i].time == bars[0].time + StartOf(step, i)
  }

  lemma {:induction false} GaplessFrom(step: nat, c: nat, target: nat, first: nat, bars: seq<MarketBar>, i: nat)
    requires step > 0 && c > 0 && target > 0 && Nested(step, c, target)
    requires forall k :: 0 <= k < |bars| ==> bars[k].time == StartOf(step, first + k)
    requires 0 < i <= |bars|
    ensures ContinuousFrom(target, Index(target, StartOf(step, first + i - 1)), bars[i..])
    decreases |bars| - i
  {
    hide Index, StartOf, Nested;
    var j := first + i - 1;
    NestedIndex(step, c, target, StartOf(step, j));
    NestedIndex(step, c, target, StartOf(step, j + 1));
    IndexOfStart(step, j);
    IndexOfStart(step, j + 1);
    NextIndex(step, c, target, j);
    if i < |bars| {
      GaplessFrom(step, c, target, first, bars, i + 1);
      assert bars[i..][1..] == bars[i + 1..] && bars[i..][0] == bars[i];
    }
  }

  /** Gapless bars count the steps of the time axis from the first one's on. */
  lemma GaplessTimes(step: nat, bars: seq<MarketBar>) returns (first: nat)
    requires step > 0 && Gapless(step, bars) && bars != []
    ensures forall k :: 0 <= k < |bars| ==> bars[k].time == StartOf(step, first + k)
  {
    first := Index(step, bars[0].time);
    MultipleIsStart(step, bars[0].time);
    hide StartOf, Index;
    forall k | 0 <= k < |bars| ensures bars[k].time == StartOf(step, first + k) { StartsAdd(step, first, k); }
  }

  /** Gapless bars are sorted and meet every boundary of every multiple of their step. */
  lemma GaplessIsContinuous(step: nat, c: nat, target: nat, bars: seq<MarketBar>)
    requires step > 0 && c > 0 && target > 0 && Nested(step, c, target) && Gapless(step, bars)
    ensures Sorted(bars) && Continuous(target, bars)
  {
    if bars != [] {
      var first := GaplessTimes(step, bars);
      SortedSteps(step, first, bars);
      GaplessFrom(step, c, target, first, bars, 1);
    }
  }

  lemma SortedSteps(step: nat, first: nat, bars: seq<MarketBar>)
    requires forall k :: 0 <= k < |bars| ==> bars[k].time == StartOf(step, first + k)
    ensures Sorted(bars)
  {
    hide StartOf;
    forall i, j | 0 <= i < j < |bars| ensures bars[i].time <= bars[j].time { StartsGrow(step, first + i, first + j); }
  }

  /** The documented use: gapless bars, a step that divides the first interval, which divides the second. */
  lemma TwoStepResampling(strategy: Strategy, step: nat, c: nat, q: nat, bars: seq<MarketBar>)
    requires step > 0 && c > 0 && q > 0 && Gapless(step, bars) && !strategy.AverageSpread?
    ensures step * c > 0 && step * c * q > 0
    ensures Resampled(strategy, step * c * q, Resampled(strategy, step * c, bars)) ==
            Resampled(strategy, step * c * q, bars)
  {
    var m := step * c;
    assert m > 0;
    var n := m * q;
    assert n > 0;
    GaplessIsContinuous(step, c, m, bars);
    TwoStepsAreOne(strategy, m, q, n, bars);
  }
}
