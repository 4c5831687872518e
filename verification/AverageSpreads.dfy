/** What averaging spreads in two resampling steps has to do with averaging them in one. */
module AverageSpreads {
  import opened Words
  import opened Bars
  import opened Buckets
  import opened Resample
  import opened BarSegments

  // ---------------------------------------------------------------------------
  // Everything but the spread
  // ---------------------------------------------------------------------------

  function WithoutSpread(bar: MarketBar): MarketBar { bar.(spread := 0) }

  function WithoutSpreads(s: seq<MarketBar>): (r: seq<MarketBar>)
    ensures |r| == |s| && forall i :: 0 <= i < |s| ==> r[i] == WithoutSpread(s[i])
    decreases |s|
  {
    if s == [] then [] else [WithoutSpread(s[0])] + WithoutSpreads(s[1..])
  }

  /** The state of the no-spread form that goes with a state of any other form. */
  function Plain(r: Running): Running { Running(WithoutSpread(r.bar), 0, 0) }

  lemma PlainSteps(strategy: Strategy, r: Running, bar: MarketBar, bucket: nat)
    ensures Plain(Begin(strategy, bar, bucket)) == Begin(NoSpread, bar, bucket) ==
            Begin(NoSpread, WithoutSpread(bar), bucket)
    ensures Plain(Merge(strategy, r, bar)) == Merge(NoSpread, Plain(r), bar) ==
            Merge(NoSpread, Plain(r), WithoutSpread(bar))
    ensures WithoutSpread(Emit(strategy, r)) == Emit(NoSpread, Plain(r))
  {
  }

  lemma {:induction false} WalkWithoutSpreads(strategy: Strategy, target: nat, r: Running, next: nat, s: seq<MarketBar>)
    ensures WithoutSpreads(Walk(strategy, target, r, next, s)) == Walk(NoSpread, target, Plain(r), next, s)
    decreases |s|
  {
    hide Begin, Merge, Emit, Plain, WithoutSpread;
    if s == [] {
      PlainSteps(strategy, r, EMPTY_BAR, 0);
    } else {
      PlainSteps(strategy, r, s[0], next);
      if s[0].time == next {
        var rest := Walk(strategy, target, Begin(strategy, s[0], next), next + target, s[1..]);
        WalkWithoutSpreads(strategy, target, Begin(strategy, s[0], next), next + target, s[1..]);
        assert ([Emit(strategy, r)] + rest)[1..] == rest;
      } else {
        WalkWithoutSpreads(strategy, target, Merge(strategy, r, s[0]), next, s[1..]);
      }
    }
  }

  lemma {:induction false} WalkIgnoresSpreads(target: nat, r: Running, next: nat, s: seq<MarketBar>)
    requires r == Plain(r)
    ensures Walk(NoSpread, target, r, next, s) == Walk(NoSpread, target, r, next, WithoutSpreads(s))
    decreases |s|
  {
    hide Begin, Merge, Emit, Plain;
    if s != [] {
      PlainSteps(NoSpread, r, s[0], next);
      assert WithoutSpreads(s)[1..] == WithoutSpreads(s[1..]);
      if s[0].time == next {
        WalkIgnoresSpreads(target, Begin(NoSpread, s[0], next), next + target, s[1..]);
      } else {
        WalkIgnoresSpreads(target, Merge(NoSpread, r, s[0]), next, s[1..]);
      }
    }
  }

  /** Up to the spreads every strategy gives the bars of the no-spread form, which does not look at the spreads. */
  lemma OnlySpreadsDiffer(strategy: Strategy, target: nat, bars: seq<MarketBar>)
    requires target > 0
    ensures WithoutSpreads(Resampled(strategy, target, bars)) == Resampled(NoSpread, target, bars)
    ensures Resampled(NoSpread, target, WithoutSpreads(bars)) == Resampled(NoSpread, target, bars)
  {
    if bars != [] {
      hide Begin, Merge, Emit;
      var bucket := StartOf(target, Index(target, bars[0].time));
      PlainSteps(strategy, Begin(strategy, bars[0], bucket), bars[0], bucket);
      WalkWithoutSpreads(strategy, target, Begin(strategy, bars[0], bucket), bucket + target, bars[1..]);
      PlainSteps(NoSpread, Begin(NoSpread, bars[0], bucket), bars[0], bucket);
      WalkIgnoresSpreads(target, Begin(NoSpread, bars[0], bucket), bucket + target, bars[1..]);
      assert WithoutSpreads(bars)[1..] == WithoutSpreads(bars[1..]);
    }
  }

  /** Under every strategy, averaging included, two steps and one step give the same bars up to their spreads. */
  lemma TwoStepsAgreeUpToSpreads(strategy: Strategy, m: nat, q: nat, n: nat, bars: seq<MarketBar>)
    requires m > 0 && q > 0 && n > 0 && Nested(m, q, n)
    requires Sorted(bars) && Continuous(m, bars)
    ensures WithoutSpreads(Resampled(strategy, n, Resampled(strategy, m, bars))) ==
            WithoutSpreads(Resampled(strategy, n, bars))
  {
    hide Resampled, Nested, Continuous;
    var fine := Resampled(strategy, m, bars);
    OnlySpreadsDiffer(strategy, m, bars);
    OnlySpreadsDiffer(strategy, n, fine);
    OnlySpreadsDiffer(strategy, n, bars);
    TwoStepsAreOne(NoSpread, m, q, n, bars);
  }

  // ---------------------------------------------------------------------------
  // The fine groups of a coarse bucket
  // ---------------------------------------------------------------------------

  /** The fine bars of a coarse bucket are made of the input bars of that bucket alone. */
  lemma {:induction false} FineBarsOfBucket(strategy: Strategy, m: nat, q: nat, n: nat, big: nat, r: Running, j: nat,
      s: seq<MarketBar>)
    requires m > 0 && q > 0 && n > 0 && Nested(m, q, n) && r.bar.time == StartOf(m, j) && Sorted(s)
    requires s != [] ==> Index(m, s[0].time) >= j
    ensures InBucket(n, big, ByBucketFrom(strategy, m, r, j, s)) ==
            if Index(q, j) == big then ByBucketFrom(strategy, m, r, j, InBucket(n, big, s))
            else ByBucket(strategy, m, InBucket(n, big, s))
    decreases |s|
  {
    hide Begin, Merge, Emit, Index, StartOf, Nested;
    CoarseIndex(strategy, m, q, n, r, j);
    if s == [] {
      assert [Emit(strategy, r)][1..] == [];
    } else {
      NestedIndex(m, q, n, s[0].time);
      if |s| > 1 { IndexGrows(m, s[0].time, s[1].time); }
      var rest := InBucket(n, big, s[1..]);
      assert ([s[0]] + rest)[1..] == rest && [] + rest == rest;
      var i := Index(m, s[0].time);
      if i == j {
        MergeKeepsTime(strategy, r, s[0]);
        FineBarsOfBucket(strategy, m, q, n, big, Merge(strategy, r, s[0]), j, s[1..]);
      } else {
        BeginKeeps(strategy, s[0], StartOf(m, i));
        var next := Begin(strategy, s[0], StartOf(m, i));
        FineBarsOfBucket(strategy, m, q, n, big, next, i, s[1..]);
        var later := ByBucketFrom(strategy, m, next, i, s[1..]);
        assert ([Emit(strategy, r)] + later)[1..] == later && [] + InBucket(n, big, later) == InBucket(n, big, later);
        if Index(q, j) == big && Index(q, i) != big { LeftBucket(m, q, n, big, j, i, s); }
      }
    }
  }

  lemma MergeKeepsTime(strategy: Strategy, r: Running, b: MarketBar)
    ensures Merge(strategy, r, b).bar.time == r.bar.time
  {
  }

  /** Sorted bars that have left a coarse bucket do not come back. */
  lemma LeftBucket(m: nat, q: nat, n: nat, big: nat, j: nat, i: nat, s: seq<MarketBar>)
    requires m > 0 && q > 0 && n > 0 && Nested(m, q, n) && Sorted(s) && s != []
    requires i == Index(m, s[0].time) >= j && Index(q, j) == big && Index(q, i) != big
    ensures InBucket(n, big, s) == [] && InBucket(n, big, s[1..]) == []
  {
    hide Index, Nested;
    IndexGrows(q, j, i);
    NestedIndex(m, q, n, s[0].time);
    TimesGrow(n, s, big);
    InBucketAllOrNone(n, big, s);
    assert forall k :: 0 <= k < |s| - 1 ==> s[1..][k] == s[k + 1];
    InBucketAllOrNone(n, big, s[1..]);
  }

  function AggregateEach(strategy: Strategy, m: nat, groups: seq<seq<MarketBar>>): (r: seq<MarketBar>)
    requires m > 0 && forall i :: 0 <= i < |groups| ==> groups[i] != []
    ensures |r| == |groups|
  {
    if groups == [] then []
    else
      [Aggregate(strategy, StartOf(m, SegmentOf(m, groups[0])), groups[0])] + AggregateEach(strategy, m, groups[1..])
  }

  /** Grouping by bucket aggregates the runs of equal bucket. */
  lemma {:induction false} GroupsAreAggregated(strategy: Strategy, m: nat, group: seq<MarketBar>, k: nat,
      s: seq<MarketBar>)
    requires m > 0 && group != [] && Index(m, group[0].time) == k
    ensures
      ByBucketFrom(strategy, m, Fold(strategy, Begin(strategy, group[0], StartOf(m, k)), group[1..]), k, s)
      == AggregateEach(strategy, m, SegmentsFrom(m, group, k, s))
    decreases |s|
  {
    hide Begin, Merge, Emit, Index, StartOf, Fold;
    var r := Fold(strategy, Begin(strategy, group[0], StartOf(m, k)), group[1..]);
    if s == [] {
      assert [group][1..] == [];
    } else if Index(m, s[0].time) == k {
      FoldOfAppend(strategy, Begin(strategy, group[0], StartOf(m, k)), group[1..], s[0]);
      assert (group + [s[0]])[1..] == group[1..] + [s[0]];
      GroupsAreAggregated(strategy, m, group + [s[0]], k, s[1..]);
    } else {
      var j := Index(m, s[0].time);
      GroupsAreAggregated(strategy, m, [s[0]], j, s[1..]);
      FoldOfNone(strategy, Begin(strategy, s[0], StartOf(m, j)));
      var rest := SegmentsFrom(m, [s[0]], j, s[1..]);
      assert ([group] + rest)[1..] == rest && [s[0]][1..] == [];
    }
  }

  lemma BucketsAreAggregated(strategy: Strategy, m: nat, s: seq<MarketBar>)
    requires m > 0
    ensures ByBucket(strategy, m, s) == AggregateEach(strategy, m, Segments(m, s))
  {
    if s != [] {
      hide Begin, Index, StartOf, ByBucketFrom, SegmentsFrom;
      var k := Index(m, s[0].time);
      GroupsAreAggregated(strategy, m, [s[0]], k, s[1..]);
      FoldOfNone(strategy, Begin(strategy, s[0], StartOf(m, k)));
      assert [s[0]][1..] == [];
    }
  }

  /** The fine bars of coarse bucket `big` aggregate the fine groups of its input bars. */
  lemma FineBarsAre(strategy: Strategy, m: nat, q: nat, n: nat, big: nat, bars: seq<MarketBar>)
    requires m > 0 && q > 0 && n > 0 && Nested(m, q, n) && Sorted(bars) && Continuous(m, bars)
    ensures InBucket(n, big, Resampled(strategy, m, bars)) ==
            AggregateEach(strategy, m, Segments(m, InBucket(n, big, bars)))
  {
    hide Begin, Index, StartOf, Nested, Continuous, ByBucketFrom, Segments;
    FineBarsContinue(strategy, m, q, n, bars);
    BucketsAreAggregated(strategy, m, InBucket(n, big, bars));
    if bars != [] {
      var j := Index(m, bars[0].time);
      NestedIndex(m, q, n, bars[0].time);
      BeginKeeps(strategy, bars[0], StartOf(m, j));
      if |bars| > 1 { IndexGrows(m, bars[0].time, bars[1].time); }
      FineBarsOfBucket(strategy, m, q, n, big, Begin(strategy, bars[0], StartOf(m, j)), j, bars[1..]);
      var rest := InBucket(n, big, bars[1..]);
      assert ([bars[0]] + rest)[1..] == rest && [] + rest == rest;
    }
  }

  // ---------------------------------------------------------------------------
  // Sums over groups
  // ---------------------------------------------------------------------------

  ghost predicate NonEmptyGroups(groups: seq<seq<MarketBar>>) { forall i :: 0 <= i < |groups| ==> groups[i] != [] }

  lemma {:induction false} SpreadSumIsNat(s: seq<MarketBar>)
    ensures Sum(SPREAD, s) >= 0
    decreases |s|
  {
    if s != [] { SpreadSumIsNat(s[1..]); }
  }

  /** The sum of a group's spreads. */
  function Total(s: seq<MarketBar>): nat {
    SpreadSumIsNat(s);
    Sum(SPREAD, s)
  }

  /** The sum of the groups' average spreads, each rounded down. */
  function Floors(groups: seq<seq<MarketBar>>): nat
    requires forall i :: 0 <= i < |groups| ==> groups[i] != []
  {
    if groups == [] then 0 else Total(groups[0]) / |groups[0]| + Floors(groups[1..])
  }

  /** The sum of what the rounding of each group drops. */
  function Remainders(groups: seq<seq<MarketBar>>): nat
    requires forall i :: 0 <= i < |groups| ==> groups[i] != []
  {
    if groups == [] then 0 else Total(groups[0]) % |groups[0]| + Remainders(groups[1..])
  }

  lemma {:induction false} SumOfConcat(f: MarketBar -> int, a: seq<MarketBar>, b: seq<MarketBar>)
    ensures Sum(f, a + b) == Sum(f, a) + Sum(f, b)
    decreases |a|
  {
    if a == [] {
      assert a + b == b;
    } else {
      assert (a + b)[1..] == a[1..] + b;
      SumOfConcat(f, a[1..], b);
    }
  }

  ghost predicate AllOfSize(c: nat, groups: seq<seq<MarketBar>>) { forall i :: 0 <= i < |groups| ==> |groups[i]| == c }

  lemma OneMoreGroup(c: nat, total: nat, floors: nat, rest: nat)
    requires c > 0
    ensures c * (total / c + floors) + (total % c + rest) == total + (c * floors + rest)
    ensures c * (1 + floors) == c + c * floors
  {
    assert c * (total / c + floors) == c * (total / c) + c * floors;
    assert total == c * (total / c) + total % c;
  }

  /** Equal group sizes: the whole sum is the size times the sum of floors, and the remainders. */
  lemma {:induction false} WholeSum(c: nat, groups: seq<seq<MarketBar>>)
    requires c > 0 && NonEmptyGroups(groups) && AllOfSize(c, groups)
    ensures Total(Flatten(groups)) == c * Floors(groups) + Remainders(groups)
    ensures |Flatten(groups)| == c * |groups|
    decreases |groups|
  {
    if groups != [] {
      var g, rest := groups[0], groups[1..];
      WholeSum(c, rest);
      SumOfConcat(SPREAD, g, Flatten(rest));
      hide Sum;
      OneMoreGroup(c, Total(g), Floors(rest), Remainders(rest));
      OneMoreGroup(c, 0, |rest|, 0);
    }
  }

  /**
   Of any groups: the floors add up to no more than the whole sum, and each group's sum
   and size are within the whole.
   */
  lemma {:induction false} PartsOfSum(groups: seq<seq<MarketBar>>, i: nat)
    requires NonEmptyGroups(groups)
    ensures Floors(groups) <= Total(Flatten(groups)) && |groups| <= |Flatten(groups)|
    ensures i < |groups| ==> Total(groups[i]) <= Total(Flatten(groups)) && |groups[i]| <= |Flatten(groups)|
    decreases |groups|
  {
    if groups != [] {
      hide Sum;
      var g, rest := groups[0], groups[1..];
      PartsOfSum(rest, if i > 0 then i - 1 else 0);
      SumOfConcat(SPREAD, g, Flatten(rest));
      QuotientIsSmaller(Total(g), |g|);
    }
  }

  lemma {:induction false} StartIsAtLeast(n: nat, k: nat)
    requires n > 0
    ensures k <= StartOf(n, k)
  {
    if k > 0 {
      hide StartOf;
      StartIsAtLeast(n, k - 1);
      StartsGrow(n, k - 1, k);
    }
  }

  lemma QuotientIsSmaller(x: nat, n: nat)
    requires n > 0
    ensures x / n <= x
  {
    hide StartOf;
    BucketBounds(n, x, Index(n, x));
    StartIsAtLeast(n, Index(n, x));
  }

  ghost predicate GroupsFit(groups: seq<seq<MarketBar>>) {
    NonEmptyGroups(groups) && forall i :: 0 <= i < |groups| ==> TickVolumesFit(groups[i])
  }

  /** The average of one group that does not overflow the 32-bit sum and count. */
  lemma AverageOfGroup(bucket: nat, group: seq<MarketBar>)
    requires group != [] && TickVolumesFit(group) && Total(group) < W32.Modulus() && |group| < W32.Modulus()
    ensures Aggregate(AverageSpread, bucket, group).spread == Total(group) / |group|
  {
    hide Aggregate, IsMaximum, IsMinimum, Sum;
    AggregateLaw(AverageSpread, bucket, group);
    WrapSmall(W32, Total(group));
    WrapSmall(W32, |group|);
  }

  lemma {:induction false} SumOfAverages(m: nat, groups: seq<seq<MarketBar>>, i: nat)
    requires m > 0 && GroupsFit(groups) && i <= |groups|
    requires forall k :: 0 <= k < |groups| ==> Total(groups[k]) < W32.Modulus() && |groups[k]| < W32.Modulus()
    ensures Sum(SPREAD, AggregateEach(AverageSpread, m, groups[i..])) == Floors(groups[i..])
    decreases |groups| - i
  {
    if i < |groups| {
      hide Aggregate, Total;
      assert groups[i..][0] == groups[i] && groups[i..][1..] == groups[i + 1..];
      AverageOfGroup(StartOf(m, SegmentOf(m, groups[i])), groups[i]);
      SumOfAverages(m, groups, i + 1);
      var bar := Aggregate(AverageSpread, StartOf(m, SegmentOf(m, groups[i])), groups[i]);
      var rest := AggregateEach(AverageSpread, m, groups[i + 1..]);
      assert ([bar] + rest)[1..] == rest;
    }
  }

  // ---------------------------------------------------------------------------
  // The two averages of a coarse bucket
  // ---------------------------------------------------------------------------

  lemma {:induction false} InBucketFits(target: nat, k: nat, s: seq<MarketBar>)
    requires target > 0 && TickVolumesFit(s)
    ensures TickVolumesFit(InBucket(target, k, s)) && |InBucket(target, k, s)| <= |s|
    decreases |s|
  {
    hide Index;
    if s != [] { InBucketFits(target, k, s[1..]); }
  }

  /** In one step: the floor of the mean over the bucket's input bars. */
  lemma OneStepSpread(n: nat, bars: seq<MarketBar>, i: nat)
    requires n > 0 && Sorted(bars) && Continuous(n, bars) && TickVolumesFit(bars) && |bars| < W32.Modulus()
    requires i < |Resampled(AverageSpread, n, bars)|
    requires Total(InBucket(n, Index(n, Resampled(AverageSpread, n, bars)[i].time), bars)) < W32.Modulus()
    ensures
      var o := Resampled(AverageSpread, n, bars)[i];
      var group := InBucket(n, Index(n, o.time), bars);
      group != [] && o.spread == Total(group) / |group|
  {
    hide Resampled, Aggregate, InBucket, Index, Total, Continuous, StartOf;
    ResamplingLaw(AverageSpread, n, bars);
    var o := Resampled(AverageSpread, n, bars)[i];
    assert CoversItsBucket(AverageSpread, n, o, bars);
    var k := Index(n, o.time);
    InBucketFits(n, k, bars);
    AverageOfGroup(StartOf(n, k), InBucket(n, k, bars));
  }

  /** Fine bars keep their counts and averages within 32 bits. */
  lemma FineBarsFit(m: nat, bars: seq<MarketBar>)
    requires m > 0 && Sorted(bars) && Continuous(m, bars) && TickVolumesFit(bars) && |bars| < W32.Modulus()
    ensures TickVolumesFit(Resampled(AverageSpread, m, bars))
  {
    hide Resampled, Aggregate, InBucket, Index, Continuous, StartOf, IsMaximum, IsMinimum, Sum;
    ResamplingLaw(AverageSpread, m, bars);
    var fine := Resampled(AverageSpread, m, bars);
    forall i | 0 <= i < |fine| ensures W32.Unsigned(fine[i].tickVolume) && W32.Unsigned(fine[i].spread) {
      assert CoversItsBucket(AverageSpread, m, fine[i], bars);
      var k := Index(m, fine[i].time);
      var group := InBucket(m, k, bars);
      InBucketFits(m, k, bars);
      AggregateLaw(AverageSpread, StartOf(m, k), group);
      WrapSmall(W32, |group|);
      QuotientIsSmaller(W32.Wrap(Sum(SPREAD, group)), |group|);
    }
  }

  lemma GroupsOfBucket(m: nat, s: seq<MarketBar>)
    requires m > 0 && TickVolumesFit(s)
    ensures GroupsFit(Segments(m, s)) && Flatten(Segments(m, s)) == s
  {
    hide Index;
    if s != [] {
      FlattenSegments(m, [s[0]], Index(m, s[0].time), s[1..]);
      assert [s[0]] + s[1..] == s;
      var groups := Segments(m, s);
      forall i | 0 <= i < |groups| ensures TickVolumesFit(groups[i]) { PartsFit(groups, i); }
    }
  }

  lemma {:induction false} PartsFit(groups: seq<seq<MarketBar>>, i: nat)
    requires i < |groups| && TickVolumesFit(Flatten(groups))
    ensures TickVolumesFit(groups[i])
    decreases |groups|
  {
    var g, rest := groups[0], groups[1..];
    var whole := g + Flatten(rest);
    assert forall k :: 0 <= k < |g| ==> g[k] == whole[k];
    if i > 0 {
      var tail := Flatten(rest);
      assert forall k :: 0 <= k < |tail| ==> tail[k] == whole[|g| + k];
      PartsFit(rest, i - 1);
    }
  }

  /** The fine bars of a coarse bucket: their number, and the sum of their spreads. */
  lemma FineSpreads(m: nat, q: nat, n: nat, bars: seq<MarketBar>, k: nat)
    requires m > 0 && q > 0 && n > 0 && Nested(m, q, n)
    requires Sorted(bars) && Continuous(m, bars) && TickVolumesFit(bars) && |bars| < W32.Modulus()
    requires Total(InBucket(n, k, bars)) < W32.Modulus()
    ensures
      var fine, groups := Resampled(AverageSpread, m, bars), Segments(m, InBucket(n, k, bars));
      && |InBucket(n, k, fine)| == |groups|
      && Total(InBucket(n, k, fine)) == Floors(groups) < W32.Modulus()
  {
    hide Resampled, InBucket, Index, Continuous, StartOf, Nested, Segments, Sum, Floors, Aggregate, Flatten;
    var part := InBucket(n, k, bars);
    var groups := Segments(m, part);
    FineBarsAre(AverageSpread, m, q, n, k, bars);
    InBucketFits(n, k, bars);
    GroupsOfBucket(m, part);
    forall j | 0 <= j < |groups| ensures Total(groups[j]) < W32.Modulus() && |groups[j]| < W32.Modulus() {
      PartsOfSum(groups, j);
    }
    PartsOfSum(groups, 0);
    assert groups[0..] == groups;
    SumOfAverages(m, groups, 0);
  }

  /** In two steps: the floor of the mean of the fine floors. */
  lemma TwoStepSpread(m: nat, q: nat, n: nat, bars: seq<MarketBar>, i: nat)
    requires m > 0 && q > 0 && n > 0 && Nested(m, q, n)
    requires Sorted(bars) && Continuous(m, bars) && TickVolumesFit(bars) && |bars| < W32.Modulus()
    requires i < |Resampled(AverageSpread, n, Resampled(AverageSpread, m, bars))|
    requires
      var o := Resampled(AverageSpread, n, Resampled(AverageSpread, m, bars))[i];
      Total(InBucket(n, Index(n, o.time), bars)) < W32.Modulus()
    ensures
      var o := Resampled(AverageSpread, n, Resampled(AverageSpread, m, bars))[i];
      var groups := Segments(m, InBucket(n, Index(n, o.time), bars));
      groups != [] && o.spread == Floors(groups) / |groups|
  {
    hide Resampled, InBucket, Index, Total, Continuous, Nested, Segments, Floors, TickVolumesFit;
    var fine := Resampled(AverageSpread, m, bars);
    FineBarsContinue(AverageSpread, m, q, n, bars);
    FineBarsFit(m, bars);
    FewFineBars(m, bars);
    FineSpreads(m, q, n, bars, Index(n, Resampled(AverageSpread, n, fine)[i].time));
    OneStepSpread(n, fine, i);
  }

  /** Resampling makes no more bars than there were. */
  lemma FewFineBars(m: nat, bars: seq<MarketBar>)
    requires m > 0 && Sorted(bars) && Continuous(m, bars)
    ensures |Resampled(AverageSpread, m, bars)| <= |bars|
  {
    if bars != [] {
      var bucket := StartOf(m, Index(m, bars[0].time));
      WalkIsShort(AverageSpread, m, Begin(AverageSpread, bars[0], bucket), bucket + m, bars[1..]);
    }
  }

  lemma {:induction false} WalkIsShort(strategy: Strategy, target: nat, r: Running, next: nat, s: seq<MarketBar>)
    ensures |Walk(strategy, target, r, next, s)| <= 1 + |s|
    decreases |s|
  {
    if s != [] {
      WalkIsShort(strategy, target, Begin(strategy, s[0], next), next + target, s[1..]);
      WalkIsShort(strategy, target, Merge(strategy, r, s[0]), next, s[1..]);
    }
  }

  // ---------------------------------------------------------------------------
  // When the two averages agree
  // ---------------------------------------------------------------------------

  /**
   Two floors are equal: the second one's multiple of the first denominator is within one
   step below the first numerator.
   */
  lemma FloorsEqual(total: nat, size: nat, k: nat)
    requires size > 0
    ensures total / size == k <==> size * k <= total < size * k + size
  {
    BucketBounds(size, total, k);
    StartsGrow(size, k, k + 1);
    assert StartOf(size, k) == size * k;
  }

  lemma WholeFloorsEqual(c: nat, count: nat, floors: nat, remainders: nat)
    requires c > 0 && count > 0
    ensures c * count > 0
    ensures floors / count <= (c * floors + remainders) / (c * count)
    ensures (c * floors + remainders) / (c * count) == floors / count <==> c * (floors % count) + remainders < c * count
  {
    var k, r := floors / count, floors % count;
    var size, total := c * count, c * floors + remainders;
    assert size > 0;
    assert floors == k * count + r;
    assert c * floors == size * k + c * r by { assert c * (k * count + r) == (c * count) * k + c * r; }
    assert c * r >= 0;
    FloorsEqual(total, size, k);
    IndexOfStart(size, k);
    IndexGrows(size, StartOf(size, k), total);
    assert StartOf(size, k) == size * k;
  }

  /**
   Averaging in two steps, coarse bucket by coarse bucket, while the 32-bit sums do
   not overflow. For groups of any sizes the spreads agree exactly when the whole
   sum lies within one step above the two-step spread times the number of bars. For
   groups of one size `c` the two-step spread is never the larger one, and it agrees
   exactly when what all the roundings drop is less than a whole step.
   */
  lemma AverageTwice(m: nat, q: nat, n: nat, bars: seq<MarketBar>, i: nat)
    requires m > 0 && q > 0 && n > 0 && Nested(m, q, n)
    requires Sorted(bars) && Continuous(m, bars) && TickVolumesFit(bars) && |bars| < W32.Modulus()
    requires i < |Resampled(AverageSpread, n, bars)|
    requires Total(InBucket(n, Index(n, Resampled(AverageSpread, n, bars)[i].time), bars)) < W32.Modulus()
    ensures |Resampled(AverageSpread, n, Resampled(AverageSpread, m, bars))| == |Resampled(AverageSpread, n, bars)|
    ensures
      var one := Resampled(AverageSpread, n, bars)[i];
      var two := Resampled(AverageSpread, n, Resampled(AverageSpread, m, bars))[i];
      var part := InBucket(n, Index(n, one.time), bars);
      var groups := Segments(m, part);
      && WithoutSpread(two) == WithoutSpread(one)
      && part != [] && groups != []
      && one.spread == Total(part) / |part|
      && two.spread == Floors(groups) / |groups|
      && (two.spread == one.spread <==> |part| * two.spread <= Total(part) < |part| * two.spread + |part|)
      && forall c :: c > 0 && AllOfSize(c, groups) ==>
           && two.spread <= one.spread
           && (two.spread == one.spread <==> c * (Floors(groups) % |groups|) + Remainders(groups) < c * |groups|)
  {
    hide Resampled, InBucket, Index, Total, Continuous, Nested, Segments, Floors, Remainders, AllOfSize;
    TwoStepsAgreeUpToSpreads(AverageSpread, m, q, n, bars);
    FineBarsContinue(AverageSpread, m, q, n, bars);
    var one, two := Resampled(AverageSpread, n, bars), Resampled(AverageSpread, n, Resampled(AverageSpread, m, bars));
    assert |two| == |one| && WithoutSpread(two[i]) == WithoutSpreads(two)[i] == WithoutSpreads(one)[i] ==
           WithoutSpread(one[i]);
    assert two[i].time == one[i].time;
    OneStepSpread(n, bars, i);
    TwoStepSpread(m, q, n, bars, i);
    var part := InBucket(n, Index(n, one[i].time), bars);
    var groups := Segments(m, part);
    FloorsEqual(Total(part), |part|, two[i].spread);
    InBucketFits(n, Index(n, one[i].time), bars);
    GroupsOfBucket(m, part);
    forall c | c > 0 && AllOfSize(c, groups)
      ensures two[i].spread <= one[i].spread
      ensures two[i].spread == one[i].spread <==> c * (Floors(groups) % |groups|) + Remainders(groups) < c * |groups|
    {
      WholeSum(c, groups);
      WholeFloorsEqual(c, |groups|, Floors(groups), Remainders(groups));
    }
  }

  // ---------------------------------------------------------------------------
  // Groups of any sizes, such as those at the edges
  // ---------------------------------------------------------------------------

  ghost predicate AveragesWithin(lo: nat, hi: nat, groups: seq<seq<MarketBar>>) {
    NonEmptyGroups(groups) && forall i :: 0 <= i < |groups| ==> lo <= Total(groups[i]) / |groups[i]| <= hi
  }

  lemma QuotientWithin(lo: nat, hi: nat, x: nat, n: nat)
    requires n > 0
    ensures lo <= x / n <= hi <==> StartOf(n, lo) <= x < StartOf(n, hi) + n
  {
    hide StartOf;
    IndexOfStart(n, lo);
    IndexOfStart(n, hi);
    BucketBounds(n, x, Index(n, x));
    BucketBounds(n, x, hi);
    StartsGrow(n, hi, hi + 1);
    if StartOf(n, lo) <= x { IndexGrows(n, StartOf(n, lo), x); }
    if x < StartOf(n, lo) { BelowStart(n, x, lo); }
    if StartOf(n, hi) <= x { IndexGrows(n, StartOf(n, hi), x); } else { BelowStart(n, x, hi); }
  }

  lemma BelowStart(n: nat, x: nat, k: nat)
    requires n > 0 && x < StartOf(n, k)
    ensures Index(n, x) < k
  {
    hide StartOf, Index;
    var j := Index(n, x);
    BucketBounds(n, x, j);
    if k < j { StartsGrow(n, k, j); }
  }

  lemma {:induction false} SumsWithin(lo: nat, hi: nat, groups: seq<seq<MarketBar>>)
    requires AveragesWithin(lo, hi, groups)
    ensures StartOf(|groups|, lo) <= Floors(groups) <= StartOf(|groups|, hi)
    ensures StartOf(|Flatten(groups)|, lo) <= Total(Flatten(groups)) <=
            StartOf(|Flatten(groups)|, hi) + |Flatten(groups)|
    ensures groups != [] ==> Total(Flatten(groups)) < StartOf(|Flatten(groups)|, hi) + |Flatten(groups)|
    decreases |groups|
  {
    if groups == [] {
      assert lo * 0 == 0 && hi * 0 == 0;
    } else {
      hide StartOf, Sum;
      var g, rest := groups[0], groups[1..];
      SumsWithin(lo, hi, rest);
      SumOfConcat(SPREAD, g, Flatten(rest));
      QuotientWithin(lo, hi, Total(g), |g|);
      StartsSplit(lo, 1, |rest|);
      StartsSplit(hi, 1, |rest|);
      StartsSplit(lo, |g|, |Flatten(rest)|);
      StartsSplit(hi, |g|, |Flatten(rest)|);
    }
  }

  lemma StartsSplit(k: nat, a: nat, b: nat)
    ensures StartOf(a + b, k) == StartOf(a, k) + StartOf(b, k) && StartOf(1, k) == k
  {
    assert k * (a + b) == k * a + k * b;
  }

  /** Both averages of a coarse bucket lie between the least and the greatest average of its groups. */
  lemma AveragesLieBetween(lo: nat, hi: nat, groups: seq<seq<MarketBar>>)
    requires groups != [] && AveragesWithin(lo, hi, groups)
    ensures Flatten(groups) != []
    ensures lo <= Total(Flatten(groups)) / |Flatten(groups)| <= hi
    ensures lo <= Floors(groups) / |groups| <= hi
  {
    hide StartOf, Floors, Total;
    SumsWithin(lo, hi, groups);
    assert Flatten(groups) != [] by { assert groups[0] != []; }
    QuotientWithin(lo, hi, Total(Flatten(groups)), |Flatten(groups)|);
    QuotientWithin(lo, hi, Floors(groups), |groups|);
  }

  /** With groups of any sizes, the two ways agree when the fine averages of the coarse bucket are all the same. */
  lemma EqualAveragesAgree(m: nat, q: nat, n: nat, bars: seq<MarketBar>, i: nat, average: nat)
    requires m > 0 && q > 0 && n > 0 && Nested(m, q, n)
    requires Sorted(bars) && Continuous(m, bars) && TickVolumesFit(bars) && |bars| < W32.Modulus()
    requires i < |Resampled(AverageSpread, n, bars)|
    requires Total(InBucket(n, Index(n, Resampled(AverageSpread, n, bars)[i].time), bars)) < W32.Modulus()
    ensures |Resampled(AverageSpread, n, Resampled(AverageSpread, m, bars))| == |Resampled(AverageSpread, n, bars)|
    ensures
      var one := Resampled(AverageSpread, n, bars)[i];
      var two := Resampled(AverageSpread, n, Resampled(AverageSpread, m, bars))[i];
      AveragesWithin(average, average, Segments(m, InBucket(n, Index(n, one.time), bars))) ==> two == one
  {
    hide Resampled, InBucket, Index, Total, Continuous, Nested, Segments, Floors, Remainders, AllOfSize, TickVolumesFit;
    AverageTwice(m, q, n, bars, i);
    var one := Resampled(AverageSpread, n, bars)[i];
    var two := Resampled(AverageSpread, n, Resampled(AverageSpread, m, bars))[i];
    var part := InBucket(n, Index(n, one.time), bars);
    InBucketFits(n, Index(n, one.time), bars);
    GroupsOfBucket(m, part);
    if AveragesWithin(average, average, Segments(m, part)) {
      AveragesLieBetween(average, average, Segments(m, part));
      assert one == WithoutSpread(one).(spread := average) && two == WithoutSpread(two).(spread := average);
    }
  }

  // ---------------------------------------------------------------------------
  // Gapless bars and whole buckets
  // ---------------------------------------------------------------------------

  /** The bars reach from the start of coarse bucket `k` to its end. */
  ghost predicate CoversBucket(step: nat, n: nat, k: nat, bars: seq<MarketBar>) {
    bars != [] && bars[0].time <= StartOf(n, k) && StartOf(n, k + 1) <= bars[0].time + StartOf(step, |bars|)
  }

  /** The bars fill the bucket of coarse bar `i`, and their spreads add up within 32 bits. */
  ghost predicate FilledBucket(step: nat, n: nat, bars: seq<MarketBar>, i: nat)
    requires n > 0
  {
    var coarse := Resampled(AverageSpread, n, bars);
    && i < |coarse|
    && CoversBucket(step, n, Index(n, coarse[i].time), bars)
    && Total(InBucket(n, Index(n, coarse[i].time), bars)) < W32.Modulus()
  }

  lemma {:induction false} BucketOfBucket(m: nat, q: nat, n: nat, j: nat, s: seq<MarketBar>)
    requires m > 0 && q > 0 && n > 0 && Nested(m, q, n)
    ensures InBucket(m, j, InBucket(n, Index(q, j), s)) == InBucket(m, j, s)
    decreases |s|
  {
    hide Index, Nested;
    if s != [] {
      NestedIndex(m, q, n, s[0].time);
      BucketOfBucket(m, q, n, j, s[1..]);
      var rest := InBucket(n, Index(q, j), s[1..]);
      assert ([s[0]] + rest)[1..] == rest && [] + rest == rest;
    }
  }

  /** Of gapless bars, a bucket they reach over holds a slice of `c` bars. */
  lemma WholeBucket(step: nat, c: nat, m: nat, first: nat, bars: seq<MarketBar>, j: nat)
    requires step > 0 && c > 0 && m > 0 && Nested(step, c, m)
    requires forall i :: 0 <= i < |bars| ==> bars[i].time == StartOf(step, first + i)
    requires first <= StartOf(c, j) && StartOf(c, j + 1) <= first + |bars|
    ensures StartOf(c, j + 1) == StartOf(c, j) + c
    ensures InBucket(m, j, bars) == bars[StartOf(c, j) - first..StartOf(c, j + 1) - first]
  {
    hide Index, StartOf, Nested, InBucket;
    StartsGrow(c, j, j + 1);
    var lo, hi := StartOf(c, j) - first, StartOf(c, j + 1) - first;
    var before, inside, after := bars[..lo], bars[lo..hi], bars[hi..];
    forall i | 0 <= i < |bars| ensures Index(m, bars[i].time) == j <==> lo <= i < hi {
      NestedIndex(step, c, m, StartOf(step, first + i));
      IndexOfStart(step, first + i);
      BucketBounds(c, first + i, j);
    }
    assert bars == before + (inside + after);
    InBucketOfConcat(m, j, before, inside + after);
    InBucketOfConcat(m, j, inside, after);
    InBucketAllOrNone(m, j, before);
    InBucketAllOrNone(m, j, inside);
    InBucketAllOrNone(m, j, after);
    assert [] + (inside + []) == inside;
  }

  /** The bars of a bucket reached over, counted in steps. */
  lemma Reach(step: nat, c: nat, q: nat, n: nat, first: nat, count: nat, k: nat)
    requires step > 0 && c > 0 && q > 0 && n == step * c * q
    requires StartOf(step, first) <= StartOf(n, k) && StartOf(n, k + 1) <= StartOf(step, first + count)
    ensures c * q > 0 && first <= StartOf(c * q, k) && StartOf(c * q, k + 1) <= first + count
  {
    var size := c * q;
    assert size > 0 && n == step * size;
    hide StartOf;
    NestedStart(step, size, n, k);
    NestedStart(step, size, n, k + 1);
    if first > StartOf(size, k) { StartsGrow(step, StartOf(size, k), first); }
    if StartOf(size, k + 1) > first + count { StartsGrow(step, first + count, StartOf(size, k + 1)); }
  }

  /** A fine bucket inside a coarse bucket starts no earlier and ends no later. */
  lemma FineInside(c: nat, q: nat, j: nat, k: nat)
    requires c > 0 && q > 0 && Index(q, j) == k
    ensures c * q > 0 && StartOf(c * q, k) <= StartOf(c, j) && StartOf(c, j + 1) <= StartOf(c * q, k + 1)
  {
    var size := c * q;
    assert size > 0;
    hide StartOf, Index;
    BucketBounds(q, j, k);
    NestedStart(c, q, size, k);
    NestedStart(c, q, size, k + 1);
    if StartOf(q, k) < j { StartsGrow(c, StartOf(q, k), j); }
    if j + 1 < StartOf(q, k + 1) { StartsGrow(c, j + 1, StartOf(q, k + 1)); }
  }

  lemma SameMultiple(c: nat, a: nat, b: nat)
    requires c > 0 && c * a == c * b
    ensures a == b
  {
    if a < b { StartsGrow(c, a, b); }
    if b < a { StartsGrow(c, b, a); }
  }

  /** The fine groups of a coarse bucket that the bars reach over: `q` groups of `c` bars. */
  lemma WholeCoarseBucket(step: nat, c: nat, q: nat, m: nat, n: nat, bars: seq<MarketBar>, k: nat)
    requires step > 0 && c > 0 && q > 0 && m == step * c && m > 0 && n == m * q && n > 0
    requires Gapless(step, bars) && CoversBucket(step, n, k, bars)
    ensures |Segments(m, InBucket(n, k, bars))| == q && AllOfSize(c, Segments(m, InBucket(n, k, bars)))
  {
    hide StartOf, Index, InBucket, Segments;
    var first := GaplessTimes(step, bars);
    StartsAdd(step, first, |bars|);
    Reach(step, c, q, n, first, |bars|, k);
    var size := c * q;
    assert n == step * size;
    WholeBucket(step, size, n, first, bars, k);
    SortedSteps(step, first, bars);
    var part := InBucket(n, k, bars);
    SplitLaw(m, part);
    var groups := Segments(m, part);
    forall i | 0 <= i < |groups| ensures |groups[i]| == c {
      var j := SegmentOf(m, groups[i]);
      assert groups[i] == InBucket(m, j, part);
      InBucketMembers(m, j, part);
      InBucketMembers(n, k, bars);
      assert groups[i][0] in groups[i];
      NestedIndex(m, q, n, groups[i][0].time);
      BucketOfBucket(m, q, n, j, bars);
      FineInside(c, q, j, k);
      WholeBucket(step, c, m, first, bars, j);
    }
    WholeSum(c, groups);
    SameMultiple(c, |groups|, q);
  }

  /**
   Gapless bars, `c` to a fine bar and `q` fine bars to a coarse one, over a coarse
   bucket they fill: the two-step spread is the floor of the mean of the fine floors,
   never above the one-step spread, and equal to it exactly under the stated bound on
   what the roundings drop.
   */
  lemma AverageTwiceGapless(step: nat, c: nat, q: nat, m: nat, n: nat, bars: seq<MarketBar>, i: nat)
    requires step > 0 && c > 0 && q > 0 && m == step * c && m > 0 && n == m * q && n > 0
    requires Gapless(step, bars) && TickVolumesFit(bars) && |bars| < W32.Modulus()
    ensures |Resampled(AverageSpread, n, Resampled(AverageSpread, m, bars))| == |Resampled(AverageSpread, n, bars)|
    ensures FilledBucket(step, n, bars, i) ==>
              var one := Resampled(AverageSpread, n, bars)[i];
              var two := Resampled(AverageSpread, n, Resampled(AverageSpread, m, bars))[i];
              var groups := Segments(m, InBucket(n, Index(n, one.time), bars));
              && |groups| == q
              && AllOfSize(c, groups)
              && two.spread == Floors(groups) / q <= one.spread
              && (two == one <==> c * (Floors(groups) % q) + Remainders(groups) < c * q)
  {
    hide Resampled, InBucket, Index, Total, Continuous, Segments, Floors, Remainders, AllOfSize, TickVolumesFit;
    hide CoversBucket;
    GaplessIsContinuous(step, c, m, bars);
    TwoStepsAgreeUpToSpreads(AverageSpread, m, q, n, bars);
    if FilledBucket(step, n, bars, i) {
      AverageTwice(m, q, n, bars, i);
      var one := Resampled(AverageSpread, n, bars)[i];
      var two := Resampled(AverageSpread, n, Resampled(AverageSpread, m, bars))[i];
      WholeCoarseBucket(step, c, q, m, n, bars, Index(n, one.time));
      assert one == WithoutSpread(one).(spread := one.spread) && two == WithoutSpread(two).(spread := two.spread);
    }
  }

  // ---------------------------------------------------------------------------
  // Averaging twice is not averaging once
  // ---------------------------------------------------------------------------

  function BarWithSpread(time: nat, spread: nat): MarketBar { EMPTY_BAR.(time := time, spread := spread) }

  /** Spreads 1, 0, 1, 2 at times 0 to 3. */
  const FOUR_BARS: seq<MarketBar> :=
    [BarWithSpread(0, 1), BarWithSpread(1, 0), BarWithSpread(2, 1), BarWithSpread(3, 2)]

  lemma OneStepOfFour()
    ensures Resampled(AverageSpread, 4, FOUR_BARS) == [BarWithSpread(0, 1)]
  {
  }

  lemma PairsOfFour()
    ensures Resampled(AverageSpread, 2, FOUR_BARS) == [BarWithSpread(0, 0), BarWithSpread(2, 1)]
  {
    var bars := FOUR_BARS;
    assert bars[1..][1..] == bars[2..] && bars[2..][1..] == bars[3..] && bars[3..][1..] == [];
    var first := Begin(AverageSpread, bars[0], 0);
    assert Walk(AverageSpread, 2, Begin(AverageSpread, bars[2], 2), 4, bars[3..]) == [BarWithSpread(2, 1)];
    assert Walk(AverageSpread, 2, Merge(AverageSpread, first, bars[1]), 2, bars[2..])
        == [BarWithSpread(0, 0), BarWithSpread(2, 1)];
  }

  lemma TwoStepsOfFour()
    ensures Resampled(AverageSpread, 4, Resampled(AverageSpread, 2, FOUR_BARS)) == [BarWithSpread(0, 0)]
  {
    PairsOfFour();
    var pair := [BarWithSpread(0, 0), BarWithSpread(2, 1)];
    assert pair[1..][1..] == [];
    var merged := Merge(AverageSpread, Begin(AverageSpread, pair[0], 0), pair[1]);
    assert Emit(AverageSpread, merged) == BarWithSpread(0, 0);
    assert Walk(AverageSpread, 4, merged, 4, []) == [BarWithSpread(0, 0)];
    assert Walk(AverageSpread, 4, Begin(AverageSpread, pair[0], 0), 4, pair[1..]) == [BarWithSpread(0, 0)];
    assert Resampled(AverageSpread, 4, pair) == [BarWithSpread(0, 0)];
  }

  lemma FourBarsFill()
    ensures Gapless(1, FOUR_BARS) && CoversBucket(1, 4, 0, FOUR_BARS) && Total(InBucket(4, 0, FOUR_BARS)) == 4
  {
    InBucketAllOrNone(4, 0, FOUR_BARS);
  }

  /** They fill their coarse bucket; their mean is 1, and the mean of the means 0 and 1 is rounded to 0. */
  lemma AverageTwiceDiffers()
    ensures Gapless(1, FOUR_BARS) && FilledBucket(1, 4, FOUR_BARS, 0)
    ensures Resampled(AverageSpread, 4, Resampled(AverageSpread, 2, FOUR_BARS)) == [BarWithSpread(0, 0)]
    ensures Resampled(AverageSpread, 4, FOUR_BARS) == [BarWithSpread(0, 1)]
  {
    hide Resampled, CoversBucket, Total, InBucket;
    OneStepOfFour();
    TwoStepsOfFour();
    FourBarsFill();
  }
}
