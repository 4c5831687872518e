/** Cropping bars by time, and splitting them into storage segments. */
module BarSegments {
  import opened Bars
  import opened Buckets
  import Sequences

  // ---------------------------------------------------------------------------
  // Cropping
  // ---------------------------------------------------------------------------

  function From(s: seq<MarketBar>, start: nat): seq<MarketBar>
    decreases |s|
  {
    if s == [] then [] else (if s[0].time < start then [] else [s[0]]) + From(s[1..], start)
  }

  function Until(s: seq<MarketBar>, end: nat): seq<MarketBar>
    decreases |s|
  {
    if s == [] then [] else (if s[0].time >= end then [] else [s[0]]) + Until(s[1..], end)
  }

  /** The bars of [start, end), in their order. */
  function Between(s: seq<MarketBar>, start: nat, end: nat): seq<MarketBar>
    decreases |s|
  {
    if s == [] then []
    else (if start <= s[0].time < end then [s[0]] else []) + Between(s[1..], start, end)
  }

  /** `crop_before`: erases what `std::remove_if` has moved away. */
  method CropBefore(v: BarVector, start: nat)
    modifies v
    ensures v.items == From(old(v.items), start)
  {
    ghost var s := v.items;
    var kept := [];
    for i := 0 to |v.items|
      invariant v.items == s && kept + From(s[i..], start) == From(s, start)
    {
      assert s[i..][1..] == s[i + 1..];
      if !(v.items[i].time < start) { kept := kept + [v.items[i]]; }
    }
    v.items := kept;
  }

  method CropAfter(v: BarVector, end: nat)
    modifies v
    ensures v.items == Until(old(v.items), end)
  {
    ghost var s := v.items;
    var kept := [];
    for i := 0 to |v.items|
      invariant v.items == s && kept + Until(s[i..], end) == Until(s, end)
    {
      assert s[i..][1..] == s[i + 1..];
      if !(v.items[i].time >= end) { kept := kept + [v.items[i]]; }
    }
    v.items := kept;
  }

  lemma {:induction false} FromOfCons(b: MarketBar, s: seq<MarketBar>, start: nat, end: nat)
    ensures From([b] + s, start) == (if b.time < start then [] else [b]) + From(s, start)
    ensures Until([b] + s, end) == (if b.time >= end then [] else [b]) + Until(s, end)
  {
    assert ([b] + s)[1..] == s;
  }

  /** Both crops, in either order, leave exactly the range. */
  lemma {:induction false} CropsGiveRange(s: seq<MarketBar>, start: nat, end: nat)
    ensures Until(From(s, start), end) == Between(s, start, end) == From(Until(s, end), start)
    decreases |s|
  {
    if s != [] {
      CropsGiveRange(s[1..], start, end);
      var a, b := From(s[1..], start), Until(s[1..], end);
      FromOfCons(s[0], a, start, end);
      FromOfCons(s[0], b, start, end);
      assert [] + a == a && [] + b == b;
      hide Between;
      assert Between(s, start, end) ==
             (if start <= s[0].time < end then [s[0]] else []) + Between(s[1..], start, end) by {
        BetweenUnfold(s, start, end);
      }
    }
  }

  lemma BetweenUnfold(s: seq<MarketBar>, start: nat, end: nat)
    requires s != []
    ensures Between(s, start, end) == (if start <= s[0].time < end then [s[0]] else []) + Between(s[1..], start, end)
  {
  }

  lemma {:induction false} CropMembers(s: seq<MarketBar>, bound: nat)
    ensures forall b :: b in From(s, bound) <==> b in s && b.time >= bound
    ensures forall b :: b in Until(s, bound) <==> b in s && b.time < bound
    decreases |s|
  {
    if s != [] { CropMembers(s[1..], bound); }
  }

  /** A crop at a bound that all bars meet changes nothing. */
  lemma {:induction false} NothingToCrop(s: seq<MarketBar>, start: nat, end: nat)
    ensures (forall i :: 0 <= i < |s| ==> s[i].time >= start) ==> From(s, start) == s
    ensures (forall i :: 0 <= i < |s| ==> s[i].time < end) ==> Until(s, end) == s
    decreases |s|
  {
    if s != [] {
      NothingToCrop(s[1..], start, end);
      assert forall i :: 0 <= i < |s| - 1 ==> s[1..][i] == s[i + 1];
      assert [s[0]] + s[1..] == s;
    }
  }

  lemma {:induction false} BetweenMembers(s: seq<MarketBar>, start: nat, end: nat)
    ensures forall b :: b in Between(s, start, end) <==> b in s && start <= b.time < end
    decreases |s|
  {
    if s != [] { BetweenMembers(s[1..], start, end); }
  }

  /** One bucket holds everything of the range exactly when no bar of the range is elsewhere. */
  lemma {:induction false} RangeInOneBucket(duration: nat, k: nat, s: seq<MarketBar>, start: nat, end: nat)
    requires duration > 0
    ensures (forall b :: b in s && start <= b.time < end ==> Index(duration, b.time) == k) ==>
              Between(InBucket(duration, k, s), start, end) == Between(s, start, end)
    decreases |s|
  {
    hide Index;
    if s != [] {
      RangeInOneBucket(duration, k, s[1..], start, end);
      var rest := InBucket(duration, k, s[1..]);
      assert ([s[0]] + rest)[1..] == rest;
      assert [] + rest == rest;
    }
  }

  lemma {:induction false} InBucketMembers(duration: nat, k: nat, s: seq<MarketBar>)
    requires duration > 0
    ensures forall b :: b in InBucket(duration, k, s) <==> b in s && Index(duration, b.time) == k
    decreases |s|
  {
    hide Index;
    if s != [] { InBucketMembers(duration, k, s[1..]); }
  }

  // ---------------------------------------------------------------------------
  // Splitting
  // ---------------------------------------------------------------------------

  /** `start_of_period` of the time library. */
  function StartOfPeriod(duration: nat, time: nat): (r: nat)
    requires duration > 0
    ensures r == StartOf(duration, Index(duration, time))
  {
    var q := time / duration;
    assert time == q * duration + time % duration;
    time - time % duration
  }

  function SegmentsFrom(duration: nat, current: seq<MarketBar>, k: nat, s: seq<MarketBar>): (r: seq<seq<MarketBar>>)
    requires duration > 0 && current != []
    ensures forall i :: 0 <= i < |r| ==> r[i] != []
    decreases |s|
  {
    if s == [] then [current]
    else if Index(duration, s[0].time) == k then SegmentsFrom(duration, current + [s[0]], k, s[1..])
    else [current] + SegmentsFrom(duration, [s[0]], Index(duration, s[0].time), s[1..])
  }

  /** The runs of bars that share a segment. */
  function Segments(duration: nat, s: seq<MarketBar>): (r: seq<seq<MarketBar>>)
    requires duration > 0
    ensures forall i :: 0 <= i < |r| ==> r[i] != []
  {
    if s == [] then [] else SegmentsFrom(duration, [s[0]], Index(duration, s[0].time), s[1..])
  }

  function Flatten(segments: seq<seq<MarketBar>>): seq<MarketBar> {
    if segments == [] then [] else segments[0] + Flatten(segments[1..])
  }

  /** Succeeds exactly on sorted bars, and then gives the runs of equal segment. */
  method SplitBars(duration: nat, bars: seq<MarketBar>) returns (ok: bool, segments: seq<seq<MarketBar>>)
    requires duration > 0
    ensures ok <==> Sorted(bars)
    ensures ok ==> segments == Segments(duration, bars)
  {
    hide Index, StartOf;
    segments := [];
    if bars == [] { return true, []; }
    ghost var k := Index(duration, bars[0].time);
    var next: nat := StartOfPeriod(duration, bars[0].time) + duration;
    StartsGrow(duration, k, k + 1);
    var current := [bars[0]];
    for i := 1 to |bars|
      invariant Sorted(bars[..i]) && current != []
      invariant k == Index(duration, bars[i - 1].time) && next == StartOf(duration, k + 1)
      invariant segments + SegmentsFrom(duration, current, k, bars[i..]) == Segments(duration, bars)
    {
      var bar := bars[i];
      if bar.time < bars[i - 1].time { return false, segments; }
      LongerSorted(bars, i);
      assert bars[i..][0] == bar && bars[i..][1..] == bars[i + 1..];
      BucketBounds(duration, bar.time, k);
      BucketBounds(duration, bars[i - 1].time, k);
      if bar.time >= next {
        ghost var j := Index(duration, bar.time);
        Sequences.Regroup(segments, [current], SegmentsFrom(duration, [bar], j, bars[i + 1..]));
        segments := segments + [current];
        current := [];
        next := StartOfPeriod(duration, bar.time) + duration;
        k := j;
        StartsGrow(duration, j, j + 1);
        assert [] + [bar] == [bar];
      }
      current := current + [bar];
    }
    assert bars[..|bars|] == bars && bars[|bars|..] == [];
    segments := segments + [current];
    ok := true;
  }

  lemma LongerSorted(bars: seq<MarketBar>, i: nat)
    requires 0 < i < |bars| && Sorted(bars[..i]) && bars[i].time >= bars[i - 1].time
    ensures Sorted(bars[..i + 1])
  {
    var a, r := bars[..i], bars[..i + 1];
    forall x, y | 0 <= x < y < |r| ensures r[x].time <= r[y].time {
      assert a[i - 1] == bars[i - 1];
      if y < i { assert a[x].time <= a[y].time; } else if x < i - 1 { assert a[x].time <= a[i - 1].time; }
    }
  }

  function SegmentOf(duration: nat, segment: seq<MarketBar>): nat
    requires duration > 0
  {
    if segment == [] then 0 else Index(duration, segment[0].time)
  }

  /** Non-empty segments in strictly increasing order, each the whole of its bucket of `s`. */
  ghost predicate IsSplit(duration: nat, segments: seq<seq<MarketBar>>, s: seq<MarketBar>)
    requires duration > 0
  {
    && (forall i :: 0 <= i < |segments| ==>
       segments[i] != [] && segments[i] == InBucket(duration, SegmentOf(duration, segments[i]), s))
    && (forall i, j :: 0 <= i < j < |segments| ==> SegmentOf(duration, segments[i]) < SegmentOf(duration, segments[j]))
    && (forall b :: b in s ==>
       exists i :: 0 <= i < |segments| && SegmentOf(duration, segments[i]) == Index(duration, b.time))
  }

  lemma {:induction false} FlattenSegments(duration: nat, current: seq<MarketBar>, k: nat, s: seq<MarketBar>)
    requires duration > 0 && current != []
    ensures Flatten(SegmentsFrom(duration, current, k, s)) == current + s
    decreases |s|
  {
    hide Index;
    if s == [] {
      assert [current][1..] == [];
    } else if Index(duration, s[0].time) == k {
      FlattenSegments(duration, current + [s[0]], k, s[1..]);
      assert current + [s[0]] + s[1..] == current + s;
    } else {
      var rest := SegmentsFrom(duration, [s[0]], Index(duration, s[0].time), s[1..]);
      FlattenSegments(duration, [s[0]], Index(duration, s[0].time), s[1..]);
      assert ([current] + rest)[1..] == rest;
      assert [s[0]] + s[1..] == s;
    }
  }

  lemma {:induction false} SegmentsFromLaw(duration: nat, current: seq<MarketBar>, k: nat, s: seq<MarketBar>)
    requires duration > 0 && current != [] && AllInBucket(duration, k, current) && Sorted(s)
    requires s != [] ==> Index(duration, s[0].time) >= k
    ensures IsSplit(duration, SegmentsFrom(duration, current, k, s), current + s)
    ensures forall i :: 0 <= i < |SegmentsFrom(duration, current, k, s)| ==>
            SegmentOf(duration, SegmentsFrom(duration, current, k, s)[i]) >= k
    decreases |s|
  {
    hide Index, IsSplit, InBucket;
    if s == [] {
      OneSegment(duration, current, k);
      assert current + s == current;
    } else {
      if |s| > 1 { IndexGrows(duration, s[0].time, s[1].time); }
      var j := Index(duration, s[0].time);
      if j == k {
        SegmentsFromLaw(duration, current + [s[0]], k, s[1..]);
        assert current + [s[0]] + s[1..] == current + s;
      } else {
        SegmentsFromLaw(duration, [s[0]], j, s[1..]);
        assert [s[0]] + s[1..] == s;
        TimesGrow(duration, s, k);
        var rest := SegmentsFrom(duration, [s[0]], j, s[1..]);
        OneMoreSegment(duration, current, k, rest, s);
      }
    }
  }

  lemma OneSegment(duration: nat, current: seq<MarketBar>, k: nat)
    requires duration > 0 && current != [] && AllInBucket(duration, k, current)
    ensures IsSplit(duration, [current], current) && SegmentOf(duration, current) == k
  {
    hide InBucket, Index;
    InBucketAllOrNone(duration, k, current);
    assert [current][0] == current;
  }

  lemma OneMoreSegment(duration: nat, current: seq<MarketBar>, k: nat, rest: seq<seq<MarketBar>>, s: seq<MarketBar>)
    requires duration > 0 && current != [] && AllInBucket(duration, k, current)
    requires IsSplit(duration, rest, s) && forall i :: 0 <= i < |rest| ==> SegmentOf(duration, rest[i]) > k
    requires forall i :: 0 <= i < |s| ==> Index(duration, s[i].time) > k
    ensures IsSplit(duration, [current] + rest, current + s) && SegmentOf(duration, current) == k
  {
    hide InBucket, Index;
    var all := [current] + rest;
    forall i | 0 <= i < |all|
      ensures all[i] != [] && all[i] == InBucket(duration, SegmentOf(duration, all[i]), current + s) {
      var j := SegmentOf(duration, all[i]);
      InBucketOfConcat(duration, j, current, s);
      InBucketAllOrNone(duration, j, current);
      InBucketAllOrNone(duration, j, s);
      assert current + [] == current && [] + InBucket(duration, j, s) == InBucket(duration, j, s);
      assert i > 0 ==> all[i] == rest[i - 1];
    }
    forall b | b in current + s
      ensures exists i :: 0 <= i < |all| && SegmentOf(duration, all[i]) == Index(duration, b.time) {
      if b in current {
        assert SegmentOf(duration, all[0]) == k;
      } else {
        var i :| 0 <= i < |rest| && SegmentOf(duration, rest[i]) == Index(duration, b.time);
        assert all[i + 1] == rest[i];
      }
    }
  }

  /** Splitting loses nothing and separates exactly by segment. */
  lemma SplitLaw(duration: nat, s: seq<MarketBar>)
    requires duration > 0 && Sorted(s)
    ensures IsSplit(duration, Segments(duration, s), s)
    ensures Flatten(Segments(duration, s)) == s
  {
    if s != [] {
      hide Index, IsSplit;
      var k := Index(duration, s[0].time);
      if |s| > 1 { IndexGrows(duration, s[0].time, s[1].time); }
      SegmentsFromLaw(duration, [s[0]], k, s[1..]);
      FlattenSegments(duration, [s[0]], k, s[1..]);
      assert [s[0]] + s[1..] == s;
    }
  }

  /** No segment of a split reaches the next segment's start: the store's boundary check passes. */
  lemma SegmentsStayInside(duration: nat, segments: seq<seq<MarketBar>>, s: seq<MarketBar>, i: nat)
    requires duration > 0 && IsSplit(duration, segments, s) && i < |segments|
    ensures
      var segment := segments[i];
      segment != [] && segment[|segment| - 1].time < StartOf(duration, Index(duration, segment[0].time)) + duration
  {
    hide Index, StartOf, InBucket;
    var segment := segments[i];
    var k := SegmentOf(duration, segment);
    InBucketMembers(duration, k, s);
    assert segment[|segment| - 1] in segment;
    BucketBounds(duration, segment[|segment| - 1].time, k);
    StartsGrow(duration, k, k + 1);
  }
}
