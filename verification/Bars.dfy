/** Market bars. Prices and volumes are integers scaled to the symbol's precision; times are milliseconds. */
module Bars {
  import opened Buckets

  datatype MarketBar = MarketBar(
    time: nat,
    open: int,
    high: int,
    low: int,
    close: int,
    volume: int,
    quoteVolume: int,
    buyVolume: int,
    buyQuoteVolume: int,
    spread: nat,
    tickVolume: nat)

  /** What the default constructor gives. */
  const EMPTY_BAR: MarketBar := MarketBar(0, 0, 0, 0, 0, 0, 0, 0, 0, 0, 0)

  ghost predicate Sorted(s: seq<MarketBar>) {
    forall i, j :: 0 <= i < j < |s| ==> s[i].time <= s[j].time
  }

  /** The vector a caller hands over to be changed. */
  class BarVector {
    var items: seq<MarketBar>

    constructor (items: seq<MarketBar>)
      ensures this.items == items
    {
      this.items := items;
    }
  }

  // ---------------------------------------------------------------------------
  // Bars of one bucket
  // ---------------------------------------------------------------------------

  /** The input bars of one bucket, in order. */
  function InBucket(target: nat, k: nat, s: seq<MarketBar>): seq<MarketBar>
    requires target > 0
    decreases |s|
  {
    if s == [] then []
    else (if Index(target, s[0].time) == k then [s[0]] else []) + InBucket(target, k, s[1..])
  }

  lemma {:induction false} InBucketOfConcat(target: nat, k: nat, a: seq<MarketBar>, b: seq<MarketBar>)
    requires target > 0
    ensures InBucket(target, k, a + b) == InBucket(target, k, a) + InBucket(target, k, b)
    decreases |a|
  {
    if a == [] {
      assert a + b == b;
    } else {
      InBucketOfConcat(target, k, a[1..], b);
      assert (a + b)[1..] == a[1..] + b;
    }
  }

  lemma {:induction false} InBucketAllOrNone(target: nat, k: nat, s: seq<MarketBar>)
    requires target > 0
    ensures (forall i :: 0 <= i < |s| ==> Index(target, s[i].time) == k) ==> InBucket(target, k, s) == s
    ensures (forall i :: 0 <= i < |s| ==> Index(target, s[i].time) != k) ==> InBucket(target, k, s) == []
    decreases |s|
  {
    if s != [] {
      InBucketAllOrNone(target, k, s[1..]);
      assert forall i :: 0 <= i < |s| - 1 ==> s[1..][i] == s[i + 1];
    }
  }

  ghost predicate AllInBucket(target: nat, k: nat, s: seq<MarketBar>)
    requires target > 0
  {
    forall i :: 0 <= i < |s| ==> Index(target, s[i].time) == k
  }

  lemma TimesGrow(target: nat, s: seq<MarketBar>, k: nat)
    requires target > 0 && Sorted(s) && s != [] && Index(target, s[0].time) > k
    ensures forall i :: 0 <= i < |s| ==> Index(target, s[i].time) > k
  {
    hide Index;
    forall i | 0 <= i < |s| ensures Index(target, s[i].time) > k { IndexGrows(target, s[0].time, s[i].time); }
  }
}
