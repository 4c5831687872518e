/** Market ticks. Prices and volumes are integers: the amounts after scaling by the configured power of ten. */
module Ticks {

  const HOUR_MS: nat := 3_600_000

  datatype TickFlags = TickFlags(
    bidUpdated: bool,
    askUpdated: bool,
    lastUpdated: bool,
    volumeUpdated: bool,
    fromBuy: bool,
    fromSell: bool,
    bestMatch: bool
  )

  const NO_FLAGS := TickFlags(false, false, false, false, false, false, false)

  datatype Tick = Tick(time: nat, received: nat, ask: int, bid: int, last: int, volume: int, flags: TickFlags)

  /** What a freshly resized vector holds. */
  const BLANK := Tick(0, 0, 0, 0, 0, 0, NO_FLAGS)

  function Times(ticks: seq<Tick>): (r: seq<nat>)
    ensures |r| == |ticks| && forall i :: 0 <= i < |ticks| ==> r[i] == ticks[i].time
  {
    seq(|ticks|, i requires 0 <= i < |ticks| => ticks[i].time)
  }

  function Prices(ticks: seq<Tick>): (r: seq<int>)
    ensures |r| == |ticks| && forall i :: 0 <= i < |ticks| ==> r[i] == ticks[i].last
  {
    seq(|ticks|, i requires 0 <= i < |ticks| => ticks[i].last)
  }

  function Volumes(ticks: seq<Tick>): (r: seq<int>)
    ensures |r| == |ticks| && forall i :: 0 <= i < |ticks| ==> r[i] == ticks[i].volume
  {
    seq(|ticks|, i requires 0 <= i < |ticks| => ticks[i].volume)
  }
}
