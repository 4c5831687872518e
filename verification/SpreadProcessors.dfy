/**
 Restoration of bid and ask from trade prices. The four processors differ only in
 how they find the spread, so one class carries the fields of all of them and
 dispatches on the configured model.
 */
module SpreadProcessors {
  import opened Ticks

  const SECOND_MS: nat := 1000
  const SECONDS: nat := 3600

  datatype Option<+T> = None | Some(value: T)

  datatype Model = NoSpread | FixedSpread | DynamicSpread | MedianSpread

  /**
   What the processors remember from hour to hour: `m_prev_spread` of one, `m_prev_spread`
   and `m_prev2_spread` of the other.
   */
  datatype Spreads = Spreads(dynamic: int, median: int, median2: int)

  /** The remembered spreads together with the spread the next quote uses. */
  datatype Quoting = Quoting(spreads: Spreads, current: int)

  datatype Config = Config(model: Model, seed: int, differs: (int, int) -> bool)

  // ---------------------------------------------------------------------------
  // Meaning: one tick after another
  // ---------------------------------------------------------------------------

  /** The size of an opposite-side price move: a buy above the preceding sell, or a sell below the preceding buy. */
  function Move(previous: Tick, tick: Tick): Option<int> {
    if tick.flags.fromBuy then
      if previous.flags.fromSell && tick.last > previous.last then Some(tick.last - previous.last) else None
    else
      if previous.flags.fromBuy && tick.last < previous.last then Some(previous.last - tick.last) else None
  }

  function MedianFilter(a: int, b: int, c: int): int {
    if (a >= b && a <= c) || (a <= b && a >= c) then a
    else if (b >= a && b <= c) || (b <= a && b >= c) then b
    else c
  }

  function OnMove(model: Model, q: Quoting, move: Option<int>): Quoting {
    if move.None? then q
    else match model
      case NoSpread => q
      case FixedSpread => q
      case DynamicSpread => Quoting(q.spreads.(dynamic := move.value), move.value)
      case MedianSpread =>
        Quoting(q.spreads.(median2 := q.spreads.median, median := move.value),
                MedianFilter(q.spreads.median2, q.spreads.median, move.value))
  }

  /** The quoting state at the start of an hour, with or without a preceding tick. */
  function HourStart(config: Config, hasPrevious: bool, spreads: Spreads): Quoting {
    match config.model
    case NoSpread => Quoting(spreads, config.seed)
    case FixedSpread => Quoting(spreads, config.seed)
    case DynamicSpread =>
      if hasPrevious then Quoting(spreads, spreads.dynamic)
      else Quoting(spreads.(dynamic := config.seed), config.seed)
    case MedianSpread =>
      if hasPrevious then Quoting(spreads, spreads.median)
      else Quoting(spreads.(median := config.seed, median2 := config.seed), config.seed)
  }

  predicate HasSide(tick: Tick) { tick.flags.fromBuy || tick.flags.fromSell }

  function WithQuote(tick: Tick, spread: int): Tick {
    if tick.flags.fromBuy then tick.(ask := tick.last, bid := tick.last - spread)
    else tick.(bid := tick.last, ask := tick.last + spread)
  }

  function Marked(tick: Tick): Tick { tick.(flags := tick.flags.(askUpdated := true, bidUpdated := true)) }

  /** The first tick is compared with the last tick of the hour before. */
  function FlagFirst(config: Config, previous: Option<Tick>, tick: Tick): Tick {
    if previous.Some? && config.differs(tick.last, previous.value.last)
    then tick.(flags := tick.flags.(lastUpdated := true))
    else tick
  }

  /** The first tick of an hour is always quoted. */
  function FirstTick(config: Config, previous: Option<Tick>, spreads: Spreads, tick: Tick): (Tick, Quoting) {
    var t := FlagFirst(config, previous, tick);
    if config.model.NoSpread? then (t, HourStart(config, previous.Some?, spreads))
    else
      var q := OnMove(config.model, HourStart(config, previous.Some?, spreads),
                      if previous.Some? then Move(previous.value, t) else None);
      (if t.flags.lastUpdated then Marked(WithQuote(t, q.current)) else WithQuote(t, q.current), q)
  }

  /** A later tick is quoted when its price changed; otherwise it copies the quote before it. */
  function NextTick(config: Config, previous: Tick, q: Quoting, tick: Tick): (Tick, Quoting) {
    if config.model.NoSpread? then (tick, q)
    else if tick.flags.lastUpdated then
      var q' := OnMove(config.model, q, Move(previous, tick));
      (Marked(WithQuote(tick, q'.current)), q')
    else (tick.(bid := previous.bid, ask := previous.ask), q)
  }

  function Rest(config: Config, previous: Tick, q: Quoting, s: seq<Tick>): (seq<Tick>, Quoting)
    decreases |s|
  {
    if s == [] then ([], q)
    else
      var (t, q') := NextTick(config, previous, q, s[0]);
      var (rest, end) := Rest(config, t, q', s[1..]);
      ([t] + rest, end)
  }

  /** A whole hour: its restored ticks and the state it leaves behind. */
  function Hour(config: Config, previous: Option<Tick>, spreads: Spreads, s: seq<Tick>): (seq<Tick>, Quoting)
    requires s != []
  {
    var (t, q) := FirstTick(config, previous, spreads, s[0]);
    var (rest, end) := Rest(config, t, q, s[1..]);
    ([t] + rest, end)
  }

  /** No tick that has to be quoted lacks a side: the processors throw otherwise. */
  predicate Quotable(config: Config, s: seq<Tick>)
    requires s != []
  {
    config.model.NoSpread? || (HasSide(s[0]) && RestQuotable(s[1..]))
  }

  predicate RestQuotable(s: seq<Tick>) {
    s == [] || ((s[0].flags.lastUpdated ==> HasSide(s[0])) && RestQuotable(s[1..]))
  }

  // ---------------------------------------------------------------------------
  // The per-second index
  // ---------------------------------------------------------------------------

  /** `c` is the first index whose time reaches `bound`, or the last index when none does. */
  ghost predicate IsFirstAtOrAfter(ticks: seq<Tick>, bound: nat, c: nat) {
    && c < |ticks|
    && (forall j :: 0 <= j < c ==> ticks[j].time < bound)
    && (ticks[c].time >= bound || c == |ticks| - 1)
  }

  /** Entry k of the index points at the first tick of second k. */
  ghost predicate IsIndex(ticks: seq<Tick>, start: nat, chunks: seq<nat>) {
    && |chunks| == 3601
    && forall k :: 1 <= k <= 3600 ==> IsFirstAtOrAfter(ticks, start + 1000 * k, chunks[k])
  }

  /** The state of the index while ticks before `i` have been placed. */
  ghost predicate PartialIndex(ticks: seq<Tick>, start: nat, chunks: seq<nat>, fragment: nat, i: nat) {
    && 1 <= fragment <= SECONDS + 1 == |chunks| && i <= |ticks|
    && (forall k :: 1 <= k < fragment ==>
          chunks[k] < |ticks| && ticks[chunks[k]].time >= start + SECOND_MS * k
          && forall j :: 0 <= j < chunks[k] ==> ticks[j].time < start + SECOND_MS * k)
    && forall j :: 0 <= j < i ==> ticks[j].time < start + SECOND_MS * fragment
  }

  ghost predicate WithinHour(ticks: seq<Tick>, start: nat) {
    forall i :: 0 <= i < |ticks| ==> start <= ticks[i].time < start + HOUR_MS
  }

  /** The inner loop of every processor: tick `i` opens all the seconds up to its own. */
  method PlaceTick(ghost s: seq<Tick>, start: nat, chunks: array<nat>, fragment: nat, i: nat, time: nat)
      returns (next: nat)
    requires i < |s| && time == s[i].time && time < start + HOUR_MS
    requires PartialIndex(s, start, chunks[..], fragment, i)
    modifies chunks
    ensures PartialIndex(s, start, chunks[..], next, i + 1)
    ensures chunks[0] == old(chunks[0])
  {
    next := fragment;
    while time >= start + SECOND_MS * next
      invariant PartialIndex(s, start, chunks[..], next, i)
      invariant chunks[0] == old(chunks[0])
      decreases SECONDS + 1 - next
    {
      chunks[next] := i;
      next := next + 1;
    }
  }

  /** The closing loop: seconds after the last tick point at it. */
  method CloseIndex(ghost s: seq<Tick>, start: nat, chunks: array<nat>, fragment: nat, last: nat)
    requires s != [] && last == |s| - 1
    requires PartialIndex(s, start, chunks[..], fragment, |s|)
    modifies chunks
    ensures IsIndex(s, start, chunks[..])
    ensures chunks[0] == old(chunks[0])
  {
    for k := fragment to chunks.Length
      invariant forall j :: 0 <= j < fragment ==> chunks[j] == old(chunks[j])
      invariant forall j :: fragment <= j < k ==> chunks[j] == last
    {
      chunks[k] := last;
    }
    forall k | 1 <= k <= SECONDS
      ensures IsFirstAtOrAfter(s, start + SECOND_MS * k, chunks[..][k])
    {
      assert k < fragment ==> chunks[..][k] == old(chunks[..])[k];
    }
  }

  // ---------------------------------------------------------------------------
  // The processors
  // ---------------------------------------------------------------------------

  class Processors {
    var spreads: Spreads

    constructor ()
      ensures spreads == Spreads(0, 0, 0)
    {
      spreads := Spreads(0, 0, 0);
    }

    /** Updates the remembered spreads for one move and returns the spread to quote with. */
    method TakeMove(config: Config, current: int, move: Option<int>) returns (r: int)
      modifies this
      ensures Quoting(spreads, r) == OnMove(config.model, Quoting(old(spreads), current), move)
    {
      r := current;
      if move.Some? {
        match config.model {
          case NoSpread =>
          case FixedSpread =>
          case DynamicSpread =>
            spreads := spreads.(dynamic := move.value);
            r := move.value;
          case MedianSpread =>
            r := MedianFilter(spreads.median2, spreads.median, move.value);
            spreads := spreads.(median2 := spreads.median, median := move.value);
        }
      }
    }

    /** The first tick of the hour. */
    method ProcessFirst(config: Config, ticks: array<Tick>, previous: Option<Tick>) returns (ok: bool, current: int)
      requires ticks.Length > 0
      modifies this, ticks
      ensures ok == (config.model.NoSpread? || HasSide(old(ticks[0])))
      ensures ok ==> (ticks[0], Quoting(spreads, current)) == FirstTick(config, previous, old(spreads), old(ticks[0]))
      ensures forall i :: 1 <= i < ticks.Length ==> ticks[i] == old(ticks[i])
    {
      ok, current := true, config.seed;
      ticks[0] := FlagFirst(config, previous, ticks[0]);
      var tick := ticks[0];
      match config.model {
        case NoSpread => return;
        case FixedSpread =>
        case DynamicSpread =>
          if previous.None? { spreads := spreads.(dynamic := config.seed); }
          current := spreads.dynamic;
        case MedianSpread =>
          if previous.None? { spreads := spreads.(median := config.seed, median2 := config.seed); }
          current := spreads.median;
      }
      if !HasSide(tick) { ok := false; return; }
      current := TakeMove(config, current, if previous.Some? then Move(previous.value, tick) else None);
      ticks[0] := if tick.flags.lastUpdated then Marked(WithQuote(tick, current)) else WithQuote(tick, current);
    }

    /** A later tick of the hour. */
    method ProcessNext(config: Config, ticks: array<Tick>, i: nat, current: int) returns (ok: bool, r: int)
      requires 1 <= i < ticks.Length
      modifies this, ticks
      ensures ok == (config.model.NoSpread? || (old(ticks[i]).flags.lastUpdated ==> HasSide(old(ticks[i]))))
      ensures ok ==>
                var next := NextTick(config, ticks[i - 1], Quoting(old(spreads), current), old(ticks[i]));
                (ticks[i], Quoting(spreads, r)) == next
      ensures forall j :: 0 <= j < ticks.Length && j != i ==> ticks[j] == old(ticks[j])
    {
      ok, r := true, current;
      if config.model.NoSpread? { return; }
      var tick, previous := ticks[i], ticks[i - 1];
      if tick.flags.lastUpdated {
        if !HasSide(tick) { ok := false; return; }
        r := TakeMove(config, current, Move(previous, tick));
        ticks[i] := Marked(WithQuote(tick, r));
      } else {
        ticks[i] := tick.(bid := previous.bid, ask := previous.ask);
      }
    }

    /**
     Processes one hour of ticks in place: restores the quotes and rebuilds the
     index. Fails, with the hour half processed, at the first tick that must be
     quoted but has no side.
     */
    method Process(config: Config, ticks: array<Tick>, chunks: array<nat>, previous: Option<Tick>, start: nat)
      returns (ok: bool)
      requires ticks.Length > 0 && WithinHour(ticks[..], start)
      requires chunks.Length == SECONDS + 1
      modifies this, ticks, chunks
      ensures ok == Quotable(config, old(ticks[..]))
      ensures ok ==> (ticks[..], spreads) == (Hour(config, previous, old(spreads), old(ticks[..])).0,
                                              Hour(config, previous, old(spreads), old(ticks[..])).1.spreads)
      ensures ok ==> IsIndex(ticks[..], start, chunks[..])
      ensures chunks[0] == old(chunks[0])
    {
      hide FirstTick, NextTick, OnMove, HasSide, Hour, IsIndex;
      ghost var s, before := ticks[..], spreads;
      var fragment, current := 1, 0;
      assert PartialIndex(s, start, chunks[..], 1, 0);
      ok, current := ProcessFirst(config, ticks, previous);
      if !ok { return; }
      FirstKeepsTrade(config, previous, before, s[0]);
      fragment := PlaceTick(s, start, chunks, fragment, 0, ticks[0].time);
      RestFromOne(config, previous, before, s);
      assert ticks[..1] == [ticks[0]];
      var i := 1;
      while i < ticks.Length
        invariant 1 <= i <= ticks.Length
        invariant forall k :: i <= k < ticks.Length ==> ticks[k] == s[k]
        invariant Quotable(config, s) == (config.model.NoSpread? || RestQuotable(s[i..]))
        invariant HourIs(config, previous, before, s, ticks[..i],
                  Rest(config, ticks[i - 1], Quoting(spreads, current), s[i..]))
        invariant PartialIndex(s, start, chunks[..], fragment, i)
        invariant chunks[0] == old(chunks[0])
      {
        RestStep(config, ticks[i - 1], Quoting(spreads, current), s, i);
        NextKeepsTrade(config, ticks[i - 1], Quoting(spreads, current), s[i]);
        ghost var done := ticks[..i];
        ok, current := ProcessNext(config, ticks, i, current);
        if !ok { return; }
        HourStep(config, previous, before, s, done, ticks[i],
            Rest(config, ticks[i], Quoting(spreads, current), s[i + 1..]));
        assert ticks[..i + 1] == done + [ticks[i]];
        fragment := PlaceTick(s, start, chunks, fragment, i, ticks[i].time);
        i := i + 1;
      }
      assert s[i..] == [];
      HourDone(config, previous, before, s, ticks[..i], ticks[i - 1], Quoting(spreads, current));
      assert ticks[..] == ticks[..i];
      CloseIndex(s, start, chunks, fragment, ticks.Length - 1);
      TimesKept(config, previous, before, s);
      SameIndex(s, ticks[..], start, chunks[..]);
    }
  }

  // ---------------------------------------------------------------------------
  // Lemmas for the loop
  // ---------------------------------------------------------------------------

  ghost predicate HourIs(config: Config, previous: Option<Tick>, spreads: Spreads, s: seq<Tick>,
                         done: seq<Tick>, rest: (seq<Tick>, Quoting))
    requires s != []
  {
    Hour(config, previous, spreads, s) == (done + rest.0, rest.1)
  }

  lemma RestFromOne(config: Config, previous: Option<Tick>, spreads: Spreads, s: seq<Tick>)
    requires s != []
    ensures
      var (t, q) := FirstTick(config, previous, spreads, s[0]);
      HourIs(config, previous, spreads, s, [t], Rest(config, t, q, s[1..]))
  {
  }

  lemma RestStep(config: Config, previous: Tick, q: Quoting, s: seq<Tick>, i: nat)
    requires i < |s|
    ensures RestQuotable(s[i..]) == ((s[i].flags.lastUpdated ==> HasSide(s[i])) && RestQuotable(s[i + 1..]))
    ensures
      var (t, q') := NextTick(config, previous, q, s[i]);
      var (rest, end) := Rest(config, t, q', s[i + 1..]);
      Rest(config, previous, q, s[i..]) == ([t] + rest, end)
  {
    assert s[i..][0] == s[i] && s[i..][1..] == s[i + 1..];
  }

  lemma HourDone(config: Config, previous: Option<Tick>, spreads: Spreads, s: seq<Tick>, done: seq<Tick>, last: Tick,
      q: Quoting)
    requires s != [] && HourIs(config, previous, spreads, s, done, Rest(config, last, q, []))
    ensures Hour(config, previous, spreads, s) == (done, q)
  {
    assert done + [] == done;
  }

  lemma FirstKeepsTrade(config: Config, previous: Option<Tick>, spreads: Spreads, tick: Tick)
    ensures SameTrade(FirstTick(config, previous, spreads, tick).0, tick)
  {
  }

  lemma NextKeepsTrade(config: Config, previous: Tick, q: Quoting, tick: Tick)
    ensures SameTrade(NextTick(config, previous, q, tick).0, tick)
  {
  }

  lemma HourStep(config: Config, previous: Option<Tick>, spreads: Spreads, s: seq<Tick>,
                 done: seq<Tick>, t: Tick, rest: (seq<Tick>, Quoting))
    requires s != [] && HourIs(config, previous, spreads, s, done, ([t] + rest.0, rest.1))
    ensures HourIs(config, previous, spreads, s, done + [t], rest)
  {
    assert done + ([t] + rest.0) == done + [t] + rest.0;
  }

  /** Restoration keeps time, price, volume and side of every tick; only the first may gain the last-price flag. */
  ghost predicate SameTrade(a: Tick, b: Tick) {
    a.time == b.time && a.last == b.last && a.volume == b.volume
    && a.flags.fromBuy == b.flags.fromBuy && a.flags.fromSell == b.flags.fromSell
  }

  lemma {:induction false} RestKeepsTrades(config: Config, previous: Tick, q: Quoting, s: seq<Tick>)
    ensures |Rest(config, previous, q, s).0| == |s|
    ensures forall i :: 0 <= i < |s| ==> SameTrade(Rest(config, previous, q, s).0[i], s[i])
    decreases |s|
  {
    if s != [] {
      var (t, q') := NextTick(config, previous, q, s[0]);
      RestKeepsTrades(config, t, q', s[1..]);
    }
  }

  lemma TimesKept(config: Config, previous: Option<Tick>, spreads: Spreads, s: seq<Tick>)
    requires s != []
    ensures |Hour(config, previous, spreads, s).0| == |s|
    ensures forall i :: 0 <= i < |s| ==> SameTrade(Hour(config, previous, spreads, s).0[i], s[i])
  {
    var (t, q) := FirstTick(config, previous, spreads, s[0]);
    RestKeepsTrades(config, t, q, s[1..]);
  }

  lemma SameIndex(s: seq<Tick>, r: seq<Tick>, start: nat, chunks: seq<nat>)
    requires |r| == |s| && forall i :: 0 <= i < |s| ==> r[i].time == s[i].time
    requires IsIndex(s, start, chunks)
    ensures IsIndex(r, start, chunks)
  {
    forall k | 1 <= k <= SECONDS
      ensures IsFirstAtOrAfter(r, start + SECOND_MS * k, chunks[k])
    {
      assert IsFirstAtOrAfter(s, start + SECOND_MS * k, chunks[k]);
    }
  }
}
