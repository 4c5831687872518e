/** What the restored spreads are, stated on the incoming ticks alone: by the price moves seen so far. */
module SpreadLaws {
  import opened Ticks
  import opened SpreadProcessors
  import Sequences

  /** The move that tick `i` makes, if it is quoted: against the tick before it, or the last tick of the hour before. */
  function QualifyingMove(previous: Option<Tick>, s: seq<Tick>, i: nat): Option<int>
    requires i < |s|
  {
    if i == 0 then if previous.Some? then Move(previous.value, s[0]) else None
    else if s[i].flags.lastUpdated then Move(s[i - 1], s[i])
    else None
  }

  /** All qualifying moves among the first `n` ticks of an hour, oldest first. */
  function MovesUpTo(previous: Option<Tick>, s: seq<Tick>, n: nat): seq<int>
    requires n <= |s|
  {
    if n == 0 then []
    else
      MovesUpTo(previous, s, n - 1)
      + match QualifyingMove(previous, s, n - 1) case None => [] case Some(d) => [d]
  }

  function SpreadOf(tick: Tick): int { tick.ask - tick.bid }

  function Latest(s: seq<int>): int
    requires s != []
  {
    s[|s| - 1]
  }

  // ---------------------------------------------------------------------------
  // Hours grow at the end
  // ---------------------------------------------------------------------------

  lemma {:induction false} RestSnoc(config: Config, previous: Tick, q: Quoting, s: seq<Tick>, t: Tick)
    ensures
      var (done, q') := Rest(config, previous, q, s);
      var (t', q'') := NextTick(config, if done == [] then previous else done[|done| - 1], q', t);
      Rest(config, previous, q, s + [t]) == (done + [t'], q'')
    decreases |s|
  {
    hide NextTick;
    if s == [] {
      var (t', q') := NextTick(config, previous, q, t);
      assert s + [t] == [t] && [t][1..] == [];
      assert Rest(config, t', q', []) == ([], q');
      assert [t'] + [] == [] + [t'];
    } else {
      var (p, q1) := NextTick(config, previous, q, s[0]);
      var (rest, end) := Rest(config, p, q1, s[1..]);
      RestSnoc(config, p, q1, s[1..], t);
      assert (s + [t])[1..] == s[1..] + [t];
      var last := if rest == [] then p else rest[|rest| - 1];
      var (t', q'') := NextTick(config, last, end, t);
      assert [p] + (rest + [t']) == ([p] + rest) + [t'];
    }
  }

  lemma HourSnoc(config: Config, previous: Option<Tick>, spreads: Spreads, s: seq<Tick>, t: Tick)
    requires s != []
    ensures
      var (done, q) := Hour(config, previous, spreads, s);
      var (t', q') := NextTick(config, done[|done| - 1], q, t);
      Hour(config, previous, spreads, s + [t]) == (done + [t'], q')
  {
    hide NextTick, FirstTick;
    var (p, q0) := FirstTick(config, previous, spreads, s[0]);
    RestSnoc(config, p, q0, s[1..], t);
    assert (s + [t])[1..] == s[1..] + [t];
    var (rest, end) := Rest(config, p, q0, s[1..]);
    var last := ([p] + rest)[|[p] + rest| - 1];
    assert last == if rest == [] then p else rest[|rest| - 1];
    var (t', q') := NextTick(config, last, end, t);
    assert [p] + (rest + [t']) == ([p] + rest) + [t'];
  }

  /** What happened to the first ticks of an hour does not depend on the later ones. */
  lemma {:induction false} HourPrefix(config: Config, previous: Option<Tick>, spreads: Spreads, s: seq<Tick>, n: nat)
    requires 0 < n <= |s|
    ensures |Hour(config, previous, spreads, s).0| == |s|
    ensures Hour(config, previous, spreads, s[..n]).0 == Hour(config, previous, spreads, s).0[..n]
    decreases |s|
  {
    TimesKept(config, previous, spreads, s);
    if n == |s| {
      assert s[..n] == s;
    } else {
      var init := s[..|s| - 1];
      assert init + [s[|s| - 1]] == s && init[..n] == s[..n];
      HourSnoc(config, previous, spreads, init, s[|s| - 1]);
      HourPrefix(config, previous, spreads, init, n);
    }
  }

  lemma {:induction false} MovesOfPrefix(previous: Option<Tick>, s: seq<Tick>, m: nat, n: nat)
    requires n <= m <= |s|
    ensures MovesUpTo(previous, s[..m], n) == MovesUpTo(previous, s, n)
  {
    if n > 0 { MovesOfPrefix(previous, s, m, n - 1); }
  }

  lemma MoveOfPrefix(previous: Option<Tick>, s: seq<Tick>, m: nat, i: nat)
    requires i < m <= |s|
    ensures QualifyingMove(previous, s[..m], i) == QualifyingMove(previous, s, i)
  {
  }

  // ---------------------------------------------------------------------------
  // The quotes and the flags, tick by tick
  // ---------------------------------------------------------------------------

  /**
   A tick moves against the one before it when it is a buy above a sell, or not a buy
   and below a buy; the move is the price difference.
   */
  lemma QualifyingMoveIs(previous: Option<Tick>, s: seq<Tick>, i: nat)
    requires i < |s|
    ensures
      var move := QualifyingMove(previous, s, i);
      if i == 0 && previous.None? then move.None?
      else
        var p, t := if i == 0 then previous.value else s[i - 1], s[i];
        var up := t.flags.fromBuy && p.flags.fromSell && t.last > p.last;
        var down := !t.flags.fromBuy && p.flags.fromBuy && t.last < p.last;
        && (move.Some? <==> (i == 0 || t.flags.lastUpdated) && (up || down))
        && (move.Some? ==> move.value == if up then t.last - p.last else p.last - t.last)
  {
  }

  /** Every later tick of the hour is restored from the tick restored before it. */
  lemma TickOfHour(config: Config, previous: Option<Tick>, spreads: Spreads, s: seq<Tick>, i: nat)
    requires i < |s|
    ensures |Hour(config, previous, spreads, s).0| == |s|
    ensures i == 0 ==> Hour(config, previous, spreads, s).0[0] == FirstTick(config, previous, spreads, s[0]).0
    ensures i > 0 ==>
              var r, q := Hour(config, previous, spreads, s).0, Hour(config, previous, spreads, s[..i]).1;
              r[i] == NextTick(config, r[i - 1], q, s[i]).0
  {
    hide FirstTick, NextTick, OnMove;
    TimesKept(config, previous, spreads, s);
    if i > 0 {
      hide Hour;
      HourPrefix(config, previous, spreads, s, i + 1);
      HourPrefix(config, previous, spreads, s, i);
      HourSnoc(config, previous, spreads, s[..i], s[i]);
      assert s[..i] + [s[i]] == s[..i + 1];
      var r := Hour(config, previous, spreads, s).0;
      assert r[..i + 1][i] == r[i] && r[..i][i - 1] == r[i - 1];
    }
  }

  /** A tick is quoted when it is the first of its hour or its price changed. */
  predicate IsQuoted(s: seq<Tick>, i: nat)
    requires i < |s|
  {
    i == 0 || s[i].flags.lastUpdated
  }

  /** The processors accept an hour exactly when every tick they quote is a buy or a sell. */
  lemma QuotableIs(config: Config, s: seq<Tick>)
    requires s != []
    ensures Quotable(config, s) <==>
            || config.model.NoSpread?
            || forall i :: 0 <= i < |s| && IsQuoted(s, i) ==> s[i].flags.fromBuy || s[i].flags.fromSell
  {
    RestQuotableIs(s, 1);
    assert IsQuoted(s, 0);
  }

  lemma {:induction false} RestQuotableIs(s: seq<Tick>, n: nat)
    requires 0 < n <= |s|
    ensures RestQuotable(s[n..]) <==>
            forall i :: n <= i < |s| && IsQuoted(s, i) ==> s[i].flags.fromBuy || s[i].flags.fromSell
    decreases |s| - n
  {
    if n < |s| {
      RestQuotableIs(s, n + 1);
      assert s[n..][0] == s[n] && s[n..][1..] == s[n + 1..];
      assert IsQuoted(s, n) <==> s[n].flags.lastUpdated;
    }
  }

  /**
   The side of the trade tells which quote the price is: a quoted buy happened at the
   ask, any other quoted tick at the bid. A tick that is not quoted repeats the quotes
   before it. Without a spread model both quotes stay what they were.
   */
  lemma QuoteLaw(config: Config, previous: Option<Tick>, spreads: Spreads, s: seq<Tick>, i: nat)
    requires i < |s|
    ensures |Hour(config, previous, spreads, s).0| == |s|
    ensures
      var r := Hour(config, previous, spreads, s).0;
      if config.model.NoSpread? then r[i].ask == s[i].ask && r[i].bid == s[i].bid
      else
        && (IsQuoted(s, i) && s[i].flags.fromBuy ==> r[i].ask == s[i].last)
        && (IsQuoted(s, i) && !s[i].flags.fromBuy ==> r[i].bid == s[i].last)
        && (!IsQuoted(s, i) ==> r[i].ask == r[i - 1].ask && r[i].bid == r[i - 1].bid)
  {
    hide OnMove, Move, Hour;
    TickOfHour(config, previous, spreads, s, i);
  }

  /**
   The flags that restoration leaves: the first tick gains the last-price flag when its
   price differs from the tick before the hour, a tick with that flag gains the ask and
   bid flags if there is a spread model, and nothing else changes.
   */
  lemma FlagLaw(config: Config, previous: Option<Tick>, spreads: Spreads, s: seq<Tick>, i: nat)
    requires i < |s|
    ensures |Hour(config, previous, spreads, s).0| == |s|
    ensures
      var r := Hour(config, previous, spreads, s).0[i];
      var gained := i == 0 && previous.Some? && config.differs(s[0].last, previous.value.last);
      var marked := !config.model.NoSpread? && r.flags.lastUpdated;
      && r.flags.lastUpdated == (s[i].flags.lastUpdated || gained)
      && r.flags.askUpdated == (s[i].flags.askUpdated || marked)
      && r.flags.bidUpdated == (s[i].flags.bidUpdated || marked)
      && r.flags.volumeUpdated == s[i].flags.volumeUpdated
      && r.flags.bestMatch == s[i].flags.bestMatch
      && r.received == s[i].received
  {
    hide OnMove, Move, Hour;
    TickOfHour(config, previous, spreads, s, i);
  }

  // ---------------------------------------------------------------------------
  // One hour
  // ---------------------------------------------------------------------------

  /** The raw spreads known when the hour starts. */
  function Known(config: Config, previous: Option<Tick>, spreads: Spreads): seq<int> {
    match config.model
    case NoSpread => [config.seed]
    case FixedSpread => [config.seed]
    case DynamicSpread => if previous.Some? then [spreads.dynamic] else [config.seed]
    case MedianSpread => if previous.Some? then [spreads.median2, spreads.median] else [config.seed, config.seed]
  }

  /** What the processor remembers, in terms of all raw spreads seen. */
  ghost predicate Remembers(config: Config, q: Quoting, seen: seq<int>) {
    match config.model
    case NoSpread => true
    case FixedSpread => q.current == config.seed
    case DynamicSpread => seen != [] && q.spreads.dynamic == q.current == Latest(seen)
    case MedianSpread =>
      |seen| >= 2 && q.spreads.median == Latest(seen) && q.spreads.median2 == Latest(seen[..|seen| - 1])
  }

  lemma OnMoveRemembers(config: Config, q: Quoting, seen: seq<int>, move: Option<int>)
    requires Remembers(config, q, seen)
    ensures
      var seen' := seen + match move case None => [] case Some(d) => [d];
      var q' := OnMove(config.model, q, move);
      && Remembers(config, q', seen')
      && (config.model.MedianSpread? && move.Some? ==>
            q'.current == MedianFilter(seen'[|seen'| - 3], seen'[|seen'| - 2], seen'[|seen'| - 1]))
      && (move.None? ==> q' == q)
  {
    match move
    case None =>
      assert seen + [] == seen;
    case Some(d) =>
      assert (seen + [d])[..|seen|] == seen;
  }

  function Seen(config: Config, previous: Option<Tick>, spreads: Spreads, s: seq<Tick>, n: nat): seq<int>
    requires n <= |s|
  {
    Known(config, previous, spreads) + MovesUpTo(previous, s, n)
  }

  lemma MoveOfSameTrade(a: Tick, b: Tick, t: Tick)
    requires SameTrade(a, b)
    ensures Move(a, t) == Move(b, t)
  {
  }

  /** The carried state and the last quote of a non-empty stretch of an hour. */
  ghost predicate Law(config: Config, previous: Option<Tick>, spreads: Spreads, s: seq<Tick>)
    requires s != []
  {
    var (r, q) := Hour(config, previous, spreads, s);
    && |r| == |s|
    && Remembers(config, q, Seen(config, previous, spreads, s, |s|))
    && SpreadOf(r[|r| - 1]) == q.current
  }

  /** The first tick takes the hour's starting state through its qualifying move and is quoted with the result. */
  lemma FirstQuoted(config: Config, previous: Option<Tick>, spreads: Spreads, t: Tick)
    requires !config.model.NoSpread?
    ensures
      var (p, q) := FirstTick(config, previous, spreads, t);
      && q == OnMove(config.model, HourStart(config, previous.Some?, spreads), QualifyingMove(previous, [t], 0))
      && SpreadOf(p) == q.current
      && Hour(config, previous, spreads, [t]) == ([p], q)
  {
    hide OnMove, HourStart;
    var (p, q) := FirstTick(config, previous, spreads, t);
    assert [t][1..] == [] && [p] + [] == [p];
  }

  lemma FirstLaw(config: Config, previous: Option<Tick>, spreads: Spreads, t: Tick)
    requires !config.model.NoSpread?
    ensures Law(config, previous, spreads, [t])
  {
    FirstQuoted(config, previous, spreads, t);
    var q := HourStart(config, previous.Some?, spreads);
    var known := Known(config, previous, spreads);
    assert Remembers(config, q, known);
    hide Hour, FirstTick, HourStart, Known, OnMove, Remembers, QualifyingMove;
    OnMoveRemembers(config, q, known, QualifyingMove(previous, [t], 0));
    assert MovesUpTo(previous, [t], 0) == [];
    assert known + [] == known;
  }

  /** One more tick adds its qualifying move, if it has one, to the spreads seen. */
  lemma SeenSnoc(config: Config, previous: Option<Tick>, spreads: Spreads, s: seq<Tick>, t: Tick)
    requires s != []
    ensures
      var move := QualifyingMove(previous, s + [t], |s|);
      Seen(config, previous, spreads, s + [t], |s| + 1)
      == Seen(config, previous, spreads, s, |s|) + match move case None => [] case Some(d) => [d]
  {
    hide QualifyingMove, Known;
    var n, all := |s|, s + [t];
    MovesOfPrefix(previous, all, n, n);
    assert all[..n] == s;
    var moved := match QualifyingMove(previous, all, n) case None => [] case Some(d) => [d];
    assert MovesUpTo(previous, all, n + 1) == MovesUpTo(previous, all, n) + moved;
  }

  /** The move that counts for the tick after `s` is the one the processor measures against its last restored tick. */
  lemma MoveAgainstRestored(config: Config, previous: Option<Tick>, spreads: Spreads, s: seq<Tick>, t: Tick)
    requires s != []
    ensures
      var r := Hour(config, previous, spreads, s).0;
      |r| == |s| && QualifyingMove(previous, s + [t], |s|) == if t.flags.lastUpdated then Move(r[|s| - 1], t) else None
  {
    hide Hour, Move;
    TimesKept(config, previous, spreads, s);
    var r := Hour(config, previous, spreads, s).0;
    MoveOfSameTrade(r[|s| - 1], s[|s| - 1], t);
    assert (s + [t])[|s|] == t && (s + [t])[|s| - 1] == s[|s| - 1];
  }

  lemma NextLaw(config: Config, previous: Option<Tick>, spreads: Spreads, s: seq<Tick>, t: Tick)
    requires !config.model.NoSpread? && s != [] && Law(config, previous, spreads, s)
    ensures Law(config, previous, spreads, s + [t])
  {
    hide Hour, Move, Seen, QualifyingMove, Remembers;
    var (r, q) := Hour(config, previous, spreads, s);
    HourSnoc(config, previous, spreads, s, t);
    MoveAgainstRestored(config, previous, spreads, s, t);
    OnMoveRemembers(config, q, Seen(config, previous, spreads, s, |s|), QualifyingMove(previous, s + [t], |s|));
    SeenSnoc(config, previous, spreads, s, t);
  }

  lemma {:induction false} HourLaw(config: Config, previous: Option<Tick>, spreads: Spreads, s: seq<Tick>)
    requires !config.model.NoSpread? && s != []
    ensures Law(config, previous, spreads, s)
    decreases |s|
  {
    if |s| == 1 {
      FirstLaw(config, previous, spreads, s[0]);
      assert s == [s[0]];
    } else {
      var init := s[..|s| - 1];
      HourLaw(config, previous, spreads, init);
      NextLaw(config, previous, spreads, init, s[|s| - 1]);
      assert init + [s[|s| - 1]] == s;
    }
  }

  lemma LawAt(config: Config, previous: Option<Tick>, spreads: Spreads, s: seq<Tick>, i: nat)
    requires !config.model.NoSpread? && i < |s|
    ensures |Hour(config, previous, spreads, s).0| == |s|
    ensures Remembers(config, Hour(config, previous, spreads, s[..i + 1]).1, Seen(config, previous, spreads, s, i + 1))
    ensures SpreadOf(Hour(config, previous, spreads, s).0[i]) == Hour(config, previous, spreads, s[..i + 1]).1.current
  {
    HourLaw(config, previous, spreads, s[..i + 1]);
    HourPrefix(config, previous, spreads, s, i + 1);
    MovesOfPrefix(previous, s, i + 1, i + 1);
    var r := Hour(config, previous, spreads, s).0;
    assert r[..i + 1][i] == r[i];
  }

  /** Fixed model: the configured constant on every tick, copied quotes included. */
  lemma FixedSpreadLaw(config: Config, previous: Option<Tick>, spreads: Spreads, s: seq<Tick>, i: nat)
    requires config.model.FixedSpread? && i < |s|
    ensures |Hour(config, previous, spreads, s).0| == |s|
    ensures SpreadOf(Hour(config, previous, spreads, s).0[i]) == config.seed
  {
    LawAt(config, previous, spreads, s, i);
  }

  /** Dynamic model: every tick, quoted or copied, shows the latest qualifying move known at that point. */
  lemma DynamicSpreadLaw(config: Config, previous: Option<Tick>, spreads: Spreads, s: seq<Tick>, i: nat)
    requires config.model.DynamicSpread? && i < |s|
    ensures |Hour(config, previous, spreads, s).0| == |s|
    ensures SpreadOf(Hour(config, previous, spreads, s).0[i]) == Latest(Seen(config, previous, spreads, s, i + 1))
  {
    LawAt(config, previous, spreads, s, i);
  }

  /** The filter picks the middle one of its three arguments. */
  lemma MedianFilterIsMedian(a: int, b: int, c: int)
    ensures
      var m := MedianFilter(a, b, c);
      && (m == a || m == b || m == c)
      && (a <= m <= b || b <= m <= a || a <= m <= c || c <= m <= a || b <= m <= c || c <= m <= b)
      && (m <= a || m <= b) && (m <= a || m <= c) && (m <= b || m <= c)
      && (m >= a || m >= b) && (m >= a || m >= c) && (m >= b || m >= c)
  {
  }

  /**
   Median model: a move sets the quoted spread to the median of the last three raw
   spreads; a tick without a move shows what the tick before it showed, and at the
   start of an hour the last raw spread, not the last median.
   */
  lemma MedianSpreadLaw(config: Config, previous: Option<Tick>, spreads: Spreads, s: seq<Tick>, i: nat)
    requires config.model.MedianSpread? && i < |s|
    ensures |Hour(config, previous, spreads, s).0| == |s|
    ensures
      var r := Hour(config, previous, spreads, s).0;
      var seen := Seen(config, previous, spreads, s, i + 1);
      && (QualifyingMove(previous, s, i).Some? ==>
            |seen| >= 3 && SpreadOf(r[i]) == MedianFilter(seen[|seen| - 3], seen[|seen| - 2], seen[|seen| - 1]))
      && (QualifyingMove(previous, s, i).None? && i > 0 ==> SpreadOf(r[i]) == SpreadOf(r[i - 1]))
      && (QualifyingMove(previous, s, i).None? && i == 0 ==> SpreadOf(r[i]) == Latest(Known(config, previous, spreads)))
  {
    hide Hour, MedianFilter, QualifyingMove, Known, MovesUpTo, Move, Remembers;
    LawAt(config, previous, spreads, s, i);
    MoveOfPrefix(previous, s, i + 1, i);
    if i == 0 {
      MedianFirst(config, previous, spreads, s[0]);
      assert s[..1] == [s[0]];
      MovesOfPrefix(previous, s, 1, 1);
    } else {
      LawAt(config, previous, spreads, s, i - 1);
      MedianNext(config, previous, spreads, s[..i], s[i]);
      assert s[..i] + [s[i]] == s[..i + 1];
      MovesOfPrefix(previous, s, i + 1, i + 1);
    }
  }

  lemma MedianFirst(config: Config, previous: Option<Tick>, spreads: Spreads, t: Tick)
    requires config.model.MedianSpread?
    ensures
      var q := Hour(config, previous, spreads, [t]).1;
      var seen := Seen(config, previous, spreads, [t], 1);
      var move := QualifyingMove(previous, [t], 0);
      && (move.Some? ==> |seen| >= 3 && q.current == MedianFilter(seen[|seen| - 3], seen[|seen| - 2], seen[|seen| - 1]))
      && (move.None? ==> q.current == Latest(Known(config, previous, spreads)))
  {
    hide MedianFilter;
    var q, known := HourStart(config, previous.Some?, spreads), Known(config, previous, spreads);
    assert Remembers(config, q, known);
    OnMoveRemembers(config, q, known, QualifyingMove(previous, [t], 0));
    assert MovesUpTo(previous, [t], 0) == [];
    assert known + [] == known;
  }

  lemma MedianNext(config: Config, previous: Option<Tick>, spreads: Spreads, s: seq<Tick>, t: Tick)
    requires config.model.MedianSpread? && s != []
    ensures
      var before := Hour(config, previous, spreads, s).1;
      var q := Hour(config, previous, spreads, s + [t]).1;
      var seen := Seen(config, previous, spreads, s + [t], |s| + 1);
      var move := QualifyingMove(previous, s + [t], |s|);
      && (move.Some? ==> |seen| >= 3 && q.current == MedianFilter(seen[|seen| - 3], seen[|seen| - 2], seen[|seen| - 1]))
      && (move.None? ==> q.current == before.current)
  {
    hide Hour, MedianFilter, Move, Seen, QualifyingMove;
    var q := Hour(config, previous, spreads, s).1;
    HourLaw(config, previous, spreads, s);
    HourSnoc(config, previous, spreads, s, t);
    MoveAgainstRestored(config, previous, spreads, s, t);
    OnMoveRemembers(config, q, Seen(config, previous, spreads, s, |s|), QualifyingMove(previous, s + [t], |s|));
    SeenSnoc(config, previous, spreads, s, t);
  }

  // ---------------------------------------------------------------------------
  // Runs of hours
  // ---------------------------------------------------------------------------

  ghost predicate NonEmptyHours(hours: seq<seq<Tick>>) {
    forall i :: 0 <= i < |hours| ==> hours[i] != []
  }

  /** The last tick of the last hour. */
  function LastTick(hours: seq<seq<Tick>>): Option<Tick>
    requires NonEmptyHours(hours)
  {
    if hours == [] then None else Some(hours[|hours| - 1][|hours[|hours| - 1]| - 1])
  }

  /** Two ticks that stand for the same trade, or none at all. */
  ghost predicate SamePrevious(a: Option<Tick>, b: Option<Tick>) {
    a.Some? == b.Some? && (a.Some? ==> SameTrade(a.value, b.value))
  }

  /**
   An hour depends on the tick before it only through the trade, so the incoming tick and
   the restored one do equally well.
   */
  lemma HourDependsOnTrade(config: Config, a: Option<Tick>, b: Option<Tick>, spreads: Spreads, s: seq<Tick>)
    requires s != [] && SamePrevious(a, b)
    ensures Hour(config, a, spreads, s) == Hour(config, b, spreads, s)
  {
    hide Rest, OnMove;
    assert FirstTick(config, a, spreads, s[0]) == FirstTick(config, b, spreads, s[0]);
  }

  /** The remembered spreads after consecutive hours, each processed with the last tick of the one before. */
  function RunSpreads(config: Config, initial: Spreads, hours: seq<seq<Tick>>): Spreads
    requires NonEmptyHours(hours)
    decreases |hours|
  {
    if hours == [] then initial
    else
      var n := |hours| - 1;
      Hour(config, LastTick(hours[..n]), RunSpreads(config, initial, hours[..n]), hours[n]).1.spreads
  }

  /** Every qualifying move of the run, oldest first, moves across the hour boundaries included. */
  function RunMoves(hours: seq<seq<Tick>>): seq<int>
    requires NonEmptyHours(hours)
    decreases |hours|
  {
    if hours == [] then []
    else
      var n := |hours| - 1;
      RunMoves(hours[..n]) + MovesUpTo(LastTick(hours[..n]), hours[n], |hours[n]|)
  }

  function Seeds(config: Config): seq<int> {
    if config.model.MedianSpread? then [config.seed, config.seed] else [config.seed]
  }

  /** The remembered raw spreads are the last ones of `seen`. */
  ghost predicate RemembersTail(config: Config, spreads: Spreads, seen: seq<int>) {
    match config.model
    case NoSpread => true
    case FixedSpread => true
    case DynamicSpread => seen != [] && spreads.dynamic == Latest(seen)
    case MedianSpread => |seen| >= 2 && spreads.median == Latest(seen) && spreads.median2 == Latest(seen[..|seen| - 1])
  }

  /** After any run the remembered raw spreads are the last ones of: seed, then every move of every hour. */
  lemma {:induction false} RunLaw(config: Config, initial: Spreads, hours: seq<seq<Tick>>)
    requires !config.model.NoSpread? && NonEmptyHours(hours) && hours != []
    ensures RemembersTail(config, RunSpreads(config, initial, hours), Seeds(config) + RunMoves(hours))
    decreases |hours|
  {
    hide Hour, MovesUpTo, Remembers, RemembersTail, Seeds, Known;
    var n := |hours| - 1;
    var previous, before := LastTick(hours[..n]), RunSpreads(config, initial, hours[..n]);
    var moves := MovesUpTo(previous, hours[n], |hours[n]|);
    var earlier := Seeds(config) + RunMoves(hours[..n]);
    if n > 0 {
      RunLaw(config, initial, hours[..n]);
    }
    HourContinues(config, previous, before, hours[n], earlier);
    assert RunMoves(hours) == RunMoves(hours[..n]) + moves;
    Sequences.Regroup(Seeds(config), RunMoves(hours[..n]), moves);
  }

  /** One more hour, after a run or at its beginning. */
  lemma HourContinues(config: Config, previous: Option<Tick>, spreads: Spreads, hour: seq<Tick>, earlier: seq<int>)
    requires !config.model.NoSpread? && hour != []
    requires previous.None? ==> earlier == Seeds(config)
    requires previous.Some? ==> RemembersTail(config, spreads, earlier)
    ensures RemembersTail(config, Hour(config, previous, spreads, hour).1.spreads,
            earlier + MovesUpTo(previous, hour, |hour|))
  {
    hide Hour, MovesUpTo;
    HourLawOnly(config, previous, spreads, hour);
    KnownIsTail(config, previous, spreads, earlier, MovesUpTo(previous, hour, |hour|));
  }

  lemma HourLawOnly(config: Config, previous: Option<Tick>, spreads: Spreads, s: seq<Tick>)
    requires !config.model.NoSpread? && s != []
    ensures Remembers(config, Hour(config, previous, spreads, s).1,
            Known(config, previous, spreads) + MovesUpTo(previous, s, |s|))
  {
    HourLaw(config, previous, spreads, s);
  }

  /** What is known at the start of an hour is the end of what was seen before it. */
  lemma KnownIsTail(config: Config, previous: Option<Tick>, spreads: Spreads, earlier: seq<int>, moves: seq<int>)
    requires previous.None? ==> earlier == Seeds(config)
    requires previous.Some? ==> RemembersTail(config, spreads, earlier)
    ensures
      var near, far := Known(config, previous, spreads) + moves, earlier + moves;
      && (config.model.DynamicSpread? ==> far != [] && Latest(far) == Latest(near))
      && (config.model.MedianSpread? ==>
            |far| >= 2 && Latest(far) == Latest(near) && Latest(far[..|far| - 1]) == Latest(near[..|near| - 1]))
  {
  }

  /**
   Dynamic model over a whole run: the spread of any tick is the latest move of the run up
   to that tick, or the seed.
   */
  lemma DynamicOverRun(config: Config, initial: Spreads, hours: seq<seq<Tick>>, hour: seq<Tick>, i: nat)
    requires config.model.DynamicSpread? && NonEmptyHours(hours) && i < |hour|
    ensures
      var r := Hour(config, LastTick(hours), RunSpreads(config, initial, hours), hour).0;
      |r| == |hour|
      && SpreadOf(r[i]) == Latest([config.seed] + RunMoves(hours) + MovesUpTo(LastTick(hours), hour, i + 1))
  {
    hide Hour, MovesUpTo, RunMoves, RunSpreads;
    var previous, spreads := LastTick(hours), RunSpreads(config, initial, hours);
    var moves := MovesUpTo(previous, hour, i + 1);
    DynamicSpreadLaw(config, previous, spreads, hour, i);
    if hours == [] {
      NoMovesYet();
      assert [config.seed] + [] == [config.seed];
    } else {
      RunLaw(config, initial, hours);
    }
    KnownIsTail(config, previous, spreads, [config.seed] + RunMoves(hours), moves);
  }

  lemma NoMovesYet()
    ensures RunMoves([]) == []
  {
  }

  // ---------------------------------------------------------------------------
  // Spreads are never negative
  // ---------------------------------------------------------------------------

  lemma {:induction false} MovesArePositive(previous: Option<Tick>, s: seq<Tick>, n: nat)
    requires n <= |s|
    ensures forall k :: 0 <= k < |MovesUpTo(previous, s, n)| ==> MovesUpTo(previous, s, n)[k] > 0
  {
    if n > 0 { MovesArePositive(previous, s, n - 1); }
  }

  lemma SeenIsNotNegative(config: Config, previous: Option<Tick>, spreads: Spreads, s: seq<Tick>, n: nat)
    requires n <= |s|
    requires config.seed >= 0 && spreads.dynamic >= 0 && spreads.median >= 0 && spreads.median2 >= 0
    ensures forall k :: 0 <= k < |Seen(config, previous, spreads, s, n)| ==>
            Seen(config, previous, spreads, s, n)[k] >= 0
    ensures Seen(config, previous, spreads, s, n) != [] && Latest(Known(config, previous, spreads)) >= 0
  {
    hide QualifyingMove;
    MovesArePositive(previous, s, n);
  }

  lemma MedianOfNonNegatives(a: int, b: int, c: int)
    requires a >= 0 && b >= 0 && c >= 0
    ensures MedianFilter(a, b, c) >= 0
  {
  }

  /** With a non-negative seed and non-negative remembered spreads no bid ever exceeds its ask. */
  lemma {:induction false} SpreadsAreNotNegative(config: Config, previous: Option<Tick>, spreads: Spreads, s: seq<Tick>,
      i: nat)
    requires !config.model.NoSpread? && i < |s|
    requires config.seed >= 0 && spreads.dynamic >= 0 && spreads.median >= 0 && spreads.median2 >= 0
    ensures |Hour(config, previous, spreads, s).0| == |s|
    ensures SpreadOf(Hour(config, previous, spreads, s).0[i]) >= 0
    decreases i
  {
    hide Hour, QualifyingMove, Seen, Known, MedianFilter;
    SeenIsNotNegative(config, previous, spreads, s, i + 1);
    var seen := Seen(config, previous, spreads, s, i + 1);
    match config.model
    case FixedSpread =>
      FixedSpreadLaw(config, previous, spreads, s, i);
    case DynamicSpread =>
      DynamicSpreadLaw(config, previous, spreads, s, i);
    case MedianSpread =>
      MedianSpreadLaw(config, previous, spreads, s, i);
      if QualifyingMove(previous, s, i).Some? {
        MedianOfNonNegatives(seen[|seen| - 3], seen[|seen| - 2], seen[|seen| - 1]);
      } else if i > 0 {
        SpreadsAreNotNegative(config, previous, spreads, s, i - 1);
      }
  }

  ghost predicate NotNegative(spreads: Spreads) {
    spreads.dynamic >= 0 && spreads.median >= 0 && spreads.median2 >= 0
  }

  lemma {:induction false} RestKeepsNotNegative(config: Config, previous: Tick, q: Quoting, s: seq<Tick>)
    requires NotNegative(q.spreads)
    ensures NotNegative(Rest(config, previous, q, s).1.spreads)
    decreases |s|
  {
    hide MedianFilter;
    if s != [] {
      var (t, q') := NextTick(config, previous, q, s[0]);
      RestKeepsNotNegative(config, t, q', s[1..]);
    }
  }

  /** Over any run of hours that starts with non-negative spreads the carried spreads are never negative. */
  lemma {:induction false} RunSpreadsAreNotNegative(config: Config, initial: Spreads, hours: seq<seq<Tick>>)
    requires config.seed >= 0 && NotNegative(initial) && NonEmptyHours(hours)
    ensures NotNegative(RunSpreads(config, initial, hours))
    decreases |hours|
  {
    hide MedianFilter;
    if hours != [] {
      var n := |hours| - 1;
      var previous, before := LastTick(hours[..n]), RunSpreads(config, initial, hours[..n]);
      RunSpreadsAreNotNegative(config, initial, hours[..n]);
      var (t, q) := FirstTick(config, previous, before, hours[n][0]);
      assert NotNegative(q.spreads);
      RestKeepsNotNegative(config, t, q, hours[n][1..]);
    }
  }

  /** No quote of any hour of a run has a negative spread. */
  lemma RunQuotesAreNotNegative(config: Config, initial: Spreads, hours: seq<seq<Tick>>, hour: seq<Tick>, i: nat)
    requires !config.model.NoSpread? && config.seed >= 0 && NotNegative(initial) && NonEmptyHours(hours) && i < |hour|
    ensures
      var r := Hour(config, LastTick(hours), RunSpreads(config, initial, hours), hour).0;
      |r| == |hour| && SpreadOf(r[i]) >= 0
  {
    hide Hour;
    RunSpreadsAreNotNegative(config, initial, hours);
    SpreadsAreNotNegative(config, LastTick(hours), RunSpreads(config, initial, hours), hour, i);
  }
}
