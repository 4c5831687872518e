/** What a storage backend holds: kinds of data, a time range, and three lists of identifiers. */
module StorageMetadata {
  import opened Words
  import opened Bytes
  import opened BlockBits
  import opened SortedLists

  datatype Metadata = Metadata(flags: nat, start: nat, end: nat, markets: seq<nat>, exchanges: seq<nat>,
      symbols: seq<nat>) {

    ghost predicate Valid() {
      && Fits(flags, 32) && start < W64.Modulus() && end < W64.Modulus()
      && Increasing(markets) && Below(markets, 256)
      && Increasing(exchanges) && Below(exchanges, 0x1_0000)
      && Increasing(symbols) && Below(symbols, 0x1_0000)
    }

    /** A zero bound does not restrict. */
    predicate ContainsTime(t: nat) {
      (t >= start || start == 0) && (t < end || end == 0)
    }

    predicate HasFlag(flag: nat) { And(flags, flag) != 0 }

    /** The routing test of the hub. */
    predicate Accepts(flag: nat, market: nat, exchange: nat, symbol: nat, t: nat) {
      HasFlag(flag) && symbol in symbols && exchange in exchanges && market in markets && ContainsTime(t)
    }
  }

  /** The earlier of two starts, where zero is no start. */
  function EarlierStart(a: nat, b: nat): nat { if a == 0 || (b != 0 && b < a) then b else a }

  function LaterEnd(a: nat, b: nat): nat { if a == 0 || (b != 0 && b > a) then b else a }

  function Merged(a: Metadata, b: Metadata): Metadata {
    Metadata(Or(a.flags, b.flags), EarlierStart(a.start, b.start), LaterEnd(a.end, b.end),
             InsertAll(a.markets, b.markets), InsertAll(a.exchanges, b.exchanges), InsertAll(a.symbols, b.symbols))
  }

  function Subtracted(a: Metadata, b: Metadata): Metadata {
    Metadata(And(a.flags, Not(b.flags, 32)),
             if b.start > a.start then b.start else a.start, if b.end < a.end then b.end else a.end,
             Without(a.markets, b.markets), Without(a.exchanges, b.exchanges), Without(a.symbols, b.symbols))
  }

  // ---------------------------------------------------------------------------
  // Laws
  // ---------------------------------------------------------------------------

  lemma {:induction false} OrLaws(x: nat, y: nat, z: nat)
    ensures Or(x, x) == x && Or(x, y) == Or(y, x) && Or(Or(x, y), z) == Or(x, Or(y, z))
    decreases x + y + z
  {
    if x > 0 || y > 0 || z > 0 {
      OrLaws(x / 2, y / 2, z / 2);
      HalvesAndBits(x, y);
      HalvesAndBits(y, z);
      HalvesAndBits(x, x);
      HalvesAndBits(y, x);
      HalvesAndBits(Or(x, y), z);
      HalvesAndBits(x, Or(y, z));
    }
  }

  lemma ListsMerge(a: seq<nat>, b: seq<nat>, c: seq<nat>)
    requires Increasing(a) && Increasing(b) && Increasing(c)
    ensures InsertAll(a, a) == a
    ensures InsertAll(a, b) == InsertAll(b, a)
    ensures InsertAll(InsertAll(a, b), c) == InsertAll(a, InsertAll(b, c))
  {
    InsertAllLaw(a, a);
    InsertAllLaw(a, b);
    InsertAllLaw(b, a);
    InsertAllLaw(b, c);
    InsertAllLaw(InsertAll(a, b), c);
    InsertAllLaw(a, InsertAll(b, c));
    Canonical(InsertAll(a, a), a);
    Canonical(InsertAll(a, b), InsertAll(b, a));
    Canonical(InsertAll(InsertAll(a, b), c), InsertAll(a, InsertAll(b, c)));
  }

  /** Merging is a join on the representation itself: idempotent, commutative and associative. */
  lemma MergeLaws(a: Metadata, b: Metadata, c: Metadata)
    requires a.Valid() && b.Valid() && c.Valid()
    ensures Merged(a, a) == a
    ensures Merged(a, b) == Merged(b, a)
    ensures Merged(Merged(a, b), c) == Merged(a, Merged(b, c))
  {
    hide Or, InsertAll, Increasing, Below;
    OrLaws(a.flags, b.flags, c.flags);
    ListsMerge(a.markets, b.markets, c.markets);
    ListsMerge(a.exchanges, b.exchanges, c.exchanges);
    ListsMerge(a.symbols, b.symbols, c.symbols);
  }

  /**
   The merged fields: every flag and every listed identifier of either side; of two set
   starts the earlier, of two set ends the later, and the set one where one is zero.
   */
  lemma MergedFields(a: Metadata, b: Metadata)
    requires a.Valid() && b.Valid()
    ensures
      var m := Merged(a, b);
      && (forall k: nat :: Bit(m.flags, k) == (Bit(a.flags, k) || Bit(b.flags, k)))
      && (a.start == 0 || b.start == 0 ==> m.start == a.start + b.start)
      && (a.start > 0 && b.start > 0 ==> m.start == if a.start < b.start then a.start else b.start)
      && (a.end == 0 || b.end == 0 ==> m.end == a.end + b.end)
      && (a.end > 0 && b.end > 0 ==> m.end == if a.end < b.end then b.end else a.end)
      && (forall x :: x in m.markets <==> x in a.markets || x in b.markets)
      && (forall x :: x in m.exchanges <==> x in a.exchanges || x in b.exchanges)
      && (forall x :: x in m.symbols <==> x in a.symbols || x in b.symbols)
  {
    hide Or, Bit, InsertAll, Increasing;
    forall k: nat ensures Bit(Merged(a, b).flags, k) == (Bit(a.flags, k) || Bit(b.flags, k)) {
      BitsOfOr(a.flags, b.flags, k);
    }
    InsertAllLaw(a.markets, b.markets);
    InsertAllLaw(a.exchanges, b.exchanges);
    InsertAllLaw(a.symbols, b.symbols);
  }

  /**
   The fields after subtraction: the other's flags and identifiers are gone, the later
   start and the earlier end remain.
   */
  lemma SubtractedFields(a: Metadata, b: Metadata)
    requires a.Valid() && b.Valid()
    ensures
      var m := Subtracted(a, b);
      && (forall k: nat :: Bit(m.flags, k) == (Bit(a.flags, k) && !Bit(b.flags, k)))
      && m.start == (if a.start < b.start then b.start else a.start)
      && m.end == (if a.end < b.end then a.end else b.end)
      && (forall x :: x in m.markets <==> x in a.markets && x !in b.markets)
      && (forall x :: x in m.exchanges <==> x in a.exchanges && x !in b.exchanges)
      && (forall x :: x in m.symbols <==> x in a.symbols && x !in b.symbols)
  {
    hide And, Not, Bit, Fits, Without, Increasing;
    forall k: nat ensures Bit(Subtracted(a, b).flags, k) == (Bit(a.flags, k) && !Bit(b.flags, k)) {
      BitsOfAnd(a.flags, Not(b.flags, 32), k);
      BitsOfNot(b.flags, 32, k);
      if k >= 32 { NoBits(a.flags, 32, k); }
    }
    WithoutLaw(a.markets, b.markets);
    WithoutLaw(a.exchanges, b.exchanges);
    WithoutLaw(a.symbols, b.symbols);
  }

  lemma InsertAllBelow(s: seq<nat>, t: seq<nat>, bound: nat)
    requires Increasing(s) && Below(s, bound) && Below(t, bound)
    ensures Increasing(InsertAll(s, t)) && Below(InsertAll(s, t), bound)
  {
    InsertAllLaw(s, t);
    var r := InsertAll(s, t);
    forall i | 0 <= i < |r| ensures r[i] < bound { assert r[i] in r; }
  }

  lemma WithoutBelow(s: seq<nat>, t: seq<nat>, bound: nat)
    requires Increasing(s) && Below(s, bound)
    ensures Increasing(Without(s, t)) && Below(Without(s, t), bound)
  {
    WithoutLaw(s, t);
    var r := Without(s, t);
    forall i | 0 <= i < |r| ensures r[i] < bound { assert r[i] in r; }
  }

  /** Both operations keep the lists strictly increasing and everything within its width. */
  lemma OperationsKeepValid(a: Metadata, b: Metadata)
    requires a.Valid() && b.Valid()
    ensures Merged(a, b).Valid() && Subtracted(a, b).Valid()
  {
    hide Or, And, Not, InsertAll, Without, Increasing, Below, Fits;
    OrFits(a.flags, b.flags, 32);
    AndFits(a.flags, Not(b.flags, 32), 32);
    InsertAllBelow(a.markets, b.markets, 256);
    InsertAllBelow(a.exchanges, b.exchanges, 0x1_0000);
    InsertAllBelow(a.symbols, b.symbols, 0x1_0000);
    WithoutBelow(a.markets, b.markets, 256);
    WithoutBelow(a.exchanges, b.exchanges, 0x1_0000);
    WithoutBelow(a.symbols, b.symbols, 0x1_0000);
  }

  /** On the lists subtraction is set difference, and merging what was subtracted gives the union. */
  lemma SubtractLaws(s: seq<nat>, t: seq<nat>)
    requires Increasing(s) && Increasing(t)
    ensures Elements(Without(s, t)) == Elements(s) - Elements(t)
    ensures InsertAll(Without(s, t), t) == InsertAll(s, t)
    ensures Without(InsertAll(s, t), t) == Without(s, t)
  {
    WithoutLaw(s, t);
    InsertAllLaw(s, t);
    InsertAllLaw(Without(s, t), t);
    WithoutLaw(InsertAll(s, t), t);
    Canonical(InsertAll(Without(s, t), t), InsertAll(s, t));
    Canonical(Without(InsertAll(s, t), t), Without(s, t));
  }

  ghost predicate CoversBoth(m: Metadata, a: Metadata, b: Metadata) {
    forall t: nat :: a.ContainsTime(t) || b.ContainsTime(t) ==> m.ContainsTime(t)
  }

  /**
   A zero bound means "no limit" to the time test but "not set" to the merge: the merge
   covers both ranges exactly when they agree on which bounds are zero.
   */
  lemma MergeCoversTimes(a: Metadata, b: Metadata)
    ensures CoversBoth(Merged(a, b), a, b) <==> ((a.start == 0) == (b.start == 0) && (a.end == 0) == (b.end == 0))
  {
    var m := Merged(a, b);
    assert a.start == 0 ==> a.ContainsTime(0);
    assert b.start == 0 ==> b.ContainsTime(0);
    var late := m.end + a.start + b.start;
    assert a.end == 0 ==> a.ContainsTime(late);
    assert b.end == 0 ==> b.ContainsTime(late);
    if CoversBoth(m, a, b) {
      assert a.ContainsTime(0) || b.ContainsTime(0) ==> m.ContainsTime(0);
      assert a.ContainsTime(late) || b.ContainsTime(late) ==> m.ContainsTime(late);
    }
  }

  /** A backend without limits merged with one that holds a second of data: time 0 was accepted and no longer is. */
  lemma MergeNarrowsUnlimited()
    ensures
      var a := Metadata(0, 0, 0, [], [], []);
      var b := Metadata(0, 1000, 2000, [], [], []);
      a.ContainsTime(0) && !Merged(a, b).ContainsTime(0) && !CoversBoth(Merged(a, b), a, b)
  {
    var a, b := Metadata(0, 0, 0, [], [], []), Metadata(0, 1000, 2000, [], [], []);
    MergeCoversTimes(a, b);
    assert a.ContainsTime(0);
  }

  // ---------------------------------------------------------------------------
  // The binary form
  // ---------------------------------------------------------------------------

  function Items(s: seq<nat>, width: nat): (r: seq<byte>)
    ensures |r| == |s| * width
  {
    if s == [] then [] else
    assert |s| * width == width + (|s| - 1) * width;
    LittleEndian(s[0], width) + Items(s[1..], width)
  }

  /** A 32-bit count and the raw elements. */
  function ListBytes(s: seq<nat>, width: nat): seq<byte> {
    LittleEndian(W32.Wrap(|s|), 4) + Items(s, width)
  }

  function Serialized(m: Metadata): seq<byte> {
    LittleEndian(m.flags, 4) + (LittleEndian(m.start, 8) + (LittleEndian(m.end, 8)
    + (ListBytes(m.symbols, 2) + (ListBytes(m.exchanges, 2) + ListBytes(m.markets, 1)))))
  }

  function ReadItems(data: seq<byte>, offset: nat, width: nat, count: nat): seq<nat>
    requires offset + count * width <= |data|
    decreases count
  {
    if count == 0 then [] else
    assert count * width == width + (count - 1) * width;
    [FromLittleEndian(data[offset..offset + width])] + ReadItems(data, offset + width, width, count - 1)
  }

  function ReadList(data: seq<byte>, offset: nat, width: nat): (r: Parsed<seq<nat>>)
    ensures r.Parsed? ==> r.next <= |data|
  {
    match ReadLittleEndian(data, offset, 4)
    case Truncated => Truncated
    case Parsed(count, next) =>
      if next + count * width > |data| then Truncated
          else Parsed(ReadItems(data, next, width, count), next + count * width)
  }

  function Deserialized(data: seq<byte>): Parsed<Metadata> {
    match ReadLittleEndian(data, 0, 4)
    case Truncated => Truncated
    case Parsed(flags, o1) =>
      match ReadLittleEndian(data, o1, 8)
      case Truncated => Truncated
      case Parsed(start, o2) =>
        match ReadLittleEndian(data, o2, 8)
        case Truncated => Truncated
        case Parsed(end, o3) => DeserializedLists(data, flags, start, end, o3)
  }

  function DeserializedLists(data: seq<byte>, flags: nat, start: nat, end: nat, o3: nat): Parsed<Metadata> {
    match ReadList(data, o3, 2)
    case Truncated => Truncated
    case Parsed(symbols, o4) =>
      match ReadList(data, o4, 2)
      case Truncated => Truncated
      case Parsed(exchanges, o5) =>
        match ReadList(data, o5, 1)
        case Truncated => Truncated
        case Parsed(markets, o6) => Parsed(Metadata(flags, start, end, markets, exchanges, symbols), o6)
  }

  lemma {:induction false} ItemAt(s: seq<nat>, width: nat, i: nat)
    requires i < |s|
    ensures i * width + width <= |Items(s, width)|
    ensures Items(s, width)[i * width..i * width + width] == LittleEndian(s[i], width)
    decreases i
  {
    hide LittleEndian;
    var rest := Items(s[1..], width);
    assert |s| * width == width + (|s| - 1) * width;
    if i > 0 {
      ItemAt(s[1..], width, i - 1);
      var at := (i - 1) * width;
      assert i * width == at + width;
      assert Items(s, width)[at + width..at + width + width] == rest[at..at + width];
    } else {
      assert 0 * width == 0;
    }
  }

  /** Flags, start and end in 4, 8 and 8 bytes, then the symbols, the exchanges and the markets. */
  lemma SerializedLayout(m: Metadata)
    ensures
      var data := Serialized(m);
      var symbols, exchanges, markets := ListBytes(m.symbols, 2), ListBytes(m.exchanges, 2), ListBytes(m.markets, 1);
      && At(data, 0, LittleEndian(m.flags, 4))
      && At(data, 4, LittleEndian(m.start, 8))
      && At(data, 12, LittleEndian(m.end, 8))
      && At(data, 20, symbols)
      && At(data, 20 + |symbols|, exchanges)
      && At(data, 20 + |symbols| + |exchanges|, markets)
      && |data| == 20 + |symbols| + |exchanges| + |markets|
  {
    hide LittleEndian, ListBytes, At;
    var data := Serialized(m);
    var a, b, c := LittleEndian(m.flags, 4), LittleEndian(m.start, 8), LittleEndian(m.end, 8);
    var x, y, z := ListBytes(m.symbols, 2), ListBytes(m.exchanges, 2), ListBytes(m.markets, 1);
    AtStart(data);
    AtSplit(data, 0, a, b + (c + (x + (y + z))));
    AtSplit(data, 4, b, c + (x + (y + z)));
    AtSplit(data, 12, c, x + (y + z));
    AtSplit(data, 20, x, y + z);
    AtSplit(data, 20 + |x|, y, z);
  }

  lemma SliceBehind(head: seq<byte>, items: seq<byte>, from: nat, to: nat)
    requires from <= to <= |items|
    ensures (head + items)[|head| + from..|head| + to] == items[from..to]
  {
  }

  /** A list: its length in four bytes, then its elements in `width` bytes each. */
  lemma ListLayout(s: seq<nat>, width: nat, i: nat)
    requires i < |s| < 0x1_0000_0000
    ensures |ListBytes(s, width)| == 4 + |s| * width
    ensures ListBytes(s, width)[0..4] == LittleEndian(|s|, 4)
    ensures 4 + i * width + width <= |ListBytes(s, width)|
    ensures ListBytes(s, width)[4 + i * width..4 + i * width + width] == LittleEndian(s[i], width)
  {
    hide LittleEndian, Items;
    WrapSmall(W32, |s|);
    ItemAt(s, width, i);
    var head, items, at := LittleEndian(|s|, 4), Items(s, width), i * width;
    SliceBehind(head, items, at, at + width);
    assert ListBytes(s, width) == head + items;
    assert (head + items)[0..4] == head;
    assert 4 + i * width == |head| + at && 4 + i * width + width == |head| + (at + width);
  }

  lemma {:induction false} ItemsRoundTrip(s: seq<nat>, width: nat, data: seq<byte>, offset: nat)
    requires forall i :: 0 <= i < |s| ==> FitsBytes(s[i], width)
    requires At(data, offset, Items(s, width))
    ensures offset + |s| * width <= |data| && ReadItems(data, offset, width, |s|) == s
    decreases |s|
  {
    if s != [] {
      AtSplit(data, offset, LittleEndian(s[0], width), Items(s[1..], width));
      assert |s| * width == width + (|s| - 1) * width;
      LittleEndianRoundTrip(s[0], width);
      ItemsRoundTrip(s[1..], width, data, offset + width);
      assert [s[0]] + s[1..] == s;
    }
  }

  lemma ListRoundTrip(s: seq<nat>, width: nat, bound: nat, data: seq<byte>, offset: nat)
    requires Increasing(s) && Below(s, bound)
    requires (width == 2 && bound == 0x1_0000) || (width == 1 && bound == 256)
    requires At(data, offset, ListBytes(s, width))
    ensures ReadList(data, offset, width) == Parsed(s, offset + |ListBytes(s, width)|)
  {
    hide Items, ReadItems, LittleEndian, FromLittleEndian, FitsBytes, At;
    CountFits(s, bound);
    WrapSmall(W32, |s|);
    FitsStandardWidths(|s|);
    AtSplit(data, offset, LittleEndian(|s|, 4), Items(s, width));
    ReadsBackLittleEndian(|s|, 4, data, offset);
    forall i | 0 <= i < |s| ensures FitsBytes(s[i], width) { FitsStandardWidths(s[i]); }
    ItemsRoundTrip(s, width, data, offset + 4);
  }

  /**
   Reading what was written gives the metadata back, and uses up exactly what was written;
   no count is ever truncated.
   */
  lemma SerializeRoundTrip(m: Metadata)
    requires m.Valid()
    ensures Deserialized(Serialized(m)) == Parsed(m, |Serialized(m)|)
    ensures |m.markets| <= 256 && |m.exchanges| <= 0x1_0000 && |m.symbols| <= 0x1_0000
  {
    CountFits(m.markets, 256);
    CountFits(m.exchanges, 0x1_0000);
    CountFits(m.symbols, 0x1_0000);
    hide Metadata.Valid, ListBytes, LittleEndian, ReadLittleEndian, At, DeserializedLists;
    var data := Serialized(m);
    var lists := ListBytes(m.symbols, 2) + (ListBytes(m.exchanges, 2) + ListBytes(m.markets, 1));
    AtStart(data);
    HeadRoundTrip(m, lists, data);
    ListsRoundTrip(m, data, 20);
  }

  lemma HeadRoundTrip(m: Metadata, lists: seq<byte>, data: seq<byte>)
    requires m.Valid()
    requires At(data, 0, LittleEndian(m.flags, 4) + (LittleEndian(m.start, 8) + (LittleEndian(m.end, 8) + lists)))
    ensures ReadLittleEndian(data, 0, 4) == Parsed(m.flags, 4)
    ensures ReadLittleEndian(data, 4, 8) == Parsed(m.start, 12)
    ensures ReadLittleEndian(data, 12, 8) == Parsed(m.end, 20)
    ensures At(data, 20, lists)
  {
    FlagsBelow(m.flags);
    hide Fits, Increasing, Below, LittleEndian, FromLittleEndian, ReadLittleEndian, FitsBytes, At;
    AtSplit(data, 0, LittleEndian(m.flags, 4), LittleEndian(m.start, 8) + (LittleEndian(m.end, 8) + lists));
    AtSplit(data, 4, LittleEndian(m.start, 8), LittleEndian(m.end, 8) + lists);
    AtSplit(data, 12, LittleEndian(m.end, 8), lists);
    FitsStandardWidths(m.flags);
    FitsStandardWidths(m.start);
    FitsStandardWidths(m.end);
    ReadsBackLittleEndian(m.flags, 4, data, 0);
    ReadsBackLittleEndian(m.start, 8, data, 4);
    ReadsBackLittleEndian(m.end, 8, data, 12);
  }

  lemma FlagsBelow(flags: nat)
    requires Fits(flags, 32)
    ensures flags < W32.Modulus()
  {
    LowBitsAreRemainder(flags, 32);
    ShiftLeftHalf();
    assert ShiftLeft(1, 32) == 2 * ShiftLeft(1, 31);
  }

  lemma ListsRoundTrip(m: Metadata, data: seq<byte>, offset: nat)
    requires m.Valid()
    requires At(data, offset, ListBytes(m.symbols, 2) + (ListBytes(m.exchanges, 2) + ListBytes(m.markets, 1)))
    ensures DeserializedLists(data, m.flags, m.start, m.end, offset) ==
            Parsed(m, offset + |ListBytes(m.symbols, 2)| + |ListBytes(m.exchanges, 2)| + |ListBytes(m.markets, 1)|)
  {
    hide Fits, Increasing, Below, ListBytes, ReadList, At;
    var symbols, exchanges, markets := ListBytes(m.symbols, 2), ListBytes(m.exchanges, 2), ListBytes(m.markets, 1);
    AtSplit(data, offset, symbols, exchanges + markets);
    AtSplit(data, offset + |symbols|, exchanges, markets);
    ListRoundTrip(m.symbols, 2, 0x1_0000, data, offset);
    ListRoundTrip(m.exchanges, 2, 0x1_0000, data, offset + |symbols|);
    ListRoundTrip(m.markets, 1, 256, data, offset + |symbols| + |exchanges|);
  }

  // ---------------------------------------------------------------------------
  // The class
  // ---------------------------------------------------------------------------

  class StorageMetadata {
    var dataFlags: nat
    var startTime: nat
    var endTime: nat
    var marketTypes: seq<nat>
    var exchangeIds: seq<nat>
    var symbolIds: seq<nat>

    ghost function Value(): Metadata
      reads this
    {
      Metadata(dataFlags, startTime, endTime, marketTypes, exchangeIds, symbolIds)
    }

    constructor ()
      ensures Value() == Metadata(0, 0, 0, [], [], []) && Value().Valid()
    {
      dataFlags, startTime, endTime := 0, 0, 0;
      marketTypes, exchangeIds, symbolIds := [], [], [];
      new;
      ZeroFits(32);
    }

    method AddMarketType(market: nat)
      requires Value().Valid() && market < 256
      modifies this
      ensures Value().Valid() && Value() == old(Value()).(markets := marketTypes)
      ensures forall m :: m in marketTypes <==> m == market || m in old(marketTypes)
    {
      InsertLaw(marketTypes, market);
      marketTypes := Added(marketTypes, market);
      assert forall i :: 0 <= i < |marketTypes| ==> marketTypes[i] in marketTypes;
    }

    method RemoveMarketType(market: nat)
      requires Value().Valid()
      modifies this
      ensures Value().Valid() && Value() == old(Value()).(markets := marketTypes)
      ensures forall m :: m in marketTypes <==> m != market && m in old(marketTypes)
    {
      WithoutBelow(marketTypes, [market], 256);
      WithoutLaw(marketTypes, [market]);
      marketTypes := Removed(marketTypes, market);
    }

    method AddExchangeId(exchange: nat)
      requires Value().Valid() && exchange < 0x1_0000
      modifies this
      ensures Value().Valid() && Value() == old(Value()).(exchanges := exchangeIds)
      ensures forall e :: e in exchangeIds <==> e == exchange || e in old(exchangeIds)
    {
      InsertLaw(exchangeIds, exchange);
      exchangeIds := Added(exchangeIds, exchange);
      assert forall i :: 0 <= i < |exchangeIds| ==> exchangeIds[i] in exchangeIds;
    }

    method RemoveExchangeId(exchange: nat)
      requires Value().Valid()
      modifies this
      ensures Value().Valid() && Value() == old(Value()).(exchanges := exchangeIds)
      ensures forall e :: e in exchangeIds <==> e != exchange && e in old(exchangeIds)
    {
      WithoutBelow(exchangeIds, [exchange], 0x1_0000);
      WithoutLaw(exchangeIds, [exchange]);
      exchangeIds := Removed(exchangeIds, exchange);
    }

    method AddSymbolId(symbol: nat)
      requires Value().Valid() && symbol < 0x1_0000
      modifies this
      ensures Value().Valid() && Value() == old(Value()).(symbols := symbolIds)
      ensures forall x :: x in symbolIds <==> x == symbol || x in old(symbolIds)
    {
      InsertLaw(symbolIds, symbol);
      symbolIds := Added(symbolIds, symbol);
      assert forall i :: 0 <= i < |symbolIds| ==> symbolIds[i] in symbolIds;
    }

    method RemoveSymbolId(symbol: nat)
      requires Value().Valid()
      modifies this
      ensures Value().Valid() && Value() == old(Value()).(symbols := symbolIds)
      ensures forall x :: x in symbolIds <==> x != symbol && x in old(symbolIds)
    {
      WithoutBelow(symbolIds, [symbol], 0x1_0000);
      WithoutLaw(symbolIds, [symbol]);
      symbolIds := Removed(symbolIds, symbol);
    }

    method HasSymbol(symbol: nat) returns (found: bool)
      requires Value().Valid()
      ensures found == (symbol in symbolIds)
    {
      found := Contains(symbolIds, symbol);
    }

    method HasExchange(exchange: nat) returns (found: bool)
      requires Value().Valid()
      ensures found == (exchange in exchangeIds)
    {
      found := Contains(exchangeIds, exchange);
    }

    method HasMarketType(market: nat) returns (found: bool)
      requires Value().Valid()
      ensures found == (market in marketTypes)
    {
      found := Contains(marketTypes, market);
    }

    /** Joins another object's contents into this one; the other may be this one. */
    method MergeWith(other: StorageMetadata)
      requires Value().Valid() && other.Value().Valid()
      modifies this
      ensures Value().Valid() && Value() == Merged(old(Value()), old(other.Value()))
    {
      hide Or, InsertAll, Increasing, Below, Fits;
      ghost var a, b := Value(), other.Value();
      OperationsKeepValid(a, b);
      dataFlags := Or(dataFlags, other.dataFlags);
      if startTime == 0 || (other.startTime != 0 && other.startTime < startTime) { startTime := other.startTime; }
      if endTime == 0 || (other.endTime != 0 && other.endTime > endTime) { endTime := other.endTime; }
      marketTypes := AddedAll(marketTypes, other.marketTypes);
      exchangeIds := AddedAll(exchangeIds, other.exchangeIds);
      symbolIds := AddedAll(symbolIds, other.symbolIds);
    }

    /** The loop that adds each identifier of another list. */
    method AddedAll(s: seq<nat>, t: seq<nat>) returns (r: seq<nat>)
      requires Increasing(s)
      ensures r == InsertAll(s, t)
    {
      r := s;
      for i := 0 to |t|
        invariant Increasing(r)
        invariant InsertAll(r, t[i..]) == InsertAll(s, t)
      {
        InsertLaw(r, t[i]);
        r := Added(r, t[i]);
        assert t[i..][1..] == t[i + 1..];
      }
    }

    method Subtract(other: StorageMetadata)
      requires Value().Valid() && other.Value().Valid()
      modifies this
      ensures Value().Valid() && Value() == Subtracted(old(Value()), old(other.Value()))
    {
      hide And, Not, Without, Below, Fits;
      ghost var a, b := Value(), other.Value();
      OperationsKeepValid(a, b);
      var otherFlags, otherStart, otherEnd := other.dataFlags, other.startTime, other.endTime;
      var otherMarkets, otherExchanges, otherSymbols := other.marketTypes, other.exchangeIds, other.symbolIds;
      dataFlags := And(dataFlags, Not(otherFlags, 32));
      if otherStart > startTime { startTime := otherStart; }
      if otherEnd < endTime { endTime := otherEnd; }
      marketTypes := Difference(marketTypes, otherMarkets);
      exchangeIds := Difference(exchangeIds, otherExchanges);
      symbolIds := Difference(symbolIds, otherSymbols);
    }

    method Serialize() returns (data: seq<byte>)
      requires Value().Valid()
      ensures data == Serialized(Value())
      ensures Deserialized(data) == Parsed(Value(), |data|)
    {
      hide LittleEndian, ListBytes;
      data := LittleEndian(dataFlags, 4) + LittleEndian(startTime, 8) + LittleEndian(endTime, 8);
      data := data + ListBytes(symbolIds, 2);
      data := data + ListBytes(exchangeIds, 2);
      data := data + ListBytes(marketTypes, 1);
      SerializeRoundTrip(Value());
      Flattened(LittleEndian(dataFlags, 4), LittleEndian(startTime, 8), LittleEndian(endTime, 8),
                ListBytes(symbolIds, 2), ListBytes(exchangeIds, 2), ListBytes(marketTypes, 1));
    }

    lemma Flattened(a: seq<byte>, b: seq<byte>, c: seq<byte>, d: seq<byte>, e: seq<byte>, f: seq<byte>)
      ensures a + b + c + d + e + f == a + (b + (c + (d + (e + f))))
    {
      assert a + b + c + d + e + f == a + b + c + (d + (e + f));
      assert a + b + c + (d + (e + f)) == a + (b + (c + (d + (e + f))));
    }

    /** A read past the end stops it; the fields read before that point have already been assigned. */
    method Deserialize(data: seq<byte>) returns (ok: bool)
      modifies this
      ensures ok == Deserialized(data).Parsed?
      ensures ok ==> Value() == Deserialized(data).value
    {
      hide ReadList, FromLittleEndian;
      ok := false;
      var flags := ReadLittleEndian(data, 0, 4);
      if flags.Truncated? { return; }
      dataFlags := flags.value;
      var start := ReadLittleEndian(data, flags.next, 8);
      if start.Truncated? { return; }
      startTime := start.value;
      var end := ReadLittleEndian(data, start.next, 8);
      if end.Truncated? { return; }
      endTime := end.value;
      var symbols := ReadList(data, end.next, 2);
      if symbols.Truncated? { return; }
      symbolIds := symbols.value;
      var exchanges := ReadList(data, symbols.next, 2);
      if exchanges.Truncated? { return; }
      exchangeIds := exchanges.value;
      var markets := ReadList(data, exchanges.next, 1);
      if markets.Truncated? { return; }
      marketTypes := markets.value;
      ok := true;
    }
  }

  /** Every proper prefix of a serialized object is refused: a read past the end is reported. */
  lemma CutShortIsRefused(m: Metadata, k: nat)
    requires m.Valid() && k < |Serialized(m)|
    ensures Deserialized(Serialized(m)[..k]).Truncated?
  {
    hide Metadata.Valid;
    SerializeRoundTrip(m);
    var data := Serialized(m);
    var cut := data[..k];
    if Deserialized(cut).Parsed? {
      LongerReadsTheSame(cut, data);
      ParsedWithin(cut);
    }
  }

  lemma ParsedWithin(data: seq<byte>)
    requires Deserialized(data).Parsed?
    ensures Deserialized(data).next <= |data|
  {
    hide ReadItems, FromLittleEndian;
  }

  lemma {:induction false} ItemsOfPrefix(a: seq<byte>, b: seq<byte>, offset: nat, width: nat, count: nat)
    requires a <= b && offset + count * width <= |a|
    ensures ReadItems(a, offset, width, count) == ReadItems(b, offset, width, count)
    decreases count
  {
    if count > 0 {
      hide FromLittleEndian;
      var rest := count - 1;
      assert count * width == width + rest * width;
      assert rest * width >= 0;
      ItemsOfPrefix(a, b, offset + width, width, rest);
      assert a[offset..offset + width] == b[offset..offset + width];
    }
  }

  lemma NumberOfPrefix(a: seq<byte>, b: seq<byte>, offset: nat, width: nat)
    requires a <= b && ReadLittleEndian(a, offset, width).Parsed?
    ensures ReadLittleEndian(b, offset, width) == ReadLittleEndian(a, offset, width)
  {
    assert a[offset..offset + width] == b[offset..offset + width];
  }

  lemma ListOfPrefix(a: seq<byte>, b: seq<byte>, offset: nat, width: nat)
    requires a <= b && ReadList(a, offset, width).Parsed?
    ensures ReadList(b, offset, width) == ReadList(a, offset, width)
  {
    hide ReadItems, FromLittleEndian;
    NumberOfPrefix(a, b, offset, 4);
    var head := ReadLittleEndian(a, offset, 4);
    ItemsOfPrefix(a, b, head.next, width, head.value);
  }

  /** What a buffer yields, any extension of it yields too. */
  lemma LongerReadsTheSame(a: seq<byte>, b: seq<byte>)
    requires a <= b && Deserialized(a).Parsed?
    ensures Deserialized(b) == Deserialized(a)
  {
    hide ReadList, FromLittleEndian, ReadLittleEndian;
    NumberOfPrefix(a, b, 0, 4);
    var flags := ReadLittleEndian(a, 0, 4);
    NumberOfPrefix(a, b, flags.next, 8);
    var start := ReadLittleEndian(a, flags.next, 8);
    NumberOfPrefix(a, b, start.next, 8);
    var end := ReadLittleEndian(a, start.next, 8);
    ListOfPrefix(a, b, end.next, 2);
    var symbols := ReadList(a, end.next, 2);
    ListOfPrefix(a, b, symbols.next, 2);
    var exchanges := ReadList(a, symbols.next, 2);
    ListOfPrefix(a, b, exchanges.next, 1);
  }
}
