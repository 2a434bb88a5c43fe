/**
  What the order book operations mean, price by price and field by field: the laws a book follows,
  stated on the texts of a payload and on the entries of the two dictionaries.
 */
module BookMeaning {
  import opened Wrappers
  import opened Json
  import Powers
  import opened FixedDecimals
  import opened BookSides
  import opened BookText
  import opened OrderBook

  // ----- levels -----

  /** The value is a pair of decimal texts that denote exactly this price and quantity. */
  ghost predicate Denotes(value: Value, level: Level) {
    && value.Array? && |value.items| == 2 && value.items[0].Text? && value.items[1].Text?
    && Parse(value.items[0].text).Ok? && Parse(value.items[1].text).Ok?
    && Units(level.0) == Units(Parse(value.items[0].text).value) && IsCanonical(level.0)
    && Units(level.1) == Units(Parse(value.items[1].text).value) && IsCanonical(level.1)
    && Units(level.0) > 0 && Units(level.1) >= 0
  }

  lemma {:induction false} UnitsSign(d: FixedDecimal)
    ensures Units(d) > 0 <==> d.coefficient > 0
    ensures Units(d) >= 0 <==> d.coefficient >= 0
  {
    MulOrder(0, d.coefficient, Pow10At(d));
    MulOrder(d.coefficient, 0, Pow10At(d));
  }

  ghost function Pow10At(d: FixedDecimal): (p: nat)
    ensures p >= 1 && Units(d) == d.coefficient * p
  {
    Powers.Pow10(MAX_SCALE - d.scale)
  }

  /** `_level` returns a level exactly when the value denotes one, and then that one. */
  lemma {:induction false} LevelMeans(value: Value, level: Level)
    ensures ParseLevel(value) == Ok(level) <==> Denotes(value, level)
  {
    hide Parse, Units, IsCanonical;
    if value.Array? && |value.items| == 2 && value.items[0].Text? && value.items[1].Text? {
      var price, quantity := Parse(value.items[0].text), Parse(value.items[1].text);
      if price.Ok? && quantity.Ok? {
        var p, q := Canonical(price.value), Canonical(quantity.value);
        UnitsSign(p);
        UnitsSign(q);
        if Denotes(value, level) {
          CanonicalIsUnique(p, level.0);
          CanonicalIsUnique(q, level.1);
        }
      }
    }
  }

  /** A list of levels is read exactly when every value denotes one, in the same order. */
  lemma {:induction false} LevelsMean(values: seq<Value>, levels: seq<Level>)
    ensures ParseLevels(values) == Ok(levels) <==>
            |levels| == |values| && forall i :: 0 <= i < |values| ==> Denotes(values[i], levels[i])
  {
    hide Denotes, ParseLevel;
    if values != [] {
      var last := |values| - 1;
      var front := values[..last];
      if |levels| == |values| {
        LevelsMean(front, levels[..last]);
        LevelMeans(values[last], levels[last]);
        assert levels == levels[..last] + [levels[last]];
        if forall i :: 0 <= i < |values| ==> Denotes(values[i], levels[i]) {
          forall i | 0 <= i < last ensures Denotes(front[i], levels[..last][i]) {
            assert Denotes(values[i], levels[i]);
          }
        }
        if ParseLevels(values) == Ok(levels) {
          assert ParseLevels(front) == Ok(levels[..last]);
          forall i | 0 <= i < |values| ensures Denotes(values[i], levels[i]) {
            if i < last {
              assert Denotes(front[i], levels[..last][i]);
            }
          }
        }
      }
    }
  }

  // ----- one side -----

  /** `k` is the last update of the price. */
  ghost predicate LastUpdate(updates: seq<Level>, price: FixedDecimal, k: int) {
    0 <= k < |updates| && updates[k].0 == price && forall j :: k < j < |updates| ==> updates[j].0 != price
  }

  ghost predicate Untouched(updates: seq<Level>, price: FixedDecimal) {
    forall j :: 0 <= j < |updates| ==> updates[j].0 != price
  }

  ghost predicate SameEntry(side: Side, side': Side, price: FixedDecimal) {
    (price in side' <==> price in side) && (price in side ==> side'[price] == side[price])
  }

  /** The entry of a price: gone when its last update is zero, otherwise the quantity of that update. */
  ghost predicate Holds(side: Side, price: FixedDecimal, quantity: FixedDecimal) {
    (price in side <==> quantity.coefficient != 0) && (price in side ==> side[price] == quantity)
  }

  /** The last update of a price decides its entry; a price without update keeps its own. */
  ghost predicate FollowsAt(side: Side, updates: seq<Level>, side': Side, price: FixedDecimal) {
    && (Untouched(updates, price) ==> SameEntry(side, side', price))
    && (forall k :: LastUpdate(updates, price, k) ==> Holds(side', price, updates[k].1))
  }

  ghost predicate Follows(side: Side, updates: seq<Level>, side': Side) {
    forall price :: FollowsAt(side, updates, side', price)
  }

  /** `_apply_side` follows the updates. */
  lemma {:induction false} UpdatesDecide(side: Side, updates: seq<Level>)
    ensures Follows(side, updates, ApplyUpdates(side, updates))
  {
    hide Holds, SameEntry, ApplyUpdates, Untouched;
    forall price ensures FollowsAt(side, updates, ApplyUpdates(side, updates), price) {
      if Untouched(updates, price) {
        UntouchedIsKept(side, updates, price);
      }
      forall k | LastUpdate(updates, price, k) ensures Holds(ApplyUpdates(side, updates), price, updates[k].1) {
        LastUpdateHolds(side, updates, price, k);
      }
    }
  }

  lemma {:induction false} UntouchedIsKept(side: Side, updates: seq<Level>, price: FixedDecimal)
    requires Untouched(updates, price)
    ensures SameEntry(side, ApplyUpdates(side, updates), price)
  {
    hide Holds, SameEntry;
    if updates == [] {
      SameAsItself(side, price);
    } else {
      var last := |updates| - 1;
      UntouchedIsKept(side, updates[..last], price);
      OneUpdateDecides(ApplyUpdates(side, updates[..last]), updates[last], ApplyUpdates(side, updates), price);
      SameThrough(side, ApplyUpdates(side, updates[..last]), ApplyUpdates(side, updates), price);
    }
  }

  lemma {:induction false} LastUpdateHolds(side: Side, updates: seq<Level>, price: FixedDecimal, k: int)
    requires LastUpdate(updates, price, k)
    ensures Holds(ApplyUpdates(side, updates), price, updates[k].1)
  {
    hide Holds, SameEntry;
    var last := |updates| - 1;
    var before, after := ApplyUpdates(side, updates[..last]), ApplyUpdates(side, updates);
    OneUpdateDecides(before, updates[last], after, price);
    if k < last {
      LastUpdateHolds(side, updates[..last], price, k);
      HoldsThrough(before, after, price, updates[k].1);
    }
  }

  lemma SameAsItself(side: Side, price: FixedDecimal)
    ensures SameEntry(side, side, price)
  {
  }

  lemma OneUpdateDecides(before: Side, update: Level, after: Side, price: FixedDecimal)
    requires after == if update.1.coefficient == 0 then before - {update.0} else before[update.0 := update.1]
    ensures update.0 != price ==> SameEntry(before, after, price)
    ensures update.0 == price ==> Holds(after, price, update.1)
  {
  }

  lemma SameThrough(a: Side, b: Side, c: Side, price: FixedDecimal)
    requires SameEntry(a, b, price) && SameEntry(b, c, price)
    ensures SameEntry(a, c, price)
  {
  }

  lemma HoldsThrough(a: Side, b: Side, price: FixedDecimal, quantity: FixedDecimal)
    requires Holds(a, price, quantity) && SameEntry(a, b, price)
    ensures Holds(b, price, quantity)
  {
  }

  /** The law leaves no choice: at most one dictionary follows the updates. */
  lemma {:induction false} FollowsIsUnique(side: Side, updates: seq<Level>, a: Side, b: Side)
    requires Follows(side, updates, a) && Follows(side, updates, b)
    ensures a == b
  {
    hide Holds, SameEntry;
    forall price ensures SameEntry(a, b, price) {
      assert FollowsAt(side, updates, a, price) && FollowsAt(side, updates, b, price);
      if !Untouched(updates, price) {
        var k := FindLast(updates, price);
        EntriesAgree(a, b, price, updates[k].1);
      } else {
        SameTwice(side, a, b, price);
      }
    }
    SameEverywhere(a, b);
  }

  lemma FindLast(updates: seq<Level>, price: FixedDecimal) returns (k: int)
    requires !Untouched(updates, price)
    ensures LastUpdate(updates, price, k)
  {
    k := |updates| - 1;
    while updates[k].0 != price
      invariant 0 <= k < |updates| && forall j :: k < j < |updates| ==> updates[j].0 != price
      invariant exists j :: 0 <= j <= k && updates[j].0 == price
      decreases k
    {
      k := k - 1;
    }
  }

  lemma EntriesAgree(a: Side, b: Side, price: FixedDecimal, quantity: FixedDecimal)
    requires Holds(a, price, quantity) && Holds(b, price, quantity)
    ensures SameEntry(a, b, price)
  {
  }

  lemma SameTwice(side: Side, a: Side, b: Side, price: FixedDecimal)
    requires SameEntry(side, a, price) && SameEntry(side, b, price)
    ensures SameEntry(a, b, price)
  {
  }

  lemma SameEverywhere(a: Side, b: Side)
    requires forall price :: SameEntry(a, b, price)
    ensures a == b
  {
    assert forall price :: SameEntry(a, b, price) ==> (price in a <==> price in b);
    forall price | price in a ensures a[price] == b[price] {
      assert SameEntry(a, b, price);
    }
  }

  // ----- a snapshot side -----

  /** The side lists exactly the levels with a quantity, no price twice. */
  ghost predicate Lists(levels: seq<Level>, side: Side) {
    && (forall i, j :: 0 <= i < j < |levels| && levels[i].1.coefficient != 0 && levels[j].1.coefficient != 0 ==>
          levels[i].0 != levels[j].0)
    && (forall price :: price in side <==> Listed(levels, price))
    && (forall i :: 0 <= i < |levels| && levels[i].1.coefficient != 0 ==>
          levels[i].0 in side && side[levels[i].0] == levels[i].1)
  }

  ghost predicate Listed(levels: seq<Level>, price: FixedDecimal) {
    exists i :: 0 <= i < |levels| && levels[i].0 == price && levels[i].1.coefficient != 0
  }

  lemma {:induction false} CollectedLists(values: seq<Value>, levels: seq<Level>)
    requires ParseLevels(values) == Ok(levels)
    ensures CollectSide(values).Ok? ==> Lists(levels, CollectSide(values).value)
    ensures CollectSide(values).Err? ==>
      exists i, j :: 0 <= i < j < |levels| && levels[i].1.coefficient != 0 && levels[j].1.coefficient != 0
        && levels[i].0 == levels[j].0
  {
    hide ParseLevel;
    if values != [] {
      var last := |values| - 1;
      var front := levels[..last];
      assert levels == front + [levels[last]] && ParseLevels(values[..last]) == Ok(front);
      CollectedLists(values[..last], front);
      var before := CollectSide(values[..last]);
      if before.Err? {
        var i, j :| 0 <= i < j < |front| && front[i].1.coefficient != 0 && front[j].1.coefficient != 0
          && front[i].0 == front[j].0;
        assert levels[i] == front[i] && levels[j] == front[j];
      } else {
        OneMoreLevel(front, levels[last], before.value);
      }
    }
  }

  lemma OneMoreLevel(front: seq<Level>, level: Level, side: Side)
    requires Lists(front, side)
    ensures level.1.coefficient == 0 ==> Lists(front + [level], side)
    ensures level.1.coefficient != 0 && level.0 !in side ==> Lists(front + [level], side[level.0 := level.1])
    ensures level.1.coefficient != 0 && level.0 in side ==>
      exists i, j :: 0 <= i < j < |front + [level]| && (front + [level])[i].1.coefficient != 0
        && (front + [level])[j].1.coefficient != 0 && (front + [level])[i].0 == (front + [level])[j].0
  {
    var levels := front + [level];
    forall price ensures Listed(levels, price) <==> Listed(front, price) || (price == level.0 && level.1.coefficient != 0) {
      if i :| 0 <= i < |front| && front[i].0 == price && front[i].1.coefficient != 0 {
        assert levels[i] == front[i];
      }
      assert levels[|front|] == level;
    }
    if level.1.coefficient != 0 && level.0 in side {
      var i :| 0 <= i < |front| && front[i].0 == level.0 && front[i].1.coefficient != 0;
      assert levels[i] == front[i] && levels[|front|] == level;
    }
  }

  // ----- updates and snapshots -----

  predicate Has(fields: map<string, Value>, key: string, v: Value) {
    key in fields && fields[key] == v
  }

  /** The field is the integer, or the boolean that counts as it. */
  predicate HasInt(fields: map<string, Value>, key: string, n: int) {
    || Has(fields, key, Integer(n))
    || (n == 1 && Has(fields, key, Boolean(true))) || (n == 0 && Has(fields, key, Boolean(false)))
  }

  /** The payload is a depth update of the symbol with these identifiers and level lists. */
  ghost predicate IsUpdate(payload: Payload, symbol: string, first: int, final: int, bids: seq<Value>, asks: seq<Value>) {
    && payload.Some? && payload.value.Object?
    && var fields := payload.value.fields;
       && Has(fields, "e", Text("depthUpdate")) && Has(fields, "s", Text(symbol))
       && HasInt(fields, "U", first) && HasInt(fields, "u", final) && first <= final
       && Has(fields, "b", Array(bids)) && Has(fields, "a", Array(asks))
  }

  lemma {:induction false} UpdateMeans(payload: Payload, symbol: string, f: DepthFields)
    ensures DepthFieldsOf(payload, symbol) == Some(f) <==> IsUpdate(payload, symbol, f.first, f.final, f.bids, f.asks)
  {
  }

  /** Both sides hold prices, and every bid is numerically below every ask. */
  ghost predicate Sound(bids: Side, asks: Side) {
    && (exists p :: p in bids) && (exists q :: q in asks)
    && forall p, q :: p in bids && q in asks ==> Units(p) < Units(q)
  }

  lemma {:induction false} UncrossedMeans(bids: Side, asks: Side)
    ensures Uncrossed(bids, asks) <==> Sound(bids, asks)
  {
    hide Less, Units;
    forall p, q ensures Less(p, q) <==> Units(p) < Units(q) {
      LessIsNumeric(p, q);
    }
    if Uncrossed(bids, asks) {
      assert bids.Keys != {} && asks.Keys != {};
    }
  }

  /** The two sides of the new book follow the level lists of the update, bids by `b`, asks by `a`. */
  ghost predicate Updated(b: Book, b': Book, bids: seq<Value>, asks: seq<Value>) {
    exists bidLevels, askLevels ::
      && ParseLevels(bids) == Ok(bidLevels) && Follows(b.bids, bidLevels, b'.bids)
      && ParseLevels(asks) == Ok(askLevels) && Follows(b.asks, askLevels, b'.asks)
  }

  /**
    What `apply_depth` does with an update, by its identifiers `U` and `u` and the position of the
    book: an old one is skipped, one that starts too late is a gap, and one that bridges the next
    identifier is applied to both sides, if its levels can be read.
   */
  lemma {:induction false} ApplyMeans(b: Book, payload: Payload, first: int, final: int, bids: seq<Value>, asks: seq<Value>)
    requires b.state in {Syncing, Live} && b.lastUpdateId.Some? && IsUpdate(payload, b.symbol, first, final, bids, asks)
    ensures
      var (b', outcome) := ApplyDepth(b, payload);
      var last := b.lastUpdateId.value;
      && (final <= last ==> outcome == Old && b' == b)
      && (last < final && last + 1 < first ==> outcome == DepthGap && b' == b.(state := Gap))
      && (first <= last + 1 <= final && (ParseLevels(bids).Err? || ParseLevels(asks).Err?) ==> outcome == Rejected && b' == b)
      && (first <= last + 1 <= final && ParseLevels(bids).Ok? && ParseLevels(asks).Ok? ==>
            && Updated(b, b', bids, asks) && b'.lastUpdateId == Some(final) && b'.symbol == b.symbol
            && (if Sound(b'.bids, b'.asks) then outcome == Applied && b'.state == Live
                else outcome == InvariantBroken && b'.state == Invalid))
  {
    hide ParseLevels, ApplyUpdates, Follows, Uncrossed, Sound, DepthFieldsOf, IsUpdate;
    UpdateMeans(payload, b.symbol, DepthFields(first, final, bids, asks));
    if ParseLevels(bids).Ok? && ParseLevels(asks).Ok? {
      UpdatesDecide(b.bids, ParseLevels(bids).value);
      UpdatesDecide(b.asks, ParseLevels(asks).value);
      UncrossedMeans(ApplyUpdates(b.bids, ParseLevels(bids).value), ApplyUpdates(b.asks, ParseLevels(asks).value));
    }
  }

  /** Anything that is not an update of the symbol is refused and changes nothing. */
  lemma {:induction false} OthersAreRefused(b: Book, payload: Payload)
    requires forall first, final, bids, asks :: !IsUpdate(payload, b.symbol, first, final, bids, asks)
    ensures ApplyDepth(b, payload) == (b, Rejected)
  {
    hide IsUpdate, DepthFieldsOf;
    if DepthFieldsOf(payload, b.symbol).Some? {
      UpdateMeans(payload, b.symbol, DepthFieldsOf(payload, b.symbol).value);
    }
  }

  /** The payload is a snapshot at this update with these level lists. */
  ghost predicate IsSnapshot(payload: Payload, updateId: int, bids: seq<Value>, asks: seq<Value>) {
    && payload.Some? && payload.value.Object? && updateId >= 0
    && var fields := payload.value.fields;
       && HasInt(fields, "lastUpdateId", updateId)
       && Has(fields, "bids", Array(bids)) && Has(fields, "asks", Array(asks))
  }

  lemma {:induction false} SnapshotMeans(payload: Payload, f: SnapshotFields)
    ensures SnapshotFieldsOf(payload) == Some(f) <==> IsSnapshot(payload, f.updateId, f.bids, f.asks)
  {
  }

  /** The values denote levels, and the side lists exactly those with a quantity, at least one. */
  ghost predicate ListedBy(values: seq<Value>, side: Side) {
    exists levels :: ParseLevels(values) == Ok(levels) && Lists(levels, side) && side != map[]
  }

  lemma {:induction false} SideIsListed(values: seq<Value>)
    ensures LoadSide(values).Ok? ==> ListedBy(values, LoadSide(values).value)
  {
    hide Lists;
    if LoadSide(values).Ok? {
      CollectedParses(values);
      CollectedLists(values, ParseLevels(values).value);
    }
  }

  lemma {:induction false} CollectedParses(values: seq<Value>)
    requires CollectSide(values).Ok?
    ensures ParseLevels(values).Ok?
  {
    hide ParseLevel;
    if values != [] {
      CollectedParses(values[..|values| - 1]);
    }
  }

  /** A side of readable levels, distinct where they have a quantity and not all zero, is loaded. */
  lemma {:induction false} ListedIsLoaded(values: seq<Value>, side: Side)
    requires ListedBy(values, side)
    ensures LoadSide(values) == Ok(side)
  {
    hide Listed, ParseLevels;
    var levels :| ParseLevels(values) == Ok(levels) && Lists(levels, side) && side != map[];
    CollectedLists(values, levels);
    OneList(levels, CollectSide(values).value, side);
  }

  lemma OneList(levels: seq<Level>, a: Side, b: Side)
    requires Lists(levels, a) && Lists(levels, b)
    ensures a == b
  {
    forall price | price in a ensures a[price] == b[price] {
      assert Listed(levels, price);
    }
  }

  /** What `load_snapshot` does: the loaded book lists the snapshot's own sides at its own update. */
  lemma {:induction false} LoadMeans(b: Book, payload: Payload)
    requires b.state == Empty
    ensures
      var (b', outcome) := LoadSnapshot(b, payload);
      && (outcome.Loaded? <==>
            exists updateId, bids, asks, bidSide, askSide ::
              && IsSnapshot(payload, updateId, bids, asks) && ListedBy(bids, bidSide) && ListedBy(asks, askSide)
              && Sound(bidSide, askSide)
              && b' == Book(b.symbol, Syncing, Some(updateId), bidSide, askSide) && outcome == Loaded(updateId))
  {
    hide LoadSide, ListedBy, Uncrossed, Sound, IsSnapshot, SnapshotFieldsOf;
    var (b', outcome) := LoadSnapshot(b, payload);
    if outcome.Loaded? {
      UncrossedMeans(b'.bids, b'.asks);
      var f := SnapshotFieldsOf(payload).value;
      SnapshotMeans(payload, f);
      SideIsListed(f.bids);
      SideIsListed(f.asks);
      assert ListedBy(f.bids, b'.bids) && ListedBy(f.asks, b'.asks);
    }
  }

  /** A snapshot with two such sides that do not cross is loaded into an empty book. */
  lemma {:induction false} SnapshotLoads(b: Book, payload: Payload, updateId: int, bids: seq<Value>, asks: seq<Value>, bidSide: Side, askSide: Side)
    requires b.state == Empty && IsSnapshot(payload, updateId, bids, asks)
    requires ListedBy(bids, bidSide) && ListedBy(asks, askSide) && Sound(bidSide, askSide)
    ensures LoadSnapshot(b, payload) == (Book(b.symbol, Syncing, Some(updateId), bidSide, askSide), Loaded(updateId))
  {
    hide LoadSide, ListedBy, Uncrossed, Sound, IsSnapshot, SnapshotFieldsOf;
    UncrossedMeans(bidSide, askSide);
    SnapshotMeans(payload, SnapshotFields(updateId, bids, asks));
    ListedIsLoaded(bids, bidSide);
    ListedIsLoaded(asks, askSide);
  }

  /** The values denote levels, no price twice where it has a quantity, and none has one. */
  ghost predicate ListsNothing(values: seq<Value>) {
    exists levels :: ParseLevels(values) == Ok(levels) && Lists(levels, map[])
  }

  lemma NothingIsListed(values: seq<Value>)
    ensures LoadSide(values) == Err(EmptySide) <==> ListsNothing(values)
  {
    hide Listed, ParseLevels, CollectSide;
    if ListsNothing(values) {
      var levels :| ParseLevels(values) == Ok(levels) && Lists(levels, map[]);
      CollectedLists(values, levels);
      OneList(levels, CollectSide(values).value, map[]);
    }
    if LoadSide(values) == Err(EmptySide) {
      CollectFails(values);
      CollectedParses(values);
      CollectedLists(values, ParseLevels(values).value);
    }
  }

  lemma {:induction false} CollectFails(values: seq<Value>)
    ensures CollectSide(values).Err? ==> CollectSide(values).error != EmptySide
  {
    if values != [] {
      CollectFails(values[..|values| - 1]);
    }
  }

  /**
    Which failures are broken invariants: a side without quantity, read in the order bids and asks,
    or two sides that cross; everything else is a refused value.
   */
  lemma {:induction false} LoadFailureMeans(b: Book, payload: Payload, updateId: int, bids: seq<Value>, asks: seq<Value>)
    requires b.state == Empty && IsSnapshot(payload, updateId, bids, asks)
    ensures
      LoadSnapshot(b, payload).1 == LoadInvariantBroken <==>
      || ListsNothing(bids)
      || exists bidSide :: ListedBy(bids, bidSide) &&
           (ListsNothing(asks) || exists askSide :: ListedBy(asks, askSide) && !Sound(bidSide, askSide))
  {
    hide LoadSide, ListedBy, ListsNothing, Uncrossed, Sound, IsSnapshot, SnapshotFieldsOf;
    SnapshotMeans(payload, SnapshotFields(updateId, bids, asks));
    NothingIsListed(bids);
    NothingIsListed(asks);
    SideIsListed(bids);
    SideIsListed(asks);
    forall side | ListedBy(bids, side) ensures LoadSide(bids) == Ok(side) {
      ListedIsLoaded(bids, side);
    }
    forall side | ListedBy(asks, side) ensures LoadSide(asks) == Ok(side) {
      ListedIsLoaded(asks, side);
    }
    if LoadSide(bids).Ok? && LoadSide(asks).Ok? {
      UncrossedMeans(LoadSide(bids).value, LoadSide(asks).value);
    }
  }

  // ----- the text of one book -----

  function Whole(n: nat): FixedDecimal { Decimal(n, 0) }

  const BIDS: Side := map[Whole(1) := Whole(5), Whole(2) := Whole(6)]
  const ASKS: Side := map[Whole(3) := Whole(7), Whole(4) := Whole(8)]

  lemma WholeText(n: nat)
    requires n < 10
    ensures Format(Whole(n)) == [DigitChar(n)] && FormatInt(n) == [DigitChar(n)] && Units(Whole(n)) == n * Powers.Pow10(MAX_SCALE)
  {
  }

  lemma {:induction false} WholeOrder(m: nat, n: nat)
    requires m < n
    ensures Units(Whole(m)) < Units(Whole(n))
  {
    MulOrder(m, n, Powers.Pow10(MAX_SCALE));
  }

  lemma TwoPrices(side: Side, m: nat, n: nat)
    requires SideOk(side) && m < n && side.Keys == {Whole(m), Whole(n)}
    ensures SortedPrices(side.Keys) == [Whole(m), Whole(n)]
  {
    hide Units;
    WholeOrder(m, n);
    IndexIsSortedPrices([Whole(m), Whole(n)], side);
  }

  lemma TwoEntries(side: Side, a: FixedDecimal, b: FixedDecimal, text: string)
    requires a in side && b in side
    requires text == EntryText((Format(a), Format(side[a]))) + "," + EntryText((Format(b), Format(side[b])))
    ensures JoinEntries(Entries(side, [a, b])) == text
  {
    hide Format, EntryText;
    var es := Entries(side, [a, b]);
    assert es == [EntryAt(side, a), EntryAt(side, b)];
    assert es[1..] == [EntryAt(side, b)];
  }

  lemma SmallSidesOk()
    ensures SideOk(BIDS) && SideOk(ASKS)
  {
  }

  lemma DigitTexts()
    ensures Format(Whole(1)) == "1" && Format(Whole(2)) == "2" && Format(Whole(3)) == "3" && Format(Whole(4)) == "4"
    ensures Format(Whole(5)) == "5" && Format(Whole(6)) == "6" && Format(Whole(7)) == "7" && Format(Whole(8)) == "8"
    ensures FormatInt(9) == "9"
  {
    WholeText(1);
    WholeText(2);
    WholeText(3);
    WholeText(4);
    WholeText(5);
    WholeText(6);
    WholeText(7);
    WholeText(8);
    WholeText(9);
  }

  /** The text of a small book, piece by piece: keys in order, asks upward, bids downward. */
  lemma {:induction false} MaterialExample()
    ensures SideOk(BIDS) && SideOk(ASKS)
    ensures Serialize("BTCUSDT", 9, BIDS, ASKS) ==
      "{\"asks\":[" + ("[\"3\",\"7\"],[\"4\",\"8\"]" + ("]" + (",\"bids\":[" + ("[\"2\",\"6\"],[\"1\",\"5\"]" + ("]" +
      (",\"last_update_id\":" + ("9" + (",\"symbol\":\"" + ("BTCUSDT" + "\"}")))))))))
  {
    hide Format, FormatInt, SideOk, JoinEntries, SortedPrices, Entries, Reversed;
    SmallSidesOk();
    DigitTexts();
    AsksExample();
    BidsExample();
  }

  lemma AsksExample()
    ensures SideOk(ASKS) && AskText(ASKS) == "[\"3\",\"7\"],[\"4\",\"8\"]"
  {
    hide Format, SideOk, JoinEntries, SortedPrices;
    SmallSidesOk();
    DigitTexts();
    assert ASKS.Keys == {Whole(3), Whole(4)};
    TwoPrices(ASKS, 3, 4);
    TwoEntries(ASKS, Whole(3), Whole(4), "[\"3\",\"7\"],[\"4\",\"8\"]");
  }

  lemma BidsExample()
    ensures SideOk(BIDS) && BidText(BIDS) == "[\"2\",\"6\"],[\"1\",\"5\"]"
  {
    hide Format, SideOk, JoinEntries, SortedPrices;
    SmallSidesOk();
    DigitTexts();
    assert BIDS.Keys == {Whole(1), Whole(2)};
    TwoPrices(BIDS, 1, 2);
    assert Reversed([Whole(1), Whole(2)]) == [Whole(2), Whole(1)];
    TwoEntries(BIDS, Whole(2), Whole(1), "[\"2\",\"6\"],[\"1\",\"5\"]");
  }
}
