/**
  The local order book: snapshot, diff-depth updates and the publication state machine.
  `Book` is the abstract value with its pure transition functions; `LocalOrderBook` is the
  object that maintains dictionaries and sorted price lists in place.
 */
module OrderBook {
  import opened Wrappers
  import opened FixedDecimals
  import opened Json
  import opened BookSides
  import opened BookText

  // ----- publication states (state.py) -----

  datatype BookState = Empty | Syncing | Live | Gap | Stale | Invalid | Resyncing | Stopped

  predicate Allowed(current: BookState, target: BookState) {
    match current
    case Empty => target in {Syncing, Stopped}
    case Syncing => target in {Live, Gap, Invalid, Stopped}
    case Live => target in {Gap, Stale, Invalid, Stopped}
    case Gap => target in {Resyncing, Stopped}
    case Stale => target in {Resyncing, Stopped}
    case Invalid => target in {Resyncing, Stopped}
    case Resyncing => target in {Live, Gap, Invalid, Stopped}
    case Stopped => false
  }

  /** `transition`; the source raises on a move outside the table, which the book never asks for. */
  function Transition(current: BookState, target: BookState): (r: BookState)
    requires Allowed(current, target)
    ensures r == target
  {
    target
  }

  // ----- the abstract book -----

  datatype Book = Book(
    symbol: string,
    state: BookState,
    lastUpdateId: Option<int>,
    bids: Side,
    asks: Side)

  datatype ApplyOutcome = Applied | Old | Rejected | DepthGap | InvariantBroken

  datatype LoadOutcome = Loaded(updateId: int) | LoadRejected | LoadInvariantBroken

  /** Both sides hold prices and every bid is below every ask, so best bid < best ask. */
  ghost predicate Uncrossed(bids: Side, asks: Side) {
    && bids != map[] && asks != map[]
    && forall b, a :: b in bids && a in asks ==> Less(b, a)
  }

  ghost predicate BookOk(b: Book) {
    b.state != Empty ==>
      && SideOk(b.bids) && SideOk(b.asks)
      && b.lastUpdateId.Some?
      && (b.state in {Syncing, Live} ==> Uncrossed(b.bids, b.asks))
  }

  datatype DepthFields = DepthFields(first: int, final: int, bids: seq<Value>, asks: seq<Value>)

  /** The checks `apply_depth` makes on an update before it looks at the book's position. */
  function DepthFieldsOf(payload: Payload, symbol: string): Option<DepthFields> {
    if !(payload.Some? && payload.value.Object?) then None
    else
      var fields := payload.value.fields;
      var first, final := AsInt(Get(fields, "U")), AsInt(Get(fields, "u"));
      var bids, asks := Get(fields, "b"), Get(fields, "a");
      if Get(fields, "e") != Text("depthUpdate") || Get(fields, "s") != Text(symbol) then None
      else if first.None? || final.None? || first.value > final.value then None
      else if !bids.Array? || !asks.Array? then None
      else Some(DepthFields(first.value, final.value, bids.items, asks.items))
  }

  ghost function Settled(b: Book): (Book, ApplyOutcome)
    requires b.state in {Syncing, Live}
  {
    if Uncrossed(b.bids, b.asks) then (b, Applied)
    else (b.(state := Transition(b.state, Invalid)), InvariantBroken)
  }

  /** `apply_depth` on abstract books. */
  ghost function ApplyDepth(b: Book, payload: Payload): (Book, ApplyOutcome) {
    if b.state !in {Syncing, Live} || b.lastUpdateId.None? then (b, Rejected)
    else
      var fields := DepthFieldsOf(payload, b.symbol);
      if fields.None? then (b, Rejected)
      else
        var expected := b.lastUpdateId.value + 1;
        var f := fields.value;
        if f.final < expected then (b, Old)
        else if f.first > expected || f.final < expected then
          (b.(state := Transition(b.state, Gap)), DepthGap)
        else
          var bids, asks := ParseLevels(f.bids), ParseLevels(f.asks);
          if bids.Err? || asks.Err? then (b, Rejected)
          else
            Settled(Book(b.symbol,
                         if b.state == Syncing then Transition(b.state, Live) else b.state,
                         Some(f.final),
                         ApplyUpdates(b.bids, bids.value),
                         ApplyUpdates(b.asks, asks.value)))
  }

  datatype SnapshotFields = SnapshotFields(updateId: int, bids: seq<Value>, asks: seq<Value>)

  function SnapshotFieldsOf(payload: Payload): Option<SnapshotFields> {
    if !(payload.Some? && payload.value.Object?) then None
    else
      var fields := payload.value.fields;
      var updateId := AsInt(Get(fields, "lastUpdateId"));
      var bids, asks := Get(fields, "bids"), Get(fields, "asks");
      if updateId.None? || updateId.value < 0 || !bids.Array? || !asks.Array? then None
      else Some(SnapshotFields(updateId.value, bids.items, asks.items))
  }

  function LoadFailure(e: BookError): LoadOutcome {
    if e == EmptySide then LoadInvariantBroken else LoadRejected
  }

  /**
    `load_snapshot` on abstract books.  A bad ask side leaves the book `Empty` with the bid
    side already assigned, as the code does.
   */
  ghost function LoadSnapshot(b: Book, payload: Payload): (Book, LoadOutcome) {
    if b.state != Empty then (b, LoadRejected)
    else
      var fields := SnapshotFieldsOf(payload);
      if fields.None? then (b, LoadRejected)
      else
        var bids, asks := LoadSide(fields.value.bids), LoadSide(fields.value.asks);
        if bids.Err? then (b, LoadFailure(bids.error))
        else if asks.Err? then (b.(bids := bids.value), LoadFailure(asks.error))
        else
          var loaded := Book(b.symbol, Transition(b.state, Syncing), Some(fields.value.updateId),
                             bids.value, asks.value);
          if Uncrossed(loaded.bids, loaded.asks) then (loaded, Loaded(fields.value.updateId))
          else (loaded.(state := Transition(loaded.state, Invalid)), LoadInvariantBroken)
  }

  /** Every step keeps the book invariant, and a normal return leaves the book uncrossed. */
  lemma {:induction false} ApplyKeepsBook(b: Book, payload: Payload)
    requires BookOk(b)
    ensures var (b', outcome) := ApplyDepth(b, payload);
      && BookOk(b')
      && b'.symbol == b.symbol
      && (outcome == Applied ==>
            && b'.state == Live && Uncrossed(b'.bids, b'.asks)
            && b.lastUpdateId.Some? && b'.lastUpdateId.Some? && b.lastUpdateId.value < b'.lastUpdateId.value)
      && (outcome in {Old, Rejected} ==> b' == b)
      && (outcome == DepthGap ==> b' == b.(state := Gap))
      && (outcome == InvariantBroken ==> b'.state == Invalid)
  {
    hide SideOk, Uncrossed, ParseLevels, ApplyUpdates;
    var fields := DepthFieldsOf(payload, b.symbol);
    if b.state in {Syncing, Live} && fields.Some? {
      var bids, asks := ParseLevels(fields.value.bids), ParseLevels(fields.value.asks);
      if bids.Ok? && asks.Ok? {
        ApplyUpdatesOk(b.bids, bids.value);
        ApplyUpdatesOk(b.asks, asks.value);
      }
    }
  }

  /**
    A snapshot is loaded only into an empty book.  One that is malformed or has an empty side
    leaves it `Empty`; one whose sides are both there but crossed leaves it `Invalid`.
   */
  lemma {:induction false} LoadKeepsBook(b: Book, payload: Payload)
    requires BookOk(b)
    ensures var (b', outcome) := LoadSnapshot(b, payload);
      && BookOk(b') && b'.symbol == b.symbol
      && (outcome.Loaded? ==>
            && b.state == Empty && b'.state == Syncing && Uncrossed(b'.bids, b'.asks)
            && b'.lastUpdateId == Some(outcome.updateId) && outcome.updateId >= 0)
      && (outcome.LoadRejected? ==> b'.state == b.state)
      && (outcome.LoadInvariantBroken? ==>
            && b.state == Empty
            && (if b'.state == Invalid
                then b'.bids != map[] && b'.asks != map[] && b'.lastUpdateId.Some? && !Uncrossed(b'.bids, b'.asks)
                else b'.state == Empty))
      && (b.state != Empty ==> b' == b)
  {
    hide Uncrossed, LoadSide;
  }

  /** A gap or an invalid book refuses every further update and never changes again. */
  lemma {:induction false} StuckStatesAbsorb(b: Book, payloads: seq<Payload>)
    requires b.state in {Gap, Invalid}
    ensures Replay(b, payloads).0 == b
    ensures forall i :: 0 <= i < |payloads| ==> Replay(b, payloads).1[i] == Rejected
  {
    hide DepthFieldsOf, Settled, ParseLevels;
    if payloads != [] {
      StuckStatesAbsorb(b, payloads[..|payloads| - 1]);
    }
  }

  /** The book after applying the payloads in order, and the outcome of each. */
  ghost function Replay(b: Book, payloads: seq<Payload>): (r: (Book, seq<ApplyOutcome>))
    ensures |r.1| == |payloads|
  {
    if payloads == [] then (b, [])
    else
      var last := |payloads| - 1;
      var (before, outcomes) := Replay(b, payloads[..last]);
      var (after, outcome) := ApplyDepth(before, payloads[last]);
      (after, outcomes + [outcome])
  }

  lemma {:induction false} ReplayKeepsBook(b: Book, payloads: seq<Payload>)
    requires BookOk(b)
    ensures BookOk(Replay(b, payloads).0)
    ensures Replay(b, payloads).0.symbol == b.symbol
  {
    hide ApplyDepth, BookOk;
    if payloads != [] {
      var last := |payloads| - 1;
      ReplayKeepsBook(b, payloads[..last]);
      ApplyKeepsBook(Replay(b, payloads[..last]).0, payloads[last]);
    }
  }

  /** The text whose SHA-256 is `state_digest`. */
  ghost function Material(b: Book): string
    requires BookOk(b) && b.state != Empty
  {
    Serialize(b.symbol, b.lastUpdateId.value, b.bids, b.asks)
  }

  /** Equal material means equal symbol, position and sides. */
  lemma {:induction false} MaterialIsInjective(b: Book, c: Book)
    requires BookOk(b) && b.state != Empty && BookOk(c) && c.state != Empty
    requires Material(b) == Material(c)
    ensures c == b.(state := c.state)
  {
    hide Serialize, SideOk;
    SerializeIsInjective(b.symbol, b.lastUpdateId.value, b.bids, b.asks,
                         c.symbol, c.lastUpdateId.value, c.bids, c.asks);
  }

  // ----- the object -----

  /** `max(dict)` over prices. */
  method MaxPrice(side: Side) returns (best: FixedDecimal)
    requires side != map[]
    ensures best in side && forall p :: p in side ==> !Less(best, p)
  {
    hide Less, Units;
    best :| best in side.Keys;
    LessIsNumeric(best, best);
    var rest := side.Keys - {best};
    while rest != {}
      invariant best in side && rest <= side.Keys
      invariant forall p :: p in side && p !in rest ==> !Less(best, p)
      decreases rest
    {
      var p :| p in rest;
      if Less(best, p) {
        forall q | q in side && q !in rest ensures !Less(p, q) {
          LessIsNumeric(best, p);
          LessIsNumeric(best, q);
          LessIsNumeric(p, q);
        }
        LessIsNumeric(p, p);
        best := p;
      }
      rest := rest - {p};
    }
  }

  /** `min(dict)` over prices. */
  method MinPrice(side: Side) returns (best: FixedDecimal)
    requires side != map[]
    ensures best in side && forall p :: p in side ==> !Less(p, best)
  {
    hide Less, Units;
    best :| best in side.Keys;
    LessIsNumeric(best, best);
    var rest := side.Keys - {best};
    while rest != {}
      invariant best in side && rest <= side.Keys
      invariant forall p :: p in side && p !in rest ==> !Less(p, best)
      decreases rest
    {
      var p :| p in rest;
      if Less(p, best) {
        forall q | q in side && q !in rest ensures !Less(q, p) {
          LessIsNumeric(p, best);
          LessIsNumeric(q, best);
          LessIsNumeric(q, p);
        }
        LessIsNumeric(p, p);
        best := p;
      }
      rest := rest - {p};
    }
  }

  lemma {:induction false} BestPricesDecide(bids: Side, asks: Side, bid: FixedDecimal, ask: FixedDecimal)
    requires bid in bids && forall p :: p in bids ==> !Less(bid, p)
    requires ask in asks && forall p :: p in asks ==> !Less(p, ask)
    ensures Less(bid, ask) <==> Uncrossed(bids, asks)
  {
    hide Less, Units;
    if Less(bid, ask) {
      forall b, a | b in bids && a in asks ensures Less(b, a) {
        LessIsNumeric(bid, ask);
        LessIsNumeric(bid, b);
        LessIsNumeric(a, ask);
        LessIsNumeric(b, a);
      }
    }
  }

  class LocalOrderBook {
    const symbol: string
    var state: BookState
    var lastUpdateId: Option<int>
    var bids: Side
    var asks: Side
    var bidPrices: seq<FixedDecimal>
    var askPrices: seq<FixedDecimal>

    ghost function View(): Book
      reads this
    {
      Book(symbol, state, lastUpdateId, bids, asks)
    }

    ghost predicate Valid()
      reads this
    {
      && BookOk(View())
      && (state != Empty ==> Indexes(bidPrices, bids) && Indexes(askPrices, asks))
    }

    constructor (symbol: string)
      ensures Valid() && View() == Book(symbol, Empty, None, map[], map[])
    {
      this.symbol := symbol;
      state, lastUpdateId := Empty, None;
      bids, asks, bidPrices, askPrices := map[], map[], [], [];
    }

    /** `_check_invariants`: a crossed, locked or empty book becomes invalid. */
    method CheckInvariants() returns (ok: bool)
      requires state in {Syncing, Live}
      modifies this`state
      ensures ok <==> Uncrossed(bids, asks)
      ensures state == if ok then old(state) else Invalid
    {
      ok := bids != map[] && asks != map[];
      if ok {
        var bestBid := MaxPrice(bids);
        var bestAsk := MinPrice(asks);
        BestPricesDecide(bids, asks, bestBid, bestAsk);
        ok := Less(bestBid, bestAsk);
      }
      if !ok {
        state := Transition(state, Invalid);
      }
    }

    method Load(payload: Payload) returns (outcome: LoadOutcome)
      requires Valid()
      modifies this
      ensures Valid()
      ensures (View(), outcome) == LoadSnapshot(old(View()), payload)
    {
      hide SideOk, Uncrossed, LoadSide, Indexes;
      if state != Empty {
        return LoadRejected;
      }
      var fields := SnapshotFieldsOf(payload);
      if fields.None? {
        return LoadRejected;
      }
      var bidSide := LoadSide(fields.value.bids);
      if bidSide.Err? {
        return LoadFailure(bidSide.error);
      }
      bids := bidSide.value;
      var askSide := LoadSide(fields.value.asks);
      if askSide.Err? {
        return LoadFailure(askSide.error);
      }
      asks := askSide.value;
      bidPrices := SortPrices(bids);
      askPrices := SortPrices(asks);
      lastUpdateId := Some(fields.value.updateId);
      state := Transition(state, Syncing);
      var ok := CheckInvariants();
      outcome := if ok then Loaded(fields.value.updateId) else LoadInvariantBroken;
    }

    method Apply(payload: Payload) returns (outcome: ApplyOutcome)
      requires Valid()
      modifies this
      ensures Valid()
      ensures (View(), outcome) == ApplyDepth(old(View()), payload)
    {
      hide SideOk, Uncrossed, ParseLevels, ApplyUpdates, Indexes, LevelOk;
      if state !in {Syncing, Live} {
        return Rejected;
      }
      if lastUpdateId.None? {
        return Rejected;
      }
      var fields := DepthFieldsOf(payload, symbol);
      if fields.None? {
        return Rejected;
      }
      var f := fields.value;
      if f.final < lastUpdateId.value + 1 {
        return Old;
      }
      var expected := lastUpdateId.value + 1;
      if f.first > expected || f.final < expected {
        state := Transition(state, Gap);
        return DepthGap;
      }
      var bidUpdates, askUpdates := ParseLevels(f.bids), ParseLevels(f.asks);
      if bidUpdates.Err? || askUpdates.Err? {
        return Rejected;
      }
      outcome := ApplyLevels(bidUpdates.value, askUpdates.value, f.final);
    }

    /** The part of `apply_depth` that changes the sides. */
    method ApplyLevels(bidUpdates: seq<Level>, askUpdates: seq<Level>, final: int) returns (outcome: ApplyOutcome)
      requires Valid() && state in {Syncing, Live}
      requires forall i :: 0 <= i < |bidUpdates| ==> LevelOk(bidUpdates[i])
      requires forall i :: 0 <= i < |askUpdates| ==> LevelOk(askUpdates[i])
      modifies this
      ensures Valid()
      ensures (View(), outcome) ==
        Settled(Book(symbol, Live, Some(final), ApplyUpdates(old(bids), bidUpdates), ApplyUpdates(old(asks), askUpdates)))
    {
      hide SideOk, Uncrossed, ApplyUpdates, Indexes, LevelOk;
      bids, bidPrices := ApplySide(bids, bidPrices, bidUpdates);
      asks, askPrices := ApplySide(asks, askPrices, askUpdates);
      lastUpdateId := Some(final);
      if state == Syncing {
        state := Transition(state, Live);
      }
      var ok := CheckInvariants();
      outcome := if ok then Applied else InvariantBroken;
    }

    /**
      The streamed text of `state_digest`: walking the maintained lists and using the string
      memo writes exactly the bytes of the sort-then-print serializer.
     */
    method StateMaterial(memo: StringCache) returns (out: string)
      requires Valid() && state != Empty && memo.Valid()
      modifies memo
      ensures memo.Valid() && Valid() && state == old(state)
      ensures out == Material(View())
    {
      hide SideOk, Format, SortedPrices, EntryAt, JoinEntries, Uncrossed, StrictlySorted;
      SortedSides();
      out := "{\"asks\":[";
      var askText := WriteLevels(memo, asks, askPrices);
      out := out + askText + "],\"bids\":[";
      var bidText := WriteLevels(memo, bids, Reversed(bidPrices));
      out := out + bidText + "],\"last_update_id\":";
      out := out + FormatInt(lastUpdateId.value) + ",\"symbol\":\"" + symbol + "\"}";
      SameText(askText, bidText, FormatInt(lastUpdateId.value), symbol);
    }

    lemma SortedSides()
      requires Valid() && state != Empty
      ensures bidPrices == SortedPrices(bids.Keys) && askPrices == SortedPrices(asks.Keys)
    {
      hide SideOk, SortedPrices;
      IndexIsSortedPrices(bidPrices, bids);
      IndexIsSortedPrices(askPrices, asks);
    }

    lemma SameText(askText: string, bidText: string, id: string, symbol: string)
      ensures "{\"asks\":[" + askText + "],\"bids\":[" + bidText + "],\"last_update_id\":"
              + id + ",\"symbol\":\"" + symbol + "\"}"
           == "{\"asks\":[" + (askText + ("]" + (",\"bids\":[" +
              (bidText + ("]" + (",\"last_update_id\":" + (id + (",\"symbol\":\"" + (symbol + "\"}")))))))))
    {
    }

    /** The levels of one side in list order, comma separated. */
    method WriteLevels(memo: StringCache, side: Side, prices: seq<FixedDecimal>) returns (out: string)
      requires memo.Valid()
      requires forall p :: p in prices ==> p in side
      modifies memo
      ensures memo.Valid()
      ensures out == JoinEntries(Entries(side, prices))
    {
      hide Format, JoinEntries;
      var first := true;
      out := "";
      ghost var done: seq<Entry> := [];
      EmptyJoinText();
      for i := 0 to |prices|
        invariant memo.Valid()
        invariant first == (i == 0)
        invariant done == Entries(side, prices)[..i]
        invariant out == JoinEntries(done)
      {
        ghost var before := out;
        if !first {
          out := out + ",";
        }
        first := false;
        var p := memo.Str(prices[i]);
        var q := memo.Str(side[prices[i]]);
        out := out + "[\"" + p + "\",\"" + q + "\"]";
        ghost var e := Entries(side, prices)[i];
        assert e == (p, q);
        JoinAppend(done, e);
        StreamedEntry(before, e, i > 0);
        done := done + [e];
      }
      assert done == Entries(side, prices);
    }

    lemma EmptyJoinText()
      ensures JoinEntries([]) == ""
    {
    }

    lemma StreamedEntry(before: string, e: Entry, comma: bool)
      ensures (if comma then before + "," else before) + "[\"" + e.0 + "\",\"" + e.1 + "\"]"
           == (if comma then before + "," else before) + EntryText(e)
    {
    }

    /** `sorted(dict)`: the sorted list of a freshly loaded side. */
    method SortPrices(side: Side) returns (prices: seq<FixedDecimal>)
      requires SideOk(side)
      ensures Indexes(prices, side)
    {
      hide Units, IsCanonical, StrictlySorted;
      prices := [];
      var rest := side.Keys;
      var done: Side := map[];
      assert StrictlySorted(prices) by { NothingToSort(); }
      while rest != {}
        invariant rest <= side.Keys
        invariant done == map p | p in side && p !in rest :: side[p]
        invariant SideOk(done) && Indexes(prices, done)
        decreases rest
      {
        var p :| p in rest;
        var k := BisectRight(prices, p);
        InsertKeepsIndex(prices, done, k, p, side[p]);
        prices := prices[..k] + [p] + prices[k..];
        done := done[p := side[p]];
        rest := rest - {p};
      }
      assert done == side;
    }

    lemma NothingToSort()
      ensures StrictlySorted([])
    {
    }
  }
}
