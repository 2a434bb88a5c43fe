/** The trade side of a handover: identifiers, event digests and the overlap evidence. */
module TradeHandover {
  import opened Wrappers
  import opened Powers
  import opened Json
  import opened FixedDecimals
  import opened DepthContinuity
  import opened Handover

  /** The fields that define the identity of a trade; the dispatch time `E` is not one. */
  datatype CanonicalTrade = CanonicalTrade(
    bestMatch: bool,
    buyerIsMaker: bool,
    price: string,
    quantity: string,
    symbol: string,
    tradeId: nat,
    tradeTime: nat)

  datatype TradeError = BadTrade | IdsRegressed | NoTrade

  /** The canonical event of a trade payload. */
  function TradeOf(payload: Payload, symbol: string): Option<CanonicalTrade> {
    if !(payload.Some? && payload.value.Object?) then None
    else
      var fields := payload.value.fields;
      var id, time := AsU64(Get(fields, "t")), AsU64(Get(fields, "T"));
      var p, q := Get(fields, "p"), Get(fields, "q");
      var best, maker := Get(fields, "M"), Get(fields, "m");
      if id.None? || time.None? || AsU64(Get(fields, "E")).None? then None
      else if Get(fields, "e") != Text("trade") || Get(fields, "s") != Text(symbol) then None
      else if !p.Text? || !q.Text? || !best.Boolean? || !maker.Boolean? then None
      else
        var price, quantity := Parse(p.text), Parse(q.text);
        if price.Err? || quantity.Err? then None
        else if Canonical(price.value).coefficient <= 0 || Canonical(quantity.value).coefficient <= 0 then None
        else Some(CanonicalTrade(best.flag, maker.flag, Format(Canonical(price.value)),
                                 Format(Canonical(quantity.value)), symbol, id.value, time.value))
  }

  ghost predicate Increasing(os: seq<Observation>) {
    forall i, j :: 0 <= i < j < |os| ==> os[i].final < os[j].final
  }

  ghost function TradeRun(H: CanonicalTrade -> string, symbol: string, payloads: seq<Payload>, frame: nat)
    : (r: Result<seq<Observation>, TradeError>)
  {
    if payloads == [] then Ok([])
    else
      var last := |payloads| - 1;
      var before := TradeRun(H, symbol, payloads[..last], frame);
      if before.Err? || IsShutdown(payloads[last]) then before
      else
        var trade := TradeOf(payloads[last], symbol);
        if trade.None? then Err(BadTrade)
        else if before.value != [] && trade.value.tradeId <= before.value[|before.value| - 1].final then
          Err(IdsRegressed)
        else
          Ok(before.value + [Observation(frame + last, trade.value.tradeId, trade.value.tradeId, H(trade.value))])
  }

  lemma {:induction false} TradeRunIncreases(H: CanonicalTrade -> string, symbol: string, payloads: seq<Payload>, frame: nat)
    requires TradeRun(H, symbol, payloads, frame).Ok?
    ensures Increasing(TradeRun(H, symbol, payloads, frame).value)
  {
    hide TradeOf, IsShutdown;
    if payloads != [] {
      TradeRunIncreases(H, symbol, payloads[..|payloads| - 1], frame);
    }
  }

  lemma {:induction false} TradeRunStops(H: CanonicalTrade -> string, symbol: string, payloads: seq<Payload>, i: nat, frame: nat)
    requires i <= |payloads| && TradeRun(H, symbol, payloads[..i], frame).Err?
    ensures TradeRun(H, symbol, payloads, frame) == TradeRun(H, symbol, payloads[..i], frame)
  {
    hide TradeOf, IsShutdown;
    if i < |payloads| {
      var last := |payloads| - 1;
      assert payloads[..last][..i] == payloads[..i];
      TradeRunStops(H, symbol, payloads[..last], i, frame);
    } else {
      assert payloads[..i] == payloads;
    }
  }

  /** `_materialize_trade_window`: an accepted window has strictly increasing identifiers. */
  method MaterializeTradeWindow(H: CanonicalTrade -> string, symbol: string, payloads: seq<Payload>, frame: nat)
    returns (r: Result<seq<Observation>, TradeError>)
    ensures r.Ok? ==> TradeRun(H, symbol, payloads, frame) == r && r.value != [] && Increasing(r.value)
    ensures r.Err? ==>
      TradeRun(H, symbol, payloads, frame) == if r.error == NoTrade then Ok([]) else r
  {
    hide TradeOf;
    var observations: seq<Observation> := [];
    var previousTradeId: Option<nat> := None;
    for i := 0 to |payloads|
      invariant TradeRun(H, symbol, payloads[..i], frame) == Ok(observations)
      invariant previousTradeId ==
                if observations == [] then None else Some(observations[|observations| - 1].final)
    {
      assert payloads[..i + 1][..i] == payloads[..i];
      if !IsShutdown(payloads[i]) {
        var trade := TradeOf(payloads[i], symbol);
        if trade.None? {
          TradeRunStops(H, symbol, payloads, i + 1, frame);
          return Err(BadTrade);
        }
        if previousTradeId.Some? && trade.value.tradeId <= previousTradeId.value {
          TradeRunStops(H, symbol, payloads, i + 1, frame);
          return Err(IdsRegressed);
        }
        observations := observations +
          [Observation(frame + i, trade.value.tradeId, trade.value.tradeId, H(trade.value))];
        previousTradeId := Some(trade.value.tradeId);
      }
    }
    assert payloads[..|payloads|] == payloads;
    TradeRunIncreases(H, symbol, payloads, frame);
    if observations == [] {
      return Err(NoTrade);
    }
    return Ok(observations);
  }

  // ----- overlap evidence -----

  function Between(os: seq<Observation>, lower: nat, upper: nat): (r: seq<Observation>)
    ensures forall o :: o in r <==> o in os && lower <= o.final <= upper
  {
    if os == [] then []
    else
      var last := |os| - 1;
      assert os == os[..last] + [os[last]];
      Between(os[..last], lower, upper)
      + (if lower <= os[last].final <= upper then [os[last]] else [])
  }

  predicate SameEvents(left: seq<Observation>, right: seq<Observation>) {
    |left| == |right| && forall k :: 0 <= k < |left| ==>
      left[k].final == right[k].final && left[k].digest == right[k].digest
  }

  datatype TradeEvidence = TradeEvidence(
    lower: nat,
    upper: nat,
    commonEvents: nat,
    firstShared: Observation,
    nextShared: Observation)

  /** `_derive_trade_evidence`: both windows list the same events over their whole common range. */
  function DeriveTradeEvidence(predecessor: seq<Observation>, successor: seq<Observation>)
    : Result<TradeEvidence, EvidenceError>
    requires predecessor != [] && successor != []
  {
    var lower: nat := Max(predecessor[0].final, successor[0].final);
    var predecessorLast := predecessor[|predecessor| - 1].final;
    var successorLast := successor[|successor| - 1].final;
    if successorLast < predecessorLast then Err(NotCovering)
    else
      var upper := if predecessorLast < successorLast then predecessorLast else successorLast;
      var left := Between(predecessor, lower, upper);
      var right := Between(successor, lower, upper);
      if |left| < 2 || !SameEvents(left, right) then Err(ListsDiffer)
      else Ok(TradeEvidence(lower, upper, |left|, right[|right| - 2], right[|right| - 1]))
  }

  // ----- what the evidence says -----

  /** The window lists this trade with this event digest. */
  ghost predicate Lists(os: seq<Observation>, id: nat, digest: string) {
    exists o :: o in os && o.final == id && o.digest == digest
  }

  /** Predecessor trades followed by the successor trades above the predecessor's last one. */
  function SpliceTrades(predecessor: seq<Observation>, successor: seq<Observation>): seq<Observation>
    requires predecessor != [] && successor != []
  {
    predecessor + Between(successor, predecessor[|predecessor| - 1].final + 1,
                          Max(successor[|successor| - 1].final, predecessor[|predecessor| - 1].final + 1))
  }

  lemma {:induction false} BetweenIncreases(os: seq<Observation>, lower: nat, upper: nat)
    requires Increasing(os)
    ensures Increasing(Between(os, lower, upper))
  {
    if os != [] {
      var last := |os| - 1;
      BetweenIncreases(os[..last], lower, upper);
      var before := Between(os[..last], lower, upper);
      forall i | 0 <= i < |before| ensures before[i].final < os[last].final {
        assert before[i] in before && before[i] in os[..last];
        var k :| 0 <= k < last && os[..last][k] == before[i];
      }
    }
  }

  /** A successor trade in the common range is a predecessor trade with the same digest. */
  lemma {:induction false} CommonEventIsShared(predecessor: seq<Observation>, successor: seq<Observation>, o: Observation)
    requires predecessor != [] && successor != []
    requires Increasing(predecessor) && Increasing(successor)
    requires DeriveTradeEvidence(predecessor, successor).Ok?
    requires o in successor
    requires predecessor[0].final <= o.final <= predecessor[|predecessor| - 1].final
    ensures Lists(predecessor, o.final, o.digest)
  {
    hide Between;
    var evidence := DeriveTradeEvidence(predecessor, successor).value;
    var k :| 0 <= k < |successor| && successor[k] == o;
    assert successor[0].final <= o.final;
    var left := Between(predecessor, evidence.lower, evidence.upper);
    var right := Between(successor, evidence.lower, evidence.upper);
    assert o in right;
    var i :| 0 <= i < |right| && right[i] == o;
    assert SameEvents(left, right);
    assert left[i] in left;
    assert left[i] in predecessor;
  }

  /**
    The trade splice loses nothing and invents nothing: whenever evidence is derived, the spliced
    list is strictly increasing and, from the predecessor's first trade on, lists exactly the
    events of the two windows together.
   */
  lemma {:induction false} TradeSpliceIsExact(predecessor: seq<Observation>, successor: seq<Observation>)
    requires predecessor != [] && successor != []
    requires Increasing(predecessor) && Increasing(successor)
    requires DeriveTradeEvidence(predecessor, successor).Ok?
    ensures Increasing(SpliceTrades(predecessor, successor))
    ensures forall id: nat, digest :: predecessor[0].final <= id ==>
      (Lists(SpliceTrades(predecessor, successor), id, digest) <==>
       Lists(predecessor, id, digest) || Lists(successor, id, digest))
  {
    hide Between, DeriveTradeEvidence, Lists, Increasing, SpliceTrades;
    SpliceIncreases(predecessor, successor);
    forall id: nat, digest | predecessor[0].final <= id
      ensures Lists(SpliceTrades(predecessor, successor), id, digest) <==>
              Lists(predecessor, id, digest) || Lists(successor, id, digest)
    {
      SpliceLists(predecessor, successor, id, digest);
    }
  }

  /** The successor's trades above the predecessor's last one. */
  lemma TailOfSplice(predecessor: seq<Observation>, successor: seq<Observation>) returns (tail: seq<Observation>)
    requires predecessor != [] && successor != []
    requires Increasing(successor)
    ensures SpliceTrades(predecessor, successor) == predecessor + tail && Increasing(tail)
    ensures forall o :: o in tail <==> o in successor && predecessor[|predecessor| - 1].final < o.final
  {
    hide Between;
    var pLast, sLast := predecessor[|predecessor| - 1].final, successor[|successor| - 1].final;
    var upper: nat := Max(sLast, pLast + 1);
    tail := Between(successor, pLast + 1, upper);
    BetweenIncreases(successor, pLast + 1, upper);
    assert forall i :: 0 <= i < |successor| ==> successor[i].final <= sLast;
  }

  lemma SpliceIncreases(predecessor: seq<Observation>, successor: seq<Observation>)
    requires predecessor != [] && successor != []
    requires Increasing(predecessor) && Increasing(successor)
    ensures Increasing(SpliceTrades(predecessor, successor))
  {
    hide SpliceTrades;
    var tail := TailOfSplice(predecessor, successor);
    assert forall i :: 0 <= i < |predecessor| ==> predecessor[i].final <= predecessor[|predecessor| - 1].final;
    assert forall i :: 0 <= i < |tail| ==> tail[i] in tail;
  }

  lemma SpliceLists(predecessor: seq<Observation>, successor: seq<Observation>, id: nat, digest: string)
    requires predecessor != [] && successor != []
    requires Increasing(predecessor) && Increasing(successor)
    requires DeriveTradeEvidence(predecessor, successor).Ok? && predecessor[0].final <= id
    ensures Lists(SpliceTrades(predecessor, successor), id, digest) <==>
            Lists(predecessor, id, digest) || Lists(successor, id, digest)
  {
    hide DeriveTradeEvidence, SpliceTrades, Increasing;
    var tail := TailOfSplice(predecessor, successor);
    if Lists(successor, id, digest) {
      var o :| o in successor && o.final == id && o.digest == digest;
      if id <= predecessor[|predecessor| - 1].final {
        CommonEventIsShared(predecessor, successor, o);
      } else {
        assert o in tail;
      }
    }
  }

  /** An increasing list names each trade once, so the spliced list is a map from trade to event. */
  lemma {:induction false} EachTradeOnce(os: seq<Observation>, id: nat, digest: string, digest': string)
    requires Increasing(os) && Lists(os, id, digest) && Lists(os, id, digest')
    ensures digest == digest'
  {
    var o :| o in os && o.final == id && o.digest == digest;
    var o' :| o' in os && o'.final == id && o'.digest == digest';
    var i :| 0 <= i < |os| && os[i] == o;
    var j :| 0 <= j < |os| && os[j] == o';
  }

  // ----- exactly when there is evidence -----

  type Event = (nat, string)

  function Events(os: seq<Observation>): (es: seq<Event>)
    ensures |es| == |os| && forall i :: 0 <= i < |os| ==> es[i] == (os[i].final, os[i].digest)
  {
    seq(|os|, i requires 0 <= i < |os| => (os[i].final, os[i].digest))
  }

  ghost predicate EventsIncrease(es: seq<Event>) {
    forall i, j :: 0 <= i < j < |es| ==> es[i].0 < es[j].0
  }

  lemma {:induction false} EventsAreUnique(a: seq<Event>, b: seq<Event>)
    requires EventsIncrease(a) && EventsIncrease(b) && forall e :: e in a <==> e in b
    ensures a == b
    decreases |a|
  {
    if a == [] {
      NoEvents(b);
    } else {
      var m := |a| - 1;
      assert a[m] in b;
      var n := |b| - 1;
      assert b[n] in a;
      SameLastEvent(a, b);
      var a', b' := a[..m], b[..n];
      forall e ensures e in a' <==> e in b' {
        WithoutLast(a, e);
        WithoutLast(b, e);
      }
      EventsAreUnique(a', b');
      assert a == a' + [a[m]] && b == b' + [b[n]];
    }
  }

  lemma NoEvents(b: seq<Event>)
    ensures b != [] ==> exists e :: e in b
  {
    if b != [] {
      assert b[0] in b;
    }
  }

  lemma SameLastEvent(a: seq<Event>, b: seq<Event>)
    requires a != [] && b != [] && EventsIncrease(a) && EventsIncrease(b) && forall e :: e in a <==> e in b
    ensures a[|a| - 1] == b[|b| - 1]
  {
    var m, n := |a| - 1, |b| - 1;
    assert a[m] in b && b[n] in a;
    var i :| 0 <= i < |b| && b[i] == a[m];
    var j :| 0 <= j < |a| && a[j] == b[n];
    assert b[i].0 <= b[n].0 && a[j].0 <= a[m].0;
  }

  lemma WithoutLast(a: seq<Event>, e: Event)
    requires a != [] && EventsIncrease(a)
    ensures e in a[..|a| - 1] <==> e in a && e != a[|a| - 1]
  {
    var m := |a| - 1;
    assert a == a[..m] + [a[m]];
    if e in a[..m] {
      var i :| 0 <= i < m && a[i] == e;
    }
  }

  lemma ListsIsMember(os: seq<Observation>, id: nat, digest: string)
    ensures Lists(os, id, digest) <==> (id, digest) in Events(os)
  {
    if Lists(os, id, digest) {
      var o :| o in os && o.final == id && o.digest == digest;
      var i :| 0 <= i < |os| && os[i] == o;
      assert Events(os)[i] == (id, digest);
    }
    if (id, digest) in Events(os) {
      var i :| 0 <= i < |os| && Events(os)[i] == (id, digest);
      assert os[i] in os;
    }
  }

  /** Increasing lists name the same events in order exactly when they list the same events. */
  lemma {:induction false} SameEventsMeans(left: seq<Observation>, right: seq<Observation>)
    requires Increasing(left) && Increasing(right)
    ensures SameEvents(left, right) <==> forall id: nat, digest :: Lists(left, id, digest) <==> Lists(right, id, digest)
  {
    hide Lists;
    assert SameEvents(left, right) <==> Events(left) == Events(right) by {
      if Events(left) == Events(right) {
        forall k | 0 <= k < |left| ensures left[k].final == right[k].final && left[k].digest == right[k].digest {
          assert Events(left)[k] == Events(right)[k];
        }
      }
    }
    if Events(left) == Events(right) {
      forall id: nat, digest ensures Lists(left, id, digest) <==> Lists(right, id, digest) {
        ListsIsMember(left, id, digest);
        ListsIsMember(right, id, digest);
      }
    }
    if forall id: nat, digest :: Lists(left, id, digest) <==> Lists(right, id, digest) {
      forall e: Event ensures e in Events(left) <==> e in Events(right) {
        ListsIsMember(left, e.0, e.1);
        ListsIsMember(right, e.0, e.1);
      }
      EventsAreUnique(Events(left), Events(right));
    }
  }

  /** The identifiers of a window in a range. */
  ghost function IdsBetween(os: seq<Observation>, lower: int, upper: int): set<nat> {
    set o | o in os && lower <= o.final <= upper :: o.final
  }

  ghost function Finals(os: seq<Observation>): set<nat> {
    set o | o in os :: o.final
  }

  lemma FinalsAppend(front: seq<Observation>, x: Observation)
    ensures Finals(front + [x]) == Finals(front) + {x.final}
  {
    assert forall o :: o in front + [x] <==> o in front || o == x;
    assert x in front + [x];
    forall id | id in Finals(front) ensures id in Finals(front + [x]) {
      var o :| o in front && o.final == id;
      assert o in front + [x];
    }
  }

  lemma {:induction false} CountOfIds(os: seq<Observation>)
    requires Increasing(os)
    ensures |os| == |Finals(os)|
  {
    hide Finals;
    if os == [] {
      NoFinals();
    } else {
      var last := |os| - 1;
      assert os == os[..last] + [os[last]];
      CountOfIds(os[..last]);
      FinalsAppend(os[..last], os[last]);
      LastIsNew(os);
    }
  }

  lemma NoFinals()
    ensures Finals([]) == {}
  {
  }

  lemma LastIsNew(os: seq<Observation>)
    requires Increasing(os) && os != []
    ensures os[|os| - 1].final !in Finals(os[..|os| - 1])
  {
    var last := |os| - 1;
    forall o | o in os[..last] ensures o.final < os[last].final {
      var i :| 0 <= i < last && os[..last][i] == o;
      assert os[i].final < os[last].final;
    }
  }

  /** Between the larger first and the predecessor's last trade both windows list the same events. */
  ghost predicate SameBetween(predecessor: seq<Observation>, successor: seq<Observation>, lower: int, upper: int) {
    forall id: nat, digest :: lower <= id <= upper ==>
      (Lists(predecessor, id, digest) <==> Lists(successor, id, digest))
  }

  ghost function LargerFirst(predecessor: seq<Observation>, successor: seq<Observation>): nat
    requires predecessor != [] && successor != []
  {
    if predecessor[0].final >= successor[0].final then predecessor[0].final else successor[0].final
  }

  /**
    The successor reaches the predecessor's last trade, and from the larger first trade up to it both
    windows list the same events, at least two.
   */
  ghost predicate Overlaps(predecessor: seq<Observation>, successor: seq<Observation>)
    requires predecessor != [] && successor != []
  {
    var lower, upper := LargerFirst(predecessor, successor), predecessor[|predecessor| - 1].final;
    && upper <= successor[|successor| - 1].final
    && SameBetween(predecessor, successor, lower, upper)
    && |IdsBetween(predecessor, lower, upper)| >= 2
  }

  /** The evidence: the last two common trades as the successor has them, and how many there are. */
  ghost predicate IsEvidence(predecessor: seq<Observation>, successor: seq<Observation>, e: TradeEvidence)
    requires predecessor != [] && successor != []
  {
    && e.lower == LargerFirst(predecessor, successor) && e.upper == predecessor[|predecessor| - 1].final
    && e.commonEvents == |IdsBetween(predecessor, e.lower, e.upper)|
    && e.firstShared in successor && e.nextShared in successor
    && e.lower <= e.firstShared.final < e.nextShared.final <= e.upper
    && (forall o :: o in successor && e.lower <= o.final <= e.upper ==>
          o.final <= e.nextShared.final && (o.final < e.nextShared.final ==> o.final <= e.firstShared.final))
  }

  lemma BetweenListing(os: seq<Observation>, lower: nat, upper: nat, id: nat, digest: string)
    ensures Lists(Between(os, lower, upper), id, digest) <==> lower <= id <= upper && Lists(os, id, digest)
  {
    hide Between;
  }

  lemma BetweenIds(os: seq<Observation>, lower: nat, upper: nat)
    requires Increasing(os)
    ensures |Between(os, lower, upper)| == |IdsBetween(os, lower, upper)|
  {
    hide Between;
    var part := Between(os, lower, upper);
    BetweenIncreases(os, lower, upper);
    CountOfIds(part);
    assert Finals(part) == IdsBetween(os, lower, upper);
  }

  lemma LastTwo(right: seq<Observation>, successor: seq<Observation>, lower: nat, upper: nat)
    requires Increasing(right) && |right| >= 2
    requires forall o :: o in right <==> o in successor && lower <= o.final <= upper
    ensures
      var a, b := right[|right| - 2], right[|right| - 1];
      && a in successor && b in successor && lower <= a.final < b.final <= upper
      && forall o :: o in successor && lower <= o.final <= upper ==> o.final <= b.final && (o.final < b.final ==> o.final <= a.final)
  {
    var a, b := right[|right| - 2], right[|right| - 1];
    assert a in right && b in right;
    forall o | o in successor && lower <= o.final <= upper
      ensures o.final <= b.final && (o.final < b.final ==> o.final <= a.final)
    {
      var i :| 0 <= i < |right| && right[i] == o;
    }
  }

  /** `_derive_trade_evidence` finds evidence exactly when there is some, and reports it. */
  lemma {:induction false} TradeEvidenceMeans(predecessor: seq<Observation>, successor: seq<Observation>)
    requires predecessor != [] && successor != [] && Increasing(predecessor) && Increasing(successor)
    ensures
      var r := DeriveTradeEvidence(predecessor, successor);
      && (r.Ok? <==> Overlaps(predecessor, successor))
      && (r.Ok? ==> IsEvidence(predecessor, successor, r.value))
      && (r == Err(NotCovering) <==> successor[|successor| - 1].final < predecessor[|predecessor| - 1].final)
      && (r.Err? ==> r.error in {NotCovering, ListsDiffer})
  {
    hide Between, Increasing, Lists, SameEvents, IdsBetween;
    var lower, upper := LargerFirst(predecessor, successor), predecessor[|predecessor| - 1].final;
    if upper <= successor[|successor| - 1].final {
      var left, right := Between(predecessor, lower, upper), Between(successor, lower, upper);
      BetweenIncreases(predecessor, lower, upper);
      BetweenIncreases(successor, lower, upper);
      SameEventsMeans(left, right);
      BetweenIds(predecessor, lower, upper);
      SameBetweenMeans(predecessor, successor, lower, upper);
      if |left| >= 2 && SameEvents(left, right) {
        SameLength(left, right);
        LastTwo(right, successor, lower, upper);
      }
    }
  }

  lemma SameLength(left: seq<Observation>, right: seq<Observation>)
    requires SameEvents(left, right)
    ensures |left| == |right|
  {
  }

  lemma SameBetweenMeans(predecessor: seq<Observation>, successor: seq<Observation>, lower: nat, upper: nat)
    ensures SameBetween(predecessor, successor, lower, upper) <==>
      forall id: nat, digest :: Lists(Between(predecessor, lower, upper), id, digest) <==> Lists(Between(successor, lower, upper), id, digest)
  {
    hide Lists, Between;
    if SameBetween(predecessor, successor, lower, upper) {
      forall id: nat, digest
        ensures Lists(Between(predecessor, lower, upper), id, digest) <==> Lists(Between(successor, lower, upper), id, digest)
      {
        BetweenListing(predecessor, lower, upper, id, digest);
        BetweenListing(successor, lower, upper, id, digest);
      }
    } else {
      var id: nat, digest :| lower <= id <= upper && Lists(predecessor, id, digest) != Lists(successor, id, digest);
      BetweenListing(predecessor, lower, upper, id, digest);
      BetweenListing(successor, lower, upper, id, digest);
    }
  }
}
