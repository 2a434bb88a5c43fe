/**
  What a trade window says, told from its payloads: the canonical event of each trade by its fields
  and one observation for every trade.
 */
module TradeMeaning {
  import opened Wrappers
  import opened Powers
  import opened Json
  import opened FixedDecimals
  import opened DepthContinuity
  import opened SequenceHistory
  import opened Handover
  import opened HandoverMeaning
  import opened TradeHandover

  // ----- one trade -----

  /** The field is a text of a positive decimal, and `canonical` its shortest text. */
  ghost predicate HasDecimal(fields: map<string, Value>, key: string, canonical: string) {
    && IsText(fields, key) && Parse(fields[key].text).Ok?
    && exists d :: IsCanonical(d) && Units(d) == Units(Parse(fields[key].text).value) && Units(d) > 0 && canonical == Format(d)
  }

  /** The payload is this trade of the symbol. */
  ghost predicate IsTradeEvent(payload: Payload, symbol: string, trade: CanonicalTrade) {
    && payload.Some? && payload.value.Object? && trade.symbol == symbol
    && var fields := payload.value.fields;
       && Has(fields, "e", Text("trade")) && Has(fields, "s", Text(symbol)) && IsU64(fields, "E")
       && HasU64(fields, "t", trade.tradeId) && HasU64(fields, "T", trade.tradeTime)
       && Has(fields, "M", Boolean(trade.bestMatch)) && Has(fields, "m", Boolean(trade.buyerIsMaker))
       && HasDecimal(fields, "p", trade.price) && HasDecimal(fields, "q", trade.quantity)
  }

  lemma PositiveMeans(d: FixedDecimal)
    ensures Units(d) > 0 <==> d.coefficient > 0
  {
    MulOrder(0, d.coefficient, Pow10(MAX_SCALE - d.scale));
    MulOrder(d.coefficient, 0, Pow10(MAX_SCALE - d.scale));
  }

  lemma DecimalMeans(fields: map<string, Value>, key: string, canonical: string)
    ensures
      HasDecimal(fields, key, canonical) <==>
      && Get(fields, key).Text? && Parse(Get(fields, key).text).Ok?
      && var d := Canonical(Parse(Get(fields, key).text).value);
         d.coefficient > 0 && canonical == Format(d)
  {
    hide Parse, Units, IsCanonical, Format;
    if IsText(fields, key) && Parse(fields[key].text).Ok? {
      var value := Parse(fields[key].text).value;
      var d := Canonical(value);
      PositiveMeans(d);
      if HasDecimal(fields, key, canonical) {
        var e :| IsCanonical(e) && Units(e) == Units(value) && Units(e) > 0 && canonical == Format(e);
        CanonicalIsUnique(d, e);
      }
    }
  }

  /** The canonical event is read off exactly the payloads that are this trade. */
  lemma {:induction false} TradeMeans(payload: Payload, symbol: string, trade: CanonicalTrade)
    ensures TradeOf(payload, symbol) == Some(trade) <==> IsTradeEvent(payload, symbol, trade)
  {
    hide Parse, Canonical, Format, HasDecimal;
    if payload.Some? && payload.value.Object? {
      var fields := payload.value.fields;
      DecimalMeans(fields, "p", trade.price);
      DecimalMeans(fields, "q", trade.quantity);
    }
  }

  // ----- windows -----

  /** The positions of the records that are no shutdown notices, in order. */
  ghost function TradesAt(payloads: seq<Payload>): (at: seq<nat>)
    ensures forall j :: 0 <= j < |at| ==> at[j] < |payloads| && !IsNotice(payloads[at[j]])
    ensures forall i, j :: 0 <= i < j < |at| ==> at[i] < at[j]
    ensures forall i :: 0 <= i < |payloads| && !IsNotice(payloads[i]) ==> i in at
  {
    if payloads == [] then []
    else
      var last := |payloads| - 1;
      TradesAt(payloads[..last]) + (if IsNotice(payloads[last]) then [] else [last])
  }

  /** The record at `i` is a trade whose identifier is above those of the trades before it. */
  ghost predicate Advances(symbol: string, payloads: seq<Payload>, i: nat)
    requires i < |payloads|
  {
    exists trade ::
      && IsTradeEvent(payloads[i], symbol, trade)
      && forall j, n :: 0 <= j < i && !IsNotice(payloads[j]) && CarriesId(payloads[j], n) ==> n < trade.tradeId
  }

  predicate CarriesId(payload: Payload, n: int) {
    payload.Some? && payload.value.Object? && HasU64(payload.value.fields, "t", n)
  }

  ghost predicate Ascending(symbol: string, payloads: seq<Payload>) {
    forall i :: 0 <= i < |payloads| && !IsNotice(payloads[i]) ==> Advances(symbol, payloads, i)
  }

  /** The observation of the trade at `i`: its place, its identifier and the digest of its event. */
  ghost predicate ObservesTrade(H: CanonicalTrade -> string, symbol: string, payloads: seq<Payload>, frame: nat, i: nat, o: Observation) {
    && i < |payloads| && o.frameIndex == frame + i
    && exists trade ::
         IsTradeEvent(payloads[i], symbol, trade) && o.first == trade.tradeId && o.final == trade.tradeId && o.digest == H(trade)
  }

  ghost predicate TradesObserved(H: CanonicalTrade -> string, symbol: string, payloads: seq<Payload>, frame: nat, os: seq<Observation>) {
    && |os| == |TradesAt(payloads)|
    && forall j :: 0 <= j < |os| ==> ObservesTrade(H, symbol, payloads, frame, TradesAt(payloads)[j], os[j])
  }

  lemma AscendingNext(symbol: string, payloads: seq<Payload>)
    requires payloads != []
    ensures
      var last := |payloads| - 1;
      Ascending(symbol, payloads) <==>
      Ascending(symbol, payloads[..last]) && (IsNotice(payloads[last]) || Advances(symbol, payloads, last))
  {
    hide IsNotice, Advances;
    var last := |payloads| - 1;
    var front := payloads[..last];
    forall i | 0 <= i < last ensures Advances(symbol, front, i) <==> Advances(symbol, payloads, i) {
      SameAdvance(symbol, payloads, last, i);
    }
    if Ascending(symbol, payloads) {
      forall i | 0 <= i < last && !IsNotice(front[i]) ensures Advances(symbol, front, i) {
        assert !IsNotice(payloads[i]);
      }
    }
    if Ascending(symbol, front) && (IsNotice(payloads[last]) || Advances(symbol, payloads, last)) {
      forall i | 0 <= i < |payloads| && !IsNotice(payloads[i]) ensures Advances(symbol, payloads, i) {
        assert i < last ==> !IsNotice(front[i]);
      }
    }
  }

  lemma SameAdvance(symbol: string, payloads: seq<Payload>, n: nat, i: nat)
    requires i < n <= |payloads|
    ensures Advances(symbol, payloads[..n], i) <==> Advances(symbol, payloads, i)
  {
    hide IsNotice, IsTradeEvent, CarriesId;
    var front := payloads[..n];
    if Advances(symbol, front, i) {
      var trade :| IsTradeEvent(front[i], symbol, trade)
        && forall j, n :: 0 <= j < i && !IsNotice(front[j]) && CarriesId(front[j], n) ==> n < trade.tradeId;
      forall j, n | 0 <= j < i && !IsNotice(payloads[j]) && CarriesId(payloads[j], n) ensures n < trade.tradeId {
        assert front[j] == payloads[j];
      }
    }
    if Advances(symbol, payloads, i) {
      var trade :| IsTradeEvent(payloads[i], symbol, trade)
        && forall j, n :: 0 <= j < i && !IsNotice(payloads[j]) && CarriesId(payloads[j], n) ==> n < trade.tradeId;
      forall j, n | 0 <= j < i && !IsNotice(front[j]) && CarriesId(front[j], n) ensures n < trade.tradeId {
        assert front[j] == payloads[j];
      }
    }
  }

  /** The identifiers of the earlier trades stay below the last observation. */
  ghost predicate UpToLast(payloads: seq<Payload>, os: seq<Observation>) {
    && (forall j, n :: 0 <= j < |payloads| && !IsNotice(payloads[j]) && CarriesId(payloads[j], n) ==>
          os != [] && n <= os[|os| - 1].final)
    && (os != [] ==> exists j :: 0 <= j < |payloads| && !IsNotice(payloads[j]) && CarriesId(payloads[j], os[|os| - 1].final))
  }

  lemma EventId(payload: Payload, symbol: string, trade: CanonicalTrade)
    requires IsTradeEvent(payload, symbol, trade)
    ensures CarriesId(payload, trade.tradeId) && forall n :: CarriesId(payload, n) ==> n == trade.tradeId
  {
    hide HasDecimal;
  }

  /** The last record of a window after the observations of the ones before it. */
  lemma TradeStepMeans(symbol: string, payloads: seq<Payload>, os: seq<Observation>)
    requires payloads != [] && UpToLast(payloads[..|payloads| - 1], os)
    ensures
      var trade := TradeOf(payloads[|payloads| - 1], symbol);
      Advances(symbol, payloads, |payloads| - 1) <==> trade.Some? && (os == [] || os[|os| - 1].final < trade.value.tradeId)
  {
    hide TradeOf, IsTradeEvent, IsNotice, CarriesId;
    var last := |payloads| - 1;
    var front, trade := payloads[..last], TradeOf(payloads[last], symbol);
    if trade.Some? {
      TradeMeans(payloads[last], symbol, trade.value);
      if os == [] || os[|os| - 1].final < trade.value.tradeId {
        forall j, n | 0 <= j < last && !IsNotice(payloads[j]) && CarriesId(payloads[j], n) ensures n < trade.value.tradeId {
          assert front[j] == payloads[j];
        }
      }
    }
    if Advances(symbol, payloads, last) {
      var t :| IsTradeEvent(payloads[last], symbol, t)
        && forall j, n :: 0 <= j < last && !IsNotice(payloads[j]) && CarriesId(payloads[j], n) ==> n < t.tradeId;
      TradeMeans(payloads[last], symbol, t);
      if os != [] {
        var j :| 0 <= j < |front| && !IsNotice(front[j]) && CarriesId(front[j], os[|os| - 1].final);
        assert payloads[j] == front[j];
      }
    }
  }

  lemma UpToNext(payloads: seq<Payload>, os: seq<Observation>, os': seq<Observation>)
    requires payloads != [] && UpToLast(payloads[..|payloads| - 1], os)
    requires
      var p := payloads[|payloads| - 1];
      if IsNotice(p) then os' == os
      else
        && os' != [] && CarriesId(p, os'[|os'| - 1].final) && (forall n :: CarriesId(p, n) ==> n == os'[|os'| - 1].final)
        && (os != [] ==> os[|os| - 1].final < os'[|os'| - 1].final)
    ensures UpToLast(payloads, os')
  {
    hide IsNotice, CarriesId;
    var last := |payloads| - 1;
    var front := payloads[..last];
    forall j, n | 0 <= j < |payloads| && !IsNotice(payloads[j]) && CarriesId(payloads[j], n)
      ensures os' != [] && n <= os'[|os'| - 1].final
    {
      assert j < last ==> front[j] == payloads[j];
    }
    if IsNotice(payloads[last]) && os != [] {
      var j :| 0 <= j < |front| && !IsNotice(front[j]) && CarriesId(front[j], os[|os| - 1].final);
      assert payloads[j] == front[j];
    }
  }

  lemma ObservedNext(H: CanonicalTrade -> string, symbol: string, payloads: seq<Payload>, frame: nat, os: seq<Observation>, o: Observation)
    requires payloads != [] && TradesObserved(H, symbol, payloads[..|payloads| - 1], frame, os)
    ensures
      var last := |payloads| - 1;
      if IsNotice(payloads[last]) then TradesObserved(H, symbol, payloads, frame, os)
      else ObservesTrade(H, symbol, payloads, frame, last, o) ==> TradesObserved(H, symbol, payloads, frame, os + [o])
  {
    hide IsNotice, IsTradeEvent;
    var last := |payloads| - 1;
    var front, at := payloads[..last], TradesAt(payloads[..last]);
    forall j | 0 <= j < |os| ensures ObservesTrade(H, symbol, payloads, frame, at[j], os[j]) {
      assert ObservesTrade(H, symbol, front, frame, at[j], os[j]);
    }
  }

  /**
    A trade window is read exactly when every record that is no notice is a trade above the ones
    before it; it then has one observation for each of them.
   */
  lemma {:induction false} TradeWindowIsExact(H: CanonicalTrade -> string, symbol: string, payloads: seq<Payload>, frame: nat)
    ensures
      var r := TradeRun(H, symbol, payloads, frame);
      && (r.Ok? <==> Ascending(symbol, payloads))
      && (r.Ok? ==> TradesObserved(H, symbol, payloads, frame, r.value) && UpToLast(payloads, r.value))
  {
    hide TradeOf, IsNotice, IsTradeEvent, Ascending, Advances, TradesObserved, ObservesTrade, UpToLast, CarriesId, IsShutdown;
    if payloads == [] {
      NoTrades(H, symbol, frame);
    } else {
      var last := |payloads| - 1;
      var front := payloads[..last];
      TradeWindowIsExact(H, symbol, front, frame);
      AscendingNext(symbol, payloads);
      NoticeMeans(payloads[last]);
      var before, r := TradeRun(H, symbol, front, frame), TradeRun(H, symbol, payloads, frame);
      if before.Ok? {
        if IsNotice(payloads[last]) {
          UpToNext(payloads, before.value, before.value);
          ObservedNext(H, symbol, payloads, frame, before.value, Observation(0, 0, 0, ""));
        } else {
          TradeStepMeans(symbol, payloads, before.value);
          if r.Ok? {
            var trade := TradeOf(payloads[last], symbol).value;
            TradeMeans(payloads[last], symbol, trade);
            EventId(payloads[last], symbol, trade);
            UpToNext(payloads, before.value, r.value);
            var o := Observation(frame + last, trade.tradeId, trade.tradeId, H(trade));
            TradeIsObserved(H, symbol, payloads, frame, trade, o);
            ObservedNext(H, symbol, payloads, frame, before.value, o);
          }
        }
      }
    }
  }

  lemma TradeIsObserved(H: CanonicalTrade -> string, symbol: string, payloads: seq<Payload>, frame: nat, trade: CanonicalTrade, o: Observation)
    requires payloads != [] && IsTradeEvent(payloads[|payloads| - 1], symbol, trade)
    requires o == Observation(frame + |payloads| - 1, trade.tradeId, trade.tradeId, H(trade))
    ensures ObservesTrade(H, symbol, payloads, frame, |payloads| - 1, o)
  {
  }

  lemma NoTrades(H: CanonicalTrade -> string, symbol: string, frame: nat)
    ensures Ascending(symbol, []) && TradesObserved(H, symbol, [], frame, []) && UpToLast([], [])
  {
  }
}
