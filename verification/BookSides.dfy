/** One side of the order book: a price dictionary beside its sorted price list. */
module BookSides {
  import opened Wrappers
  import opened FixedDecimals
  import opened Json

  type Side = map<FixedDecimal, FixedDecimal>
  type Level = (FixedDecimal, FixedDecimal)

  datatype BookError = ValueError | EmptySide

  /** Prices and quantities are canonical and positive. */
  ghost predicate SideOk(side: Side) {
    forall p :: p in side ==>
      && IsCanonical(p) && p.coefficient > 0
      && IsCanonical(side[p]) && side[p].coefficient > 0
  }

  ghost predicate LevelOk(level: Level) {
    && IsCanonical(level.0) && level.0.coefficient > 0
    && IsCanonical(level.1) && level.1.coefficient >= 0
  }

  /** `_level`: a price and quantity pair of decimal strings. */
  function ParseLevel(value: Value): (r: Result<Level, BookError>)
    ensures r.Ok? ==> LevelOk(r.value)
  {
    if !(value.Array? && |value.items| == 2 && value.items[0].Text? && value.items[1].Text?) then
      Err(ValueError)
    else
      var price := Parse(value.items[0].text);
      var quantity := Parse(value.items[1].text);
      if price.Err? || quantity.Err? then Err(ValueError)
      else
        var p, q := Canonical(price.value), Canonical(quantity.value);
        if p.coefficient <= 0 || q.coefficient < 0 then Err(ValueError) else Ok((p, q))
  }

  /** A list comprehension of `_level`: the first malformed level rejects the whole list. */
  function ParseLevels(values: seq<Value>): (r: Result<seq<Level>, BookError>)
    ensures r.Ok? ==> |r.value| == |values| && forall i :: 0 <= i < |r.value| ==> LevelOk(r.value[i])
  {
    if values == [] then Ok([])
    else
      var last := |values| - 1;
      var front := ParseLevels(values[..last]);
      var level := ParseLevel(values[last]);
      if front.Err? then front
      else if level.Err? then Err(level.error)
      else Ok(front.value + [level.value])
  }

  /** `_load_side`: zero quantities are skipped, repeated prices and empty sides are refused. */
  function CollectSide(values: seq<Value>): (r: Result<Side, BookError>)
    ensures r.Ok? ==> SideOk(r.value)
  {
    if values == [] then Ok(map[])
    else
      var last := |values| - 1;
      var front := CollectSide(values[..last]);
      var level := ParseLevel(values[last]);
      if front.Err? then front
      else if level.Err? then Err(level.error)
      else if level.value.1.coefficient == 0 then front
      else if level.value.0 in front.value then Err(ValueError)
      else Ok(front.value[level.value.0 := level.value.1])
  }

  function LoadSide(values: seq<Value>): (r: Result<Side, BookError>)
    ensures r.Ok? ==> SideOk(r.value) && r.value != map[]
  {
    var side := CollectSide(values);
    if side.Ok? && side.value == map[] then Err(EmptySide) else side
  }

  /** Applying updates in order: zero removes a price, anything else sets it. */
  function ApplyUpdates(side: Side, updates: seq<Level>): (r: Side) {
    if updates == [] then side
    else
      var last := |updates| - 1;
      var before := ApplyUpdates(side, updates[..last]);
      var (price, quantity) := updates[last];
      if quantity.coefficient == 0 then before - {price} else before[price := quantity]
  }

  lemma {:induction false} ApplyUpdatesOk(side: Side, updates: seq<Level>)
    requires SideOk(side)
    requires forall i :: 0 <= i < |updates| ==> LevelOk(updates[i])
    ensures SideOk(ApplyUpdates(side, updates))
  {
    hide IsCanonical;
    if updates != [] {
      ApplyUpdatesOk(side, updates[..|updates| - 1]);
      assert LevelOk(updates[|updates| - 1]);
    }
  }

  // ----- the sorted price list -----

  ghost predicate StrictlySorted(prices: seq<FixedDecimal>) {
    forall i, j :: 0 <= i < j < |prices| ==> Units(prices[i]) < Units(prices[j])
  }

  /** The list is the strictly increasing enumeration of the dictionary's prices. */
  ghost predicate Indexes(prices: seq<FixedDecimal>, side: Side) {
    StrictlySorted(prices) && forall p :: p in prices <==> p in side
  }

  /** A strictly sorted enumeration of a set is unique. */
  lemma {:induction false} SortedListIsUnique(xs: seq<FixedDecimal>, ys: seq<FixedDecimal>)
    requires StrictlySorted(xs) && StrictlySorted(ys)
    requires forall p :: p in xs <==> p in ys
    ensures xs == ys
  {
    hide Units;
    if xs == [] {
      NoMembers(ys);
    } else if ys == [] {
      NoMembers(xs);
    } else {
      assert xs[0] in ys && ys[0] in xs;
      var i :| 0 <= i < |xs| && xs[i] == ys[0];
      var j :| 0 <= j < |ys| && ys[j] == xs[0];
      HeadIsLeast(xs, i);
      HeadIsLeast(ys, j);
      TailMembers(xs);
      TailMembers(ys);
      SortedListIsUnique(xs[1..], ys[1..]);
      assert xs == [xs[0]] + xs[1..] && ys == [ys[0]] + ys[1..];
    }
  }

  lemma NoMembers(xs: seq<FixedDecimal>)
    requires forall p :: p !in xs
    ensures xs == []
  {
    if xs != [] {
      HeadIsMember(xs);
    }
  }

  lemma HeadIsMember(xs: seq<FixedDecimal>)
    requires xs != []
    ensures xs[0] in xs
  {
  }

  lemma HeadIsLeast(xs: seq<FixedDecimal>, i: nat)
    requires StrictlySorted(xs) && i < |xs|
    ensures Units(xs[0]) <= Units(xs[i]) && (i > 0 ==> Units(xs[0]) < Units(xs[i]))
  {
  }

  lemma TailMembers(xs: seq<FixedDecimal>)
    requires StrictlySorted(xs) && xs != []
    ensures StrictlySorted(xs[1..])
    ensures forall p :: p in xs[1..] <==> p in xs && p != xs[0]
  {
    hide Units;
    forall p ensures p in xs[1..] <==> p in xs && p != xs[0] {
      if p in xs[1..] {
        var k :| 0 <= k < |xs[1..]| && xs[1..][k] == p;
        assert Units(xs[0]) < Units(xs[k + 1]);
      }
      if p in xs && p != xs[0] {
        var k :| 0 <= k < |xs| && xs[k] == p;
        assert xs[1..][k - 1] == p;
      }
    }
  }

  /** Python's `bisect_left`. */
  method BisectLeft(prices: seq<FixedDecimal>, price: FixedDecimal) returns (k: nat)
    requires StrictlySorted(prices)
    ensures k <= |prices|
    ensures forall i :: 0 <= i < k ==> Units(prices[i]) < Units(price)
    ensures forall i :: k <= i < |prices| ==> Units(price) <= Units(prices[i])
  {
    hide Units, Less;
    var lo, hi := 0, |prices|;
    while lo < hi
      invariant 0 <= lo <= hi <= |prices|
      invariant forall i :: 0 <= i < lo ==> Units(prices[i]) < Units(price)
      invariant forall i :: hi <= i < |prices| ==> Units(price) <= Units(prices[i])
    {
      var mid := (lo + hi) / 2;
      LessIsNumeric(prices[mid], price);
      if Less(prices[mid], price) {
        lo := mid + 1;
      } else {
        hi := mid;
      }
    }
    k := lo;
  }

  /** The position of `insort`, after any equal price. */
  method BisectRight(prices: seq<FixedDecimal>, price: FixedDecimal) returns (k: nat)
    requires StrictlySorted(prices)
    ensures k <= |prices|
    ensures forall i :: 0 <= i < k ==> Units(prices[i]) <= Units(price)
    ensures forall i :: k <= i < |prices| ==> Units(price) < Units(prices[i])
  {
    hide Units, Less;
    var lo, hi := 0, |prices|;
    while lo < hi
      invariant 0 <= lo <= hi <= |prices|
      invariant forall i :: 0 <= i < lo ==> Units(prices[i]) <= Units(price)
      invariant forall i :: hi <= i < |prices| ==> Units(price) < Units(prices[i])
    {
      var mid := (lo + hi) / 2;
      LessIsNumeric(price, prices[mid]);
      if Less(price, prices[mid]) {
        hi := mid;
      } else {
        lo := mid + 1;
      }
    }
    k := lo;
  }

  lemma {:induction false} InsertKeepsIndex(prices: seq<FixedDecimal>, side: Side, k: nat, price: FixedDecimal, quantity: FixedDecimal)
    requires Indexes(prices, side) && k <= |prices| && price !in side
    requires SideOk(side) && IsCanonical(price)
    requires forall i :: 0 <= i < k ==> Units(prices[i]) <= Units(price)
    requires forall i :: k <= i < |prices| ==> Units(price) < Units(prices[i])
    ensures Indexes(prices[..k] + [price] + prices[k..], side[price := quantity])
  {
    hide Units, IsCanonical;
    forall i | 0 <= i < k ensures Units(prices[i]) < Units(price) {
      assert prices[i] in side;
      CanonicalIsUnique(prices[i], price);
    }
    var prices' := prices[..k] + [price] + prices[k..];
    assert forall p :: p in prices <==> p in prices[..k] || p in prices[k..] by {
      assert prices == prices[..k] + prices[k..];
    }
    assert forall p :: p in prices' <==> p in prices || p == price;
  }

  lemma {:induction false} RemoveKeepsIndex(prices: seq<FixedDecimal>, side: Side, k: nat, price: FixedDecimal)
    requires Indexes(prices, side) && k < |prices| && prices[k] == price
    ensures Indexes(prices[..k] + prices[k + 1..], side - {price})
  {
    hide Units;
    forall p ensures p in prices[..k] + prices[k + 1..] <==> p in prices && p != price {
      MembersWithout(prices, k, p);
    }
  }

  lemma MembersWithout(prices: seq<FixedDecimal>, k: nat, p: FixedDecimal)
    requires StrictlySorted(prices) && k < |prices|
    ensures p in prices[..k] + prices[k + 1..] <==> p in prices && p != prices[k]
  {
    hide Units;
    var rest := prices[..k] + prices[k + 1..];
    if p in rest {
      var i :| 0 <= i < |rest| && rest[i] == p;
      var i' := if i < k then i else i + 1;
      assert prices[i'] == p && i' != k;
      assert Units(prices[i']) != Units(prices[k]);
    }
    if p in prices && p != prices[k] {
      var i :| 0 <= i < |prices| && prices[i] == p;
      assert rest[if i < k then i else i - 1] == p;
    }
  }

  /** `_apply_side`: dictionary and list are maintained together. */
  method ApplySide(side: Side, prices: seq<FixedDecimal>, updates: seq<Level>)
    returns (side': Side, prices': seq<FixedDecimal>)
    requires SideOk(side) && Indexes(prices, side)
    requires forall i :: 0 <= i < |updates| ==> LevelOk(updates[i])
    ensures side' == ApplyUpdates(side, updates)
    ensures SideOk(side') && Indexes(prices', side')
  {
    hide Units, IsCanonical, StrictlySorted;
    side', prices' := side, prices;
    assert updates[..|updates|] == updates;
    for i := 0 to |updates|
      invariant side' == ApplyUpdates(side, updates[..i])
      invariant SideOk(side') && Indexes(prices', side')
    {
      assert updates[..i + 1][..i] == updates[..i];
      var (price, quantity) := updates[i];
      if quantity.coefficient == 0 {
        if price in side' {
          var index := BisectLeft(prices', price);
          PriceIsAt(prices', side', price, index);
          side', prices' := RemovePrice(side', prices', price, index);
        }
      } else if price !in side' {
        var index := BisectRight(prices', price);
        InsertKeepsIndex(prices', side', index, price, quantity);
        side' := side'[price := quantity];
        prices' := prices'[..index] + [price] + prices'[index..];
      } else {
        side' := side'[price := quantity];
      }
    }
  }

  lemma PriceIsAt(prices: seq<FixedDecimal>, side: Side, price: FixedDecimal, k: nat)
    requires SideOk(side) && Indexes(prices, side) && price in side && k <= |prices|
    requires forall i :: 0 <= i < k ==> Units(prices[i]) < Units(price)
    requires forall i :: k <= i < |prices| ==> Units(price) <= Units(prices[i])
    ensures k < |prices| && prices[k] == price
  {
    hide Units, IsCanonical;
    assert price in prices;
    var i :| 0 <= i < |prices| && prices[i] == price;
    assert prices[k] in prices;
    CanonicalIsUnique(prices[k], price);
  }

  method RemovePrice(side: Side, prices: seq<FixedDecimal>, price: FixedDecimal, index: nat)
    returns (side': Side, prices': seq<FixedDecimal>)
    requires SideOk(side) && Indexes(prices, side)
    requires index < |prices| && prices[index] == price
    ensures side' == side - {price}
    ensures SideOk(side') && Indexes(prices', side')
  {
    RemoveKeepsIndex(prices, side, index, price);
    side' := side - {price};
    prices' := prices[..index] + prices[index + 1..];
  }
}
