/**
  The canonical text of a book, defined as the legacy serializer has it: sort each side, then
  print.  The text determines the book, so a collision-free digest of it does too.
 */
module BookText {
  import opened FixedDecimals
  import opened BookSides

  type Entry = (string, string)

  function EntryText(e: Entry): string {
    "[\"" + e.0 + "\",\"" + e.1 + "\"]"
  }

  function JoinEntries(es: seq<Entry>): string {
    if es == [] then ""
    else if |es| == 1 then EntryText(es[0])
    else EntryText(es[0]) + "," + JoinEntries(es[1..])
  }

  lemma {:induction false} JoinAppend(es: seq<Entry>, e: Entry)
    ensures JoinEntries(es + [e]) ==
            (if es == [] then "" else JoinEntries(es) + ",") + EntryText(e)
  {
    hide EntryText;
    if es == [] {
      assert es + [e] == [e];
    } else {
      assert (es + [e])[1..] == es[1..] + [e];
      JoinAppend(es[1..], e);
      if |es| == 1 {
        assert es[1..] == [];
      } else {
        assert EntryText(es[0]) + "," + (JoinEntries(es[1..]) + "," + EntryText(e))
            == (EntryText(es[0]) + "," + JoinEntries(es[1..])) + "," + EntryText(e);
      }
    }
  }

  /** A least price of a non-empty set of prices. */
  lemma {:induction false} LeastExists(keys: set<FixedDecimal>) returns (m: FixedDecimal)
    requires keys != {}
    ensures m in keys && forall p :: p in keys ==> Units(m) <= Units(p)
  {
    hide Units;
    var x :| x in keys;
    if keys == {x} {
      m := x;
    } else {
      var rest := keys - {x};
      var m' := LeastExists(rest);
      m := if Units(x) <= Units(m') then x else m';
      assert forall p :: p in keys ==> p == x || p in rest;
    }
  }

  lemma HasLeast(keys: set<FixedDecimal>)
    requires keys != {}
    ensures exists m :: m in keys && forall p :: p in keys ==> Units(m) <= Units(p)
  {
    var m := LeastExists(keys);
  }

  /** The prices of a set in increasing order. */
  ghost function SortedPrices(keys: set<FixedDecimal>): seq<FixedDecimal> {
    if keys == {} then []
    else
      HasLeast(keys);
      var m :| m in keys && forall p :: p in keys ==> Units(m) <= Units(p);
      [m] + SortedPrices(keys - {m})
  }

  ghost predicate CanonicalKeys(keys: set<FixedDecimal>) {
    forall p :: p in keys ==> IsCanonical(p)
  }

  lemma {:induction false} SortedPricesFacts(keys: set<FixedDecimal>)
    requires CanonicalKeys(keys)
    ensures forall p :: p in SortedPrices(keys) <==> p in keys
    ensures StrictlySorted(SortedPrices(keys))
  {
    hide Units, IsCanonical;
    if keys != {} {
      var s := SortedPrices(keys);
      var m := s[0];
      var rest := keys - {m};
      assert s[1..] == SortedPrices(rest);
      SortedPricesFacts(rest);
      forall i | 0 <= i < |s[1..]| ensures Units(m) < Units(s[1..][i]) {
        assert s[1..][i] in rest;
        CanonicalIsUnique(m, s[1..][i]);
      }
      assert s == [m] + s[1..];
      LeastFirst(m, s[1..]);
    }
  }

  lemma LeastFirst(m: FixedDecimal, rest: seq<FixedDecimal>)
    requires StrictlySorted(rest) && forall i :: 0 <= i < |rest| ==> Units(m) < Units(rest[i])
    ensures StrictlySorted([m] + rest)
  {
    hide Units;
  }

  /** The maintained list is the sorted list. */
  lemma {:induction false} IndexIsSortedPrices(prices: seq<FixedDecimal>, side: Side)
    requires SideOk(side) && Indexes(prices, side)
    ensures prices == SortedPrices(side.Keys)
  {
    hide Units, IsCanonical, SortedPrices, StrictlySorted;
    SortedPricesFacts(side.Keys);
    SortedListIsUnique(prices, SortedPrices(side.Keys));
  }

  function EntryAt(side: Side, p: FixedDecimal): Entry
    requires p in side
  {
    (Format(p), Format(side[p]))
  }

  function Entries(side: Side, prices: seq<FixedDecimal>): (es: seq<Entry>)
    requires forall p :: p in prices ==> p in side
    ensures |es| == |prices| && forall i :: 0 <= i < |es| ==> es[i] == EntryAt(side, prices[i])
  {
    seq(|prices|, i requires 0 <= i < |prices| => EntryAt(side, prices[i]))
  }

  function Reversed(s: seq<FixedDecimal>): (r: seq<FixedDecimal>)
    ensures |r| == |s| && forall i :: 0 <= i < |r| ==> r[i] == s[|s| - 1 - i]
    ensures forall p :: p in r <==> p in s
  {
    var r := seq(|s|, i requires 0 <= i < |s| => s[|s| - 1 - i]);
    assert forall i :: 0 <= i < |s| ==> s[i] == r[|s| - 1 - i];
    r
  }

  function FormatInt(n: int): string {
    (if n < 0 then "-" else "") + DigitsOf(Abs(n))
  }

  ghost function AskText(asks: Side): string
    requires SideOk(asks)
  {
    SortedPricesFacts(asks.Keys);
    JoinEntries(Entries(asks, SortedPrices(asks.Keys)))
  }

  ghost function BidText(bids: Side): string
    requires SideOk(bids)
  {
    SortedPricesFacts(bids.Keys);
    JoinEntries(Entries(bids, Reversed(SortedPrices(bids.Keys))))
  }

  ghost function Tail(lastUpdateId: int, symbol: string): string {
    FormatInt(lastUpdateId) + (",\"symbol\":\"" + (symbol + "\"}"))
  }

  ghost function BidsAndTail(bids: Side, lastUpdateId: int, symbol: string): string
    requires SideOk(bids)
  {
    BidText(bids) + ("]" + (",\"last_update_id\":" + Tail(lastUpdateId, symbol)))
  }

  /** `json.dumps` of the book with sorted keys: asks ascending, bids descending. */
  ghost function Serialize(symbol: string, lastUpdateId: int, bids: Side, asks: Side): string
    requires SideOk(bids) && SideOk(asks)
  {
    "{\"asks\":[" + (AskText(asks) + ("]" + (",\"bids\":[" + BidsAndTail(bids, lastUpdateId, symbol))))
  }

  // ----- the text determines the book -----

  ghost predicate Without(s: string, c: char) {
    forall i :: 0 <= i < |s| ==> s[i] != c
  }

  /** Two texts cut at the first occurrence of a character have equal halves. */
  lemma CutAt(a: string, b: string, c: char, x: string, y: string)
    requires Without(a, c) && Without(b, c)
    requires a + ([c] + x) == b + ([c] + y)
    ensures a == b && x == y
  {
    FirstAt(a, c, x);
    FirstAt(b, c, y);
    var s := a + ([c] + x);
    assert a == s[..|a|] && b == s[..|b|];
    assert x == s[|a| + 1..] && y == s[|b| + 1..];
  }

  lemma FirstAt(a: string, c: char, x: string)
    requires Without(a, c)
    ensures (a + ([c] + x))[|a|] == c && Without((a + ([c] + x))[..|a|], c)
    ensures forall i :: 0 <= i < |a| ==> (a + ([c] + x))[i] != c
  {
  }

  lemma SamePrefix(p: string, x: string, y: string)
    requires p + x == p + y
    ensures x == y
  {
    assert x == (p + x)[|p|..] && y == (p + y)[|p|..];
  }

  ghost predicate PlainEntry(e: Entry) {
    Without(e.0, '"') && Without(e.1, '"')
  }

  ghost predicate PlainEntries(es: seq<Entry>) {
    forall i :: 0 <= i < |es| ==> PlainEntry(es[i])
  }

  lemma EntryCut(e: Entry, f: Entry, x: string, y: string)
    requires PlainEntry(e) && PlainEntry(f)
    requires EntryText(e) + x == EntryText(f) + y
    ensures e == f && x == y
  {
    var x1, y1 := "\"]" + x, "\"]" + y;
    var x2, y2 := ",\"" + (e.1 + x1), ",\"" + (f.1 + y1);
    assert EntryText(e) + x == "[\"" + (e.0 + (['"'] + x2));
    assert EntryText(f) + y == "[\"" + (f.0 + (['"'] + y2));
    SamePrefix("[\"", e.0 + (['"'] + x2), f.0 + (['"'] + y2));
    CutAt(e.0, f.0, '"', x2, y2);
    SamePrefix(",\"", e.1 + x1, f.1 + y1);
    assert x1 == ['"'] + ("]" + x) && y1 == ['"'] + ("]" + y);
    CutAt(e.1, f.1, '"', "]" + x, "]" + y);
    SamePrefix("]", x, y);
  }

  ghost function AfterFirst(es: seq<Entry>, x: string): string
    requires es != []
  {
    if |es| == 1 then "]" + x else "," + (JoinEntries(es[1..]) + ("]" + x))
  }

  lemma JoinStarts(es: seq<Entry>, x: string)
    requires es != []
    ensures JoinEntries(es) + ("]" + x) == EntryText(es[0]) + AfterFirst(es, x)
    ensures AfterFirst(es, x)[0] == (if |es| == 1 then ']' else ',')
  {
    hide EntryText;
    if |es| > 1 {
      Associate(EntryText(es[0]), ",", JoinEntries(es[1..]), "]" + x);
    }
  }

  lemma Associate(a: string, b: string, c: string, d: string)
    ensures (a + b + c) + d == a + (b + (c + d))
  {
  }

  lemma OpeningCharacter(es: seq<Entry>, x: string)
    ensures (JoinEntries(es) + ("]" + x))[0] == (if es == [] then ']' else '[')
  {
    if es != [] {
      hide JoinEntries;
      JoinStarts(es, x);
      assert EntryText(es[0])[0] == '[';
    }
  }

  lemma {:induction false} JoinCut(es: seq<Entry>, fs: seq<Entry>, x: string, y: string)
    requires PlainEntries(es) && PlainEntries(fs)
    requires JoinEntries(es) + ("]" + x) == JoinEntries(fs) + ("]" + y)
    ensures es == fs && x == y
    decreases |es|
  {
    hide EntryText, JoinEntries, Without;
    OpeningCharacter(es, x);
    OpeningCharacter(fs, y);
    if es == [] {
      SameTail(es, fs, x, y);
    } else {
      JoinStarts(es, x);
      JoinStarts(fs, y);
      EntryCut(es[0], fs[0], AfterFirst(es, x), AfterFirst(fs, y));
      if |es| == 1 {
        SamePrefix("]", x, y);
        assert es == [es[0]] && fs == [fs[0]];
      } else {
        SamePrefix(",", JoinEntries(es[1..]) + ("]" + x), JoinEntries(fs[1..]) + ("]" + y));
        JoinCut(es[1..], fs[1..], x, y);
        assert es == [es[0]] + es[1..] && fs == [fs[0]] + fs[1..];
      }
    }
  }

  lemma EmptyJoin(x: string)
    ensures JoinEntries([]) + ("]" + x) == "]" + x
  {
  }

  lemma SameTail(es: seq<Entry>, fs: seq<Entry>, x: string, y: string)
    requires es == [] <==> fs == []
    requires JoinEntries(es) + ("]" + x) == JoinEntries(fs) + ("]" + y)
    requires es == []
    ensures es == fs && x == y
  {
    EmptyJoin(x);
    EmptyJoin(y);
    SamePrefix("]", x, y);
  }

  lemma FormatIsPlain(d: FixedDecimal)
    ensures Without(Format(d), '"')
  {
    hide Format, Parts;
    PartsOfFormat(d);
    var p := Parts(d);
    assert AllDigits(p.whole) && AllDigits(p.fraction);
    assert Without(p.Unsigned(), '"');
  }

  lemma EntriesArePlain(side: Side, prices: seq<FixedDecimal>)
    requires forall p :: p in prices ==> p in side
    ensures PlainEntries(Entries(side, prices))
  {
    hide Format, Without;
    forall i | 0 <= i < |prices| ensures PlainEntry(Entries(side, prices)[i]) {
      FormatIsPlain(prices[i]);
      FormatIsPlain(side[prices[i]]);
    }
  }

  lemma EntriesDetermineSide(a: Side, ps: seq<FixedDecimal>, b: Side, qs: seq<FixedDecimal>)
    requires forall p :: p in ps <==> p in a
    requires forall p :: p in qs <==> p in b
    requires Entries(a, ps) == Entries(b, qs)
    ensures a == b
  {
    hide Format;
    assert |ps| == |Entries(a, ps)| == |Entries(b, qs)| == |qs|;
    forall i | 0 <= i < |ps| ensures ps[i] == qs[i] && a[ps[i]] == b[qs[i]] {
      assert EntryAt(a, ps[i]) == Entries(a, ps)[i] == EntryAt(b, qs[i]);
      FormatIsInjective(ps[i], qs[i]);
      FormatIsInjective(a[ps[i]], b[qs[i]]);
    }
    assert ps == qs;
    forall p | p in a ensures p in b && a[p] == b[p] {
      assert p in ps;
      var i :| 0 <= i < |ps| && ps[i] == p;
    }
    assert a.Keys == b.Keys;
  }

  lemma IntTextIsInjective(m: int, n: int)
    requires FormatInt(m) == FormatInt(n)
    ensures m == n
  {
    hide FormatInt, DigitsOf;
    NatOfDigits(Abs(m));
    NatOfDigits(Abs(n));
    IntTextParts(m);
    IntTextParts(n);
  }

  lemma IntTextParts(n: int)
    ensures |FormatInt(n)| > 0 && (FormatInt(n)[0] == '-' <==> n < 0)
    ensures FormatInt(n)[if n < 0 then 1 else 0..] == DigitsOf(Abs(n))
  {
    hide DigitsOf;
    assert IsDigit(DigitsOf(Abs(n))[0]);
  }

  lemma TailDetermines(m: int, s: string, n: int, t: string)
    requires Tail(m, s) == Tail(n, t)
    ensures m == n && s == t
  {
    hide FormatInt;
    IntTextHasNoComma(m);
    IntTextHasNoComma(n);
    var x, y := "\"symbol\":\"" + (s + "\"}"), "\"symbol\":\"" + (t + "\"}");
    assert ",\"symbol\":\"" + (s + "\"}") == [','] + x && ",\"symbol\":\"" + (t + "\"}") == [','] + y;
    CutAt(FormatInt(m), FormatInt(n), ',', x, y);
    IntTextIsInjective(m, n);
    SamePrefix("\"symbol\":\"", s + "\"}", t + "\"}");
    assert s == (s + "\"}")[..|s + "\"}"| - 2] && t == (t + "\"}")[..|t + "\"}"| - 2];
  }

  lemma IntTextHasNoComma(n: int)
    ensures Without(FormatInt(n), ',')
  {
    hide DigitsOf;
    var digits := DigitsOf(Abs(n));
    assert forall i :: 0 <= i < |digits| ==> IsDigit(digits[i]);
  }

  lemma BidsDetermine(a: Side, m: int, s: string, b: Side, n: int, t: string)
    requires SideOk(a) && SideOk(b)
    requires BidsAndTail(a, m, s) == BidsAndTail(b, n, t)
    ensures a == b && m == n && s == t
  {
    hide IsCanonical, Units, SortedPrices, StrictlySorted, EntryAt, JoinEntries, Tail;
    SortedPricesFacts(a.Keys);
    SortedPricesFacts(b.Keys);
    var ps, qs := Reversed(SortedPrices(a.Keys)), Reversed(SortedPrices(b.Keys));
    EntriesArePlain(a, ps);
    EntriesArePlain(b, qs);
    JoinCut(Entries(a, ps), Entries(b, qs),
            ",\"last_update_id\":" + Tail(m, s), ",\"last_update_id\":" + Tail(n, t));
    EntriesDetermineSide(a, ps, b, qs);
    SamePrefix(",\"last_update_id\":", Tail(m, s), Tail(n, t));
    TailDetermines(m, s, n, t);
  }

  /** Equal texts come from equal books. */
  lemma {:induction false} SerializeIsInjective(s: string, m: int, bids: Side, asks: Side,
                             s': string, m': int, bids': Side, asks': Side)
    requires SideOk(bids) && SideOk(asks) && SideOk(bids') && SideOk(asks')
    requires Serialize(s, m, bids, asks) == Serialize(s', m', bids', asks')
    ensures s == s' && m == m' && bids == bids' && asks == asks'
  {
    hide IsCanonical, Units, SortedPrices, StrictlySorted, EntryAt, JoinEntries, BidsAndTail;
    SortedPricesFacts(asks.Keys);
    SortedPricesFacts(asks'.Keys);
    var ps, qs := SortedPrices(asks.Keys), SortedPrices(asks'.Keys);
    EntriesArePlain(asks, ps);
    EntriesArePlain(asks', qs);
    var x := ",\"bids\":[" + BidsAndTail(bids, m, s);
    var y := ",\"bids\":[" + BidsAndTail(bids', m', s');
    SamePrefix("{\"asks\":[", AskText(asks) + ("]" + x), AskText(asks') + ("]" + y));
    JoinCut(Entries(asks, ps), Entries(asks', qs), x, y);
    EntriesDetermineSide(asks, ps, asks', qs);
    SamePrefix(",\"bids\":[", BidsAndTail(bids, m, s), BidsAndTail(bids', m', s'));
    BidsDetermine(bids, m, s, bids', m', s');
  }
}
