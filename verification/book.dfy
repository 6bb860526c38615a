/** The mutable book: its fields, and the methods that update them in place. */
module Books {
  import opened Norm
  import opened Engine
  import opened Views
  import opened GoLib

  /** The head of Depth(1), if there is one. */
  ghost function Head(side: map<int, int>, desc: bool): Option<Level> {
    var d := DepthOf(side, 1, desc);
    if d == [] then None else Some(d[0])
  }

  class Book {
    var bids: map<int, int>
    var asks: map<int, int>
    var lastSeq: nat
    var synced: bool
    var pending: seq<Update>
    var gaps: nat
    var resyncs: nat
    var dropped: nat

    ghost function State(): BookState
      reads this
    {
      BookState(Levels(bids, asks), lastSeq, synced, pending, gaps, resyncs, dropped)
    }

    constructor ()
      ensures State() == NEW_BOOK
    {
      bids, asks := map[], map[];
      lastSeq, synced, pending := 0, false, [];
      gaps, resyncs, dropped := 0, 0, 0;
    }

    /** True when the book needs a snapshot to make progress. */
    method Apply(u: Update) returns (needsSnapshot: bool)
      modifies this
      ensures State() == Engine.Apply(old(State()), u)
      ensures needsSnapshot == NeedsSnapshot(old(State()), u) == !synced
    {
      if !synced {
        Buffer(u);
        return true;
      }
      var expected := lastSeq + 1;
      if u.seqNo < expected {
        return false;
      } else if u.seqNo > expected {
        gaps := gaps + 1;
        synced := false;
        Buffer(u);
        return true;
      } else {
        ApplyDelta(u.side, u.price, u.size);
        lastSeq := u.seqNo;
        return false;
      }
    }

    /** The order the sort chose among equal numbers is not the caller's to know. */
    method ApplySnapshot(s: Snapshot)
      modifies this
      ensures exists order :: SortedPermutation(order, old(pending))
                              && State() == Engine.ApplySnapshot(old(State()), s, order)
    {
      ghost var before := State();
      if !synced && lastSeq != 0 {
        resyncs := resyncs + 1;
      }
      bids := LoadSide(s.bids);
      asks := LoadSide(s.asks);
      lastSeq := s.seqNo;
      synced := true;

      var buffered := pending;
      pending := [];
      assert State() == Seed(before, s);
      var order := SortSlice(buffered, (u: Update) => u.seqNo);
      for i := 0 to |order|
        invariant State() == ApplyAll(Seed(before, s), order[..i])
      {
        assert order[..i + 1][..i] == order[..i];
        var _ := Apply(order[i]);
      }
      assert order[..|order|] == order;
      assert forall i, j :: 0 <= i < j < |order| ==>
          ((u: Update) => u.seqNo)(order[i]) <= ((u: Update) => u.seqNo)(order[j]);
      assert SortedPermutation(order, old(pending));
    }

    method LoadSide(levels: seq<Level>) returns (side: map<int, int>)
      ensures side == Load(levels)
    {
      side := map[];
      for i := 0 to |levels|
        invariant side == Load(levels[..i])
      {
        assert levels[..i + 1][..i] == levels[..i];
        if levels[i].size != 0 {
          side := side[levels[i].price := levels[i].size];
        }
      }
      assert levels[..|levels|] == levels;
    }

    /** Appends to the replay buffer, dropping the oldest at the cap. */
    method Buffer(u: Update)
      modifies this`pending, this`dropped
      ensures State() == Engine.Buffer(old(State()), u)
    {
      if |pending| >= MAX_PENDING {
        pending := pending[1..];
        dropped := dropped + 1;
      }
      pending := pending + [u];
    }

    method ApplyDelta(side: Side, price: int, size: int)
      modifies this`bids, this`asks
      ensures Levels(bids, asks) == Engine.ApplyDelta(old(Levels(bids, asks)), side, price, size)
    {
      if side == Sell {
        asks := if size == 0 then asks - {price} else asks[price := size];
      } else {
        bids := if size == 0 then bids - {price} else bids[price := size];
      }
    }

    method Trim(n: nat)
      modifies this`bids, this`asks
      ensures State() == old(State()).(levels := TrimLevels(old(State()).levels, n))
      ensures Keeps(bids, old(bids), n) && AllAbove(bids, old(bids))
      ensures Keeps(asks, old(asks), n) && AllBelow(asks, old(asks))
    {
      TrimKeepsBest(Levels(bids, asks), n);
      bids := TrimSide(bids, n, true);
      asks := TrimSide(asks, n, false);
    }

    method TopOfBook() returns (bid: Option<Level>, ask: Option<Level>, ok: bool)
      ensures ok <==> bids != map[] && asks != map[]
      ensures if ok then bid == Head(bids, true) && ask == Head(asks, false) else bid == ask == None
      ensures ok ==> bid.value.price in bids && bids[bid.value.price] == bid.value.size
                     && forall p :: p in bids ==> p <= bid.value.price
      ensures ok ==> ask.value.price in asks && asks[ask.value.price] == ask.value.size
                     && forall p :: p in asks ==> p >= ask.value.price
    {
      bid := Extreme(bids, true);
      ask := Extreme(asks, false);
      ok := bid.Some? && ask.Some?;
      if !ok {
        bid, ask := None, None;
      }
    }

    /** n <= 0 returns every level. */
    method Depth(n: int) returns (bidLevels: seq<Level>, askLevels: seq<Level>)
      ensures bidLevels == DepthOf(bids, n, true)
      ensures askLevels == DepthOf(asks, n, false)
      ensures forall i, j :: 0 <= i < j < |bidLevels| ==> bidLevels[i].price > bidLevels[j].price
      ensures forall i, j :: 0 <= i < j < |askLevels| ==> askLevels[i].price < askLevels[j].price
    {
      DepthInOrder(Levels(bids, asks), n);
      bidLevels := SortedLevels(bids, true);
      askLevels := SortedLevels(asks, false);
      if n > 0 {
        if |bidLevels| > n {
          bidLevels := bidLevels[..n];
        }
        if |askLevels| > n {
          askLevels := askLevels[..n];
        }
      }
    }
  }

  function SortKey(desc: bool, p: int): int {
    if desc then -p else p
  }

  lemma SortedIsRanking(ps: seq<int>, keys: set<int>, desc: bool)
    requires forall i, j :: 0 <= i < j < |ps| ==> SortKey(desc, ps[i]) <= SortKey(desc, ps[j])
    requires NoDuplicates(ps) && forall p :: p in ps <==> p in keys
    ensures ps == Ranked(keys, desc)
  {
    forall i, j | 0 <= i < j < |ps|
      ensures Better(desc, ps[i], ps[j])
    {
      assert ps[i] != ps[j];
    }
    RankingUnique(ps, Ranked(keys, desc), keys, desc);
  }

  method TrimSide(side: map<int, int>, n: nat, desc: bool) returns (trimmed: map<int, int>)
    ensures trimmed == Top(side, n, desc)
    ensures Keeps(trimmed, side, n) && if desc then AllAbove(trimmed, side) else AllBelow(trimmed, side)
  {
    if |side| <= n {
      NothingToTrim(side, n, desc);
      TopKeepsBest(side, n, desc);
      return side;
    }
    var prices := SortedPrices(side, desc);
    trimmed := DeleteAll(side, prices[n..]);
    assert prices[n..] == prices[n..|prices|];
    WithoutTail(side, prices, n, desc, trimmed);
    TopKeepsBest(side, n, desc);
  }

  method SortedPrices(side: map<int, int>, desc: bool) returns (prices: seq<int>)
    ensures IsRanking(prices, side.Keys, desc) && |prices| == |side|
  {
    var order := RangeKeys(side);
    prices := SortSlice(order, p => SortKey(desc, p));
    PermutationKeepsDistinct(order, prices);
    SortedIsRanking(prices, side.Keys, desc);
  }

  method DeleteAll(side: map<int, int>, prices: seq<int>) returns (rest: map<int, int>)
    ensures forall p :: p in rest <==> p in side && p !in prices
    ensures forall p :: p in rest ==> rest[p] == side[p]
  {
    rest := side;
    for i := 0 to |prices|
      invariant forall p :: p in rest <==> p in side && p !in prices[..i]
      invariant forall p :: p in rest ==> rest[p] == side[p]
    {
      assert prices[..i + 1] == prices[..i] + [prices[i]];
      rest := rest - {prices[i]};
    }
    assert prices[..|prices|] == prices;
  }

  lemma PrefixAndSuffix(s: seq<int>, n: nat)
    requires NoDuplicates(s) && n <= |s|
    ensures forall p :: p in s[..n] <==> p in s && p !in s[n..|s|]
  {
    assert s == s[..n] + s[n..|s|];
  }

  lemma WithoutTail(side: map<int, int>, prices: seq<int>, n: nat, desc: bool, trimmed: map<int, int>)
    requires IsRanking(prices, side.Keys, desc) && n <= |prices|
    requires forall p :: p in trimmed <==> p in side && p !in prices[n..|prices|]
    requires forall p :: p in trimmed ==> trimmed[p] == side[p]
    ensures trimmed == Top(side, n, desc)
  {
    PrefixAndSuffix(prices, n);
    RankedPrefixIsTop(prices, side.Keys, n, desc);
    forall p
      ensures p in trimmed <==> p in TopKeys(side.Keys, n, desc)
    {
      assert p in prices <==> p in side.Keys;
    }
  }

  lemma RankedPrefixIsTop(r: seq<int>, keys: set<int>, n: nat, desc: bool)
    requires IsRanking(r, keys, desc) && n <= |r|
    ensures forall p :: p in r[..n] <==> p in TopKeys(keys, n, desc)
  {
    TopIsPrefix(keys, n, desc);
    RankingUnique(r, Ranked(keys, desc), keys, desc);
  }

  /** The highest (desc) or lowest level of a side. */
  method Extreme(side: map<int, int>, desc: bool) returns (best: Option<Level>)
    ensures best == Head(side, desc)
    ensures match best
            case None => side == map[]
            case Some(l) => l.price in side && side[l.price] == l.size
                            && forall p :: p in side ==> if desc then p <= l.price else p >= l.price
  {
    var order := RangeKeys(side);
    var first, price := true, 0;
    for i := 0 to |order|
      invariant first <==> i == 0
      invariant !first ==> price in side && forall j :: 0 <= j < i ==> order[j] == price || Better(desc, price, order[j])
    {
      if first || (desc && order[i] > price) || (!desc && order[i] < price) {
        price, first := order[i], false;
      }
    }
    if first {
      assert side == map[] by {
        assert forall p :: p in side ==> p in order;
      }
      return None;
    }
    forall p | p in side && p != price
      ensures Better(desc, price, p)
    {
      var j :| 0 <= j < |order| && order[j] == p;
    }
    BestIsHead(side, desc, price);
    best := Some(Level(price, side[price]));
  }

  lemma BestIsHead(side: map<int, int>, desc: bool, price: int)
    requires price in side && forall p :: p in side ==> p == price || Better(desc, price, p)
    ensures Head(side, desc) == Some(Level(price, side[price]))
  {
    var r := Ranked(side.Keys, desc);
    assert price in r;
    assert r[0] in r;
  }

  method SortedLevels(side: map<int, int>, desc: bool) returns (levels: seq<Level>)
    ensures levels == DepthOf(side, 0, desc)
    ensures forall i, j :: 0 <= i < j < |levels| ==>
              if desc then levels[i].price > levels[j].price else levels[i].price < levels[j].price
  {
    DepthIsOrdered(side, 0, desc);
    var order := RangeKeys(side);
    var unsorted := [];
    for i := 0 to |order|
      invariant |unsorted| == i
      invariant forall j :: 0 <= j < i ==> order[j] in side && unsorted[j] == Level(order[j], side[order[j]])
    {
      assert order[i] in order;
      unsorted := unsorted + [Level(order[i], side[order[i]])];
    }
    levels := SortSlice(unsorted, (l: Level) => SortKey(desc, l.price));
    PermutationKeepsDistinct(unsorted, levels);
    SortedListing(order, unsorted, levels, side, desc);
  }

  lemma SortedListing(order: seq<int>, unsorted: seq<Level>, levels: seq<Level>, side: map<int, int>, desc: bool)
    requires forall p :: p in order <==> p in side
    requires |unsorted| == |order|
    requires forall j :: 0 <= j < |order| ==> order[j] in side && unsorted[j] == Level(order[j], side[order[j]])
    requires NoDuplicates(levels) && forall l :: l in unsorted <==> l in levels
    requires forall i, j :: 0 <= i < j < |levels| ==> SortKey(desc, levels[i].price) <= SortKey(desc, levels[j].price)
    ensures levels == DepthOf(side, 0, desc)
  {
    var ps := Prices(levels);
    forall i | 0 <= i < |levels|
      ensures levels[i].price in side && levels[i] == Level(levels[i].price, side[levels[i].price])
    {
      assert levels[i] in unsorted;
    }
    forall p | p in side
      ensures p in ps
    {
      var j :| 0 <= j < |order| && order[j] == p;
      assert unsorted[j] in levels;
      var i :| 0 <= i < |levels| && levels[i] == unsorted[j];
      assert ps[i] == p;
    }
    forall i, j | 0 <= i < j < |ps|
      ensures ps[i] != ps[j]
    {
      assert levels[i] != levels[j];
    }
    assert forall p :: p in ps ==> p in side;
    SortedIsRanking(ps, side.Keys, desc);
    AllLevels(levels, side, desc);
  }

  lemma AllLevels(levels: seq<Level>, side: map<int, int>, desc: bool)
    requires Prices(levels) == Ranked(side.Keys, desc)
    requires forall i :: 0 <= i < |levels| ==> levels[i].price in side && side[levels[i].price] == levels[i].size
    ensures levels == DepthOf(side, 0, desc)
  {
    var r, d := Ranked(side.Keys, desc), DepthOf(side, 0, desc);
    assert d == LevelsOf(side, r);
    forall i | 0 <= i < |levels|
      ensures levels[i] == d[i]
    {
      assert r[i] == Prices(levels)[i];
    }
  }
}
