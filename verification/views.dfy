/** What the sorted views and the trimmed book have to show, said through the rank of a price:
    how many prices of its side are better. */
module Views {
  import opened Norm

  predicate Better(desc: bool, a: int, b: int) {
    if desc then a > b else a < b
  }

  ghost function BetterThan(keys: set<int>, desc: bool, p: int): set<int> {
    set q | q in keys && Better(desc, q, p)
  }

  ghost function Rank(keys: set<int>, desc: bool, p: int): nat {
    |BetterThan(keys, desc, p)|
  }

  ghost function TopKeys(keys: set<int>, n: nat, desc: bool): set<int> {
    set p | p in keys && Rank(keys, desc, p) < n
  }

  /** The side cut down to its best n prices. */
  ghost function Top(side: map<int, int>, n: nat, desc: bool): map<int, int> {
    map p | p in TopKeys(side.Keys, n, desc) :: side[p]
  }

  ghost function TrimLevels(l: Levels, n: nat): Levels {
    Levels(Top(l.bids, n, true), Top(l.asks, n, false))
  }

  // ----- Rankings -------------------------------------------------------------------------

  ghost predicate Ordered(r: seq<int>, desc: bool) {
    forall i, j :: 0 <= i < j < |r| ==> Better(desc, r[i], r[j])
  }

  ghost predicate IsRanking(r: seq<int>, keys: set<int>, desc: bool) {
    Ordered(r, desc) && forall p :: p in r <==> p in keys
  }

  /** The prices of a side, best first. */
  ghost function Ranked(keys: set<int>, desc: bool): (r: seq<int>)
    ensures IsRanking(r, keys, desc) && |r| == |keys|
    decreases |keys|
  {
    if keys == {} then []
    else
      BestExists(keys, desc);
      var b :| IsBest(keys, desc, b);
      var rest := Ranked(keys - {b}, desc);
      assert forall i :: 0 <= i < |rest| ==> rest[i] in keys - {b};
      [b] + rest
  }

  ghost predicate IsBest(keys: set<int>, desc: bool, b: int) {
    b in keys && forall k :: k in keys ==> k == b || Better(desc, b, k)
  }

  lemma Pick<T>(s: set<T>) returns (x: T)
    requires s != {}
    ensures x in s
  {
    x :| x in s;
  }

  lemma BestExists(keys: set<int>, desc: bool)
    requires keys != {}
    ensures exists b :: IsBest(keys, desc, b)
    decreases |keys|
  {
    var x := Pick(keys);
    if keys != {x} {
      assert keys == (keys - {x}) + {x};
      BestExists(keys - {x}, desc);
      var y :| IsBest(keys - {x}, desc, y);
      assert IsBest(keys, desc, if Better(desc, x, y) then x else y);
    } else {
      assert IsBest(keys, desc, x);
    }
  }

  lemma {:induction false} RankingUnique(a: seq<int>, b: seq<int>, keys: set<int>, desc: bool)
    requires IsRanking(a, keys, desc) && IsRanking(b, keys, desc)
    ensures a == b
    decreases |a|
  {
    assert a[..|a|] == a && b[..|b|] == b;
    PrefixSize(a, |a|, desc, keys);
    PrefixSize(b, |b|, desc, keys);
    if a != [] {
      assert a[0] in a && b[0] in b;
      assert a[0] == b[0];
      RankingTail(a, keys, desc);
      RankingTail(b, keys, desc);
      RankingUnique(a[1..], b[1..], keys - {a[0]}, desc);
      assert a == [a[0]] + a[1..] && b == [b[0]] + b[1..];
    }
  }

  lemma RankingTail(a: seq<int>, keys: set<int>, desc: bool)
    requires IsRanking(a, keys, desc) && a != []
    ensures IsRanking(a[1..], keys - {a[0]}, desc)
  {
    assert a == [a[0]] + a[1..];
    assert a[0] !in a[1..];
  }

  lemma {:induction false} PrefixSize(r: seq<int>, n: nat, desc: bool, s: set<int>)
    requires n <= |r| && Ordered(r, desc)
    requires forall p :: p in s <==> p in r[..n]
    ensures |s| == n
  {
    if n == 0 {
      if s != {} {
        var p := Pick(s);
        assert false;
      }
    } else {
      assert r[..n] == r[..n - 1] + [r[n - 1]];
      assert r[n - 1] !in r[..n - 1];
      PrefixSize(r, n - 1, desc, s - {r[n - 1]});
    }
  }

  /** Rank is the position in the ranking. */
  lemma RankIsPosition(keys: set<int>, desc: bool, i: nat)
    requires i < |keys|
    ensures Rank(keys, desc, Ranked(keys, desc)[i]) == i
  {
    var r := Ranked(keys, desc);
    var s := BetterThan(keys, desc, r[i]);
    forall p
      ensures p in s <==> p in r[..i]
    {
      if p in keys {
        var j :| 0 <= j < |r| && r[j] == p;
        assert j < i ==> r[..i][j] == p;
      }
    }
    PrefixSize(r, i, desc, s);
  }


  lemma TopIsPrefix(keys: set<int>, n: nat, desc: bool)
    ensures IsRanking(Ranked(keys, desc)[..Min(n, |keys|)], TopKeys(keys, n, desc), desc)
    ensures Ranked(TopKeys(keys, n, desc), desc) == Ranked(keys, desc)[..Min(n, |keys|)]
    ensures |TopKeys(keys, n, desc)| == Min(n, |keys|)
  {
    var r, m := Ranked(keys, desc), Min(n, |keys|);
    forall p
      ensures p in r[..m] <==> p in TopKeys(keys, n, desc)
    {
      if p in keys {
        var j :| 0 <= j < |r| && r[j] == p;
        RankIsPosition(keys, desc, j);
        assert j < m ==> r[..m][j] == p;
      }
    }
    RankingUnique(r[..m], Ranked(TopKeys(keys, n, desc), desc), TopKeys(keys, n, desc), desc);
  }

  // ----- Laws of trimming -----------------------------------------------------------------

  /** Two sides that agree on everything better than p rank p alike. */
  lemma SameRank(a: set<int>, b: set<int>, desc: bool, p: int)
    requires forall q :: Better(desc, q, p) ==> (q in a <==> q in b)
    ensures Rank(a, desc, p) == Rank(b, desc, p)
  {
    assert BetterThan(a, desc, p) == BetterThan(b, desc, p);
  }

  lemma BetterHasLowerRank(keys: set<int>, desc: bool, q: int, p: int)
    requires q in keys && Better(desc, q, p)
    ensures Rank(keys, desc, q) < Rank(keys, desc, p)
  {
    var s, t := BetterThan(keys, desc, q), BetterThan(keys, desc, p);
    assert s + {q} <= t;
    SubsetSize(s + {q}, t);
  }

  lemma {:induction false} SubsetSize(a: set<int>, b: set<int>)
    requires a <= b
    ensures |a| <= |b|
  {
    assert b == a + (b - a);
  }

  lemma TrimTrim(side: map<int, int>, n: nat, m: nat, desc: bool)
    ensures Top(Top(side, n, desc), m, desc) == Top(side, Min(m, n), desc)
  {
    var keys := side.Keys;
    var kept := TopKeys(keys, n, desc);
    assert Top(side, n, desc).Keys == kept;
    forall p | p in kept
      ensures Rank(kept, desc, p) == Rank(keys, desc, p)
    {
      forall q | Better(desc, q, p)
        ensures q in kept <==> q in keys
      {
        if q in keys {
          BetterHasLowerRank(keys, desc, q, p);
        }
      }
      SameRank(kept, keys, desc, p);
    }
  }

  /** Trim(m) after Trim(n) is Trim(min(m, n)); in particular trimming twice changes nothing. */
  lemma TrimsCompose(l: Levels, n: nat, m: nat)
    ensures TrimLevels(TrimLevels(l, n), m) == TrimLevels(l, Min(m, n))
  {
    TrimTrim(l.bids, n, m, true);
    TrimTrim(l.asks, n, m, false);
  }

  /** Any book that contains the window of another, value for value, and nothing else but prices
      that are in the other outside its window, has that same window. */
  lemma SameWindow(side: map<int, int>, truth: map<int, int>, n: nat, desc: bool)
    requires forall p :: p in Top(truth, n, desc) ==> p in side && side[p] == truth[p]
    requires forall p :: p in side ==> p in truth
    ensures Top(side, n, desc) == Top(truth, n, desc)
  {
    assert Top(truth, n, desc).Keys == TopKeys(truth.Keys, n, desc);
    forall p | p in TopKeys(truth.Keys, n, desc)
      ensures p in side.Keys && side[p] == truth[p]
    {
      assert p in Top(truth, n, desc);
    }
    forall p | p in side.Keys
      ensures p in truth.Keys
    {
      assert p in side;
    }
    forall p | p in side
      ensures Rank(side.Keys, desc, p) < n <==> p in TopKeys(truth.Keys, n, desc)
    {
      if p in TopKeys(truth.Keys, n, desc) {
        WindowRank(side.Keys, truth.Keys, n, desc, p);
      } else {
        OutsideRank(side.Keys, truth.Keys, n, desc, p);
      }
    }
  }

  lemma WindowRank(keys: set<int>, truth: set<int>, n: nat, desc: bool, p: int)
    requires TopKeys(truth, n, desc) <= keys <= truth
    requires p in TopKeys(truth, n, desc)
    ensures Rank(keys, desc, p) == Rank(truth, desc, p)
  {
    forall q | Better(desc, q, p)
      ensures q in keys <==> q in truth
    {
      if q in truth {
        BetterHasLowerRank(truth, desc, q, p);
        assert q in TopKeys(truth, n, desc);
      }
    }
    SameRank(keys, truth, desc, p);
  }

  lemma OutsideRank(keys: set<int>, truth: set<int>, n: nat, desc: bool, p: int)
    requires TopKeys(truth, n, desc) <= keys <= truth
    requires p in keys && p !in TopKeys(truth, n, desc)
    ensures Rank(keys, desc, p) >= n
  {
    var window := TopKeys(truth, n, desc);
    TopIsPrefix(truth, n, desc);
    AllRanksBelowSize(truth, desc, p);
    forall q | q in window
      ensures q in BetterThan(keys, desc, p)
    {
      if !Better(desc, q, p) && q != p {
        BetterHasLowerRank(truth, desc, p, q);
      }
    }
    SubsetSize(window, BetterThan(keys, desc, p));
  }

  lemma AllRanksBelowSize(keys: set<int>, desc: bool, p: int)
    requires p in keys
    ensures Rank(keys, desc, p) < |keys|
  {
    var s := BetterThan(keys, desc, p);
    SubsetSize(s + {p}, keys);
  }

  // ----- Depth ----------------------------------------------------------------------------

  ghost function LevelsOf(side: map<int, int>, prices: seq<int>): seq<Level>
    requires forall i :: 0 <= i < |prices| ==> prices[i] in side
  {
    seq(|prices|, i requires 0 <= i < |prices| => Level(prices[i], side[prices[i]]))
  }

  ghost function DepthPrices(keys: set<int>, n: int, desc: bool): (r: seq<int>)
    ensures forall i :: 0 <= i < |r| ==> r[i] in keys
  {
    var all := Ranked(keys, desc);
    assert forall i :: 0 <= i < |all| ==> all[i] in all;
    if n > 0 then all[..Min(n, |all|)] else all
  }

  /** One side of Depth(n): n <= 0 asks for every level. */
  ghost function DepthOf(side: map<int, int>, n: int, desc: bool): seq<Level> {
    LevelsOf(side, DepthPrices(side.Keys, n, desc))
  }

  ghost predicate ListsBest(ls: seq<Level>, side: map<int, int>, n: nat, desc: bool) {
    && |ls| == Min(n, |side|)
    && (forall i, j :: 0 <= i < j < |ls| ==> Better(desc, ls[i].price, ls[j].price))
    && (forall i :: 0 <= i < |ls| ==> ls[i].price in side && side[ls[i].price] == ls[i].size)
    && (forall p, i :: p in side && 0 <= i < |ls| && Better(desc, p, ls[i].price) ==> Level(p, side[p]) in ls)
  }

  ghost function Prices(ls: seq<Level>): seq<int> {
    seq(|ls|, i requires 0 <= i < |ls| => ls[i].price)
  }

  lemma DepthListsBest(side: map<int, int>, n: nat, desc: bool)
    requires n >= 1
    ensures ListsBest(DepthOf(side, n, desc), side, n, desc)
  {
    var all := Ranked(side.Keys, desc);
    var ls := DepthOf(side, n, desc);
    forall p, i | p in side && 0 <= i < |ls| && Better(desc, p, ls[i].price)
      ensures Level(p, side[p]) in ls
    {
      var j :| 0 <= j < |all| && all[j] == p;
      assert ls[j] == Level(p, side[p]);
    }
  }

  /** Depth(n) is the one strictly sorted list of the n best levels. */
  lemma DepthIsUnique(ls: seq<Level>, side: map<int, int>, n: nat, desc: bool)
    requires n >= 1
    ensures ListsBest(ls, side, n, desc) <==> ls == DepthOf(side, n, desc)
  {
    DepthListsBest(side, n, desc);
    if ListsBest(ls, side, n, desc) {
      var d := DepthOf(side, n, desc);
      ListedAreTop(ls, side, n, desc);
      ListedAreTop(d, side, n, desc);
      RankingUnique(Prices(ls), Prices(d), TopKeys(side.Keys, n, desc), desc);
      forall i | 0 <= i < |ls|
        ensures ls[i] == d[i]
      {
        assert Prices(ls)[i] == Prices(d)[i];
      }
    }
  }

  /** In a list of the best, a level's position is its rank. */
  lemma ListedRank(ls: seq<Level>, side: map<int, int>, n: nat, desc: bool, i: nat)
    requires ListsBest(ls, side, n, desc) && i < |ls|
    ensures Ordered(Prices(ls), desc)
    ensures Rank(side.Keys, desc, ls[i].price) == i
  {
    var ps := Prices(ls);
    var s := BetterThan(side.Keys, desc, ps[i]);
    forall p
      ensures p in s <==> p in ps[..i]
    {
      if p in s {
        var j :| 0 <= j < |ls| && ls[j] == Level(p, side[p]);
        assert ps[j] == p && j < i;
        assert ps[..i][j] == p;
      }
      if p in ps[..i] {
        var j :| 0 <= j < i && ps[j] == p;
        assert ls[j].price == p;
      }
    }
    PrefixSize(ps, i, desc, s);
  }

  lemma ListedAreTop(ls: seq<Level>, side: map<int, int>, n: nat, desc: bool)
    requires ListsBest(ls, side, n, desc)
    ensures IsRanking(Prices(ls), TopKeys(side.Keys, n, desc), desc)
  {
    var top, ps := TopKeys(side.Keys, n, desc), Prices(ls);
    forall i | 0 <= i < |ps|
      ensures ps[i] in top
    {
      ListedRank(ls, side, n, desc, i);
    }
    assert Ordered(ps, desc);
    TopIsPrefix(side.Keys, n, desc);
    FullListing(ps, top, desc);
  }

  /** As many ordered prices of a set as it has are all of them. */
  lemma FullListing(ps: seq<int>, s: set<int>, desc: bool)
    requires Ordered(ps, desc) && |ps| == |s|
    requires forall i :: 0 <= i < |ps| ==> ps[i] in s
    ensures IsRanking(ps, s, desc)
  {
    var listed := set p | p in ps;
    assert ps[..|ps|] == ps;
    PrefixSize(ps, |ps|, desc, listed);
    SubsetEqual(listed, s);
  }

  lemma SubsetEqual(a: set<int>, b: set<int>)
    requires a <= b && |a| == |b|
    ensures a == b
  {
    assert b == a + (b - a);
  }

  lemma SameLevels(a: map<int, int>, b: map<int, int>, prices: seq<int>)
    requires forall i :: 0 <= i < |prices| ==> prices[i] in a && prices[i] in b && a[prices[i]] == b[prices[i]]
    ensures LevelsOf(a, prices) == LevelsOf(b, prices)
  {
  }

  /** Depth(0) after Trim(n) is Depth(n) before it. */
  lemma TrimThenDepth(side: map<int, int>, n: nat, k: int, desc: bool)
    requires n >= 1 && (k <= 0 || k >= n)
    ensures DepthOf(Top(side, n, desc), k, desc) == DepthOf(side, n, desc)
  {
    var t := Top(side, n, desc);
    assert t.Keys == TopKeys(side.Keys, n, desc);
    TrimThenPrices(side.Keys, n, k, desc);
    SameLevels(t, side, DepthPrices(side.Keys, n, desc));
  }

  lemma TrimThenPrices(keys: set<int>, n: nat, k: int, desc: bool)
    requires n >= 1 && (k <= 0 || k >= n)
    ensures DepthPrices(TopKeys(keys, n, desc), k, desc) == DepthPrices(keys, n, desc)
  {
    TopIsPrefix(keys, n, desc);
    var r := Ranked(TopKeys(keys, n, desc), desc);
    assert r[..|r|] == r;
  }

  // ----- Plain prices ---------------------------------------------------------------------

  /** Bids are listed from the highest price down and asks from the lowest up, each level as it
      rests, and whatever is not listed lies beyond everything that is. */
  lemma DepthInOrder(l: Levels, n: int)
    ensures var d := DepthOf(l.bids, n, true);
            && |d| == (if 0 < n < |l.bids| then n else |l.bids|)
            && (forall i, j :: 0 <= i < j < |d| ==> d[i].price > d[j].price)
            && (forall i :: 0 <= i < |d| ==> d[i].price in l.bids && d[i].size == l.bids[d[i].price])
            && (forall p, i :: p in l.bids && Level(p, l.bids[p]) !in d && 0 <= i < |d| ==> d[i].price > p)
    ensures var d := DepthOf(l.asks, n, false);
            && |d| == (if 0 < n < |l.asks| then n else |l.asks|)
            && (forall i, j :: 0 <= i < j < |d| ==> d[i].price < d[j].price)
            && (forall i :: 0 <= i < |d| ==> d[i].price in l.asks && d[i].size == l.asks[d[i].price])
            && (forall p, i :: p in l.asks && Level(p, l.asks[p]) !in d && 0 <= i < |d| ==> d[i].price < p)
  {
    DepthIsOrdered(l.bids, n, true);
    DepthIsOrdered(l.asks, n, false);
  }

  lemma DepthIsOrdered(side: map<int, int>, n: int, desc: bool)
    ensures var d := DepthOf(side, n, desc);
            && |d| == (if 0 < n < |side| then n else |side|)
            && (forall i, j :: 0 <= i < j < |d| ==> Better(desc, d[i].price, d[j].price))
            && (forall i :: 0 <= i < |d| ==> d[i].price in side && d[i].size == side[d[i].price])
            && (forall p, i :: p in side && Level(p, side[p]) !in d && 0 <= i < |d| ==> Better(desc, d[i].price, p))
  {
    var d := DepthOf(side, n, desc);
    DepthEntries(side, n, desc);
    forall p, i | p in side && Level(p, side[p]) !in d && 0 <= i < |d|
      ensures Better(desc, d[i].price, p)
    {
      var j := PositionOf(side.Keys, desc, p);
      assert j >= |d|;
    }
  }

  lemma PositionOf(keys: set<int>, desc: bool, p: int) returns (j: nat)
    requires p in keys
    ensures j < |keys| && Ranked(keys, desc)[j] == p
  {
    var r := Ranked(keys, desc);
    assert p in r;
    j :| 0 <= j < |r| && r[j] == p;
  }

  lemma DepthEntries(side: map<int, int>, n: int, desc: bool)
    ensures var all, d := Ranked(side.Keys, desc), DepthOf(side, n, desc);
            && |d| == (if 0 < n < |side| then n else |side|)
            && forall k :: 0 <= k < |d| ==> all[k] in side && d[k] == Level(all[k], side[all[k]])
  {
    assert |Ranked(side.Keys, desc)| == |side|;
  }

  /** t is n of the levels of side, or all of them if they are fewer. */
  ghost predicate Keeps(t: map<int, int>, side: map<int, int>, n: nat) {
    && |t| == (if |side| <= n then |side| else n)
    && forall p :: p in t ==> p in side && t[p] == side[p]
  }

  ghost predicate AllAbove(t: map<int, int>, side: map<int, int>) {
    forall p, q :: p in t && q in side && q !in t ==> p > q
  }

  ghost predicate AllBelow(t: map<int, int>, side: map<int, int>) {
    forall p, q :: p in t && q in side && q !in t ==> p < q
  }

  /** A trim keeps min(n, size) levels of each side as they are; every bid it keeps is above every
      bid it cuts, and every ask it keeps is below every ask it cuts. */
  lemma TrimKeepsBest(l: Levels, n: nat)
    ensures var t := TrimLevels(l, n);
            && Keeps(t.bids, l.bids, n) && AllAbove(t.bids, l.bids)
            && Keeps(t.asks, l.asks, n) && AllBelow(t.asks, l.asks)
  {
    TopKeepsBest(l.bids, n, true);
    TopKeepsBest(l.asks, n, false);
  }

  lemma TopKeepsBest(side: map<int, int>, n: nat, desc: bool)
    ensures Keeps(Top(side, n, desc), side, n)
    ensures if desc then AllAbove(Top(side, n, desc), side) else AllBelow(Top(side, n, desc), side)
  {
    var t := Top(side, n, desc);
    TopSize(side, n, desc);
    forall p, q | p in t && q in side && q !in t
      ensures if desc then p > q else p < q
    {
      KeptIsBetter(side.Keys, n, desc, p, q);
    }
  }

  lemma TopSize(side: map<int, int>, n: nat, desc: bool)
    ensures |Top(side, n, desc)| == Min(n, |side|)
  {
    TopIsPrefix(side.Keys, n, desc);
    assert Top(side, n, desc).Keys == TopKeys(side.Keys, n, desc);
  }

  lemma KeptIsBetter(keys: set<int>, n: nat, desc: bool, p: int, q: int)
    requires p in TopKeys(keys, n, desc) && q in keys && q !in TopKeys(keys, n, desc)
    ensures Better(desc, p, q)
  {
    if !Better(desc, p, q) {
      BetterHasLowerRank(keys, desc, q, p);
    }
  }

  lemma NothingToTrim(side: map<int, int>, n: nat, desc: bool)
    requires |side| <= n
    ensures Top(side, n, desc) == side
  {
    forall p | p in side
      ensures Rank(side.Keys, desc, p) < n
    {
      AllRanksBelowSize(side.Keys, desc, p);
    }
  }
}
