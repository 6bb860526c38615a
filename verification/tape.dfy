/** The live tape: a bounded ring of recent trades with consecutive ids, read through cursors. */
module Tape {
  import opened Norm
  import Fixed
  import opened FixedLaws

  const MAX_RECENT: nat := 500

  datatype Trade = Trade(venue: string, symbol: string, side: Side, price: Fixed.int64, size: Fixed.int64)

  datatype Recent = Recent(id: nat, trade: Trade)

  /** One tape entry, rendered for display. */
  datatype TradeRow = TradeRow(venue: string, symbol: string, side: string, size: string, price: string)

  function SideName(s: Side): string {
    match s
    case Buy => "buy"
    case Sell => "sell"
    case SideUnknown => "unknown"
  }

  function Render(t: Trade): TradeRow {
    TradeRow(t.venue, t.symbol, SideName(t.side),
             Fixed.Format(t.size as int, Fixed.SIZE_DECIMALS), Fixed.Format(t.price as int, Fixed.PRICE_DECIMALS))
  }


  /** The id of the newest trade no longer in the ring. */
  function Evicted(total: nat): nat {
    if total > MAX_RECENT then total - MAX_RECENT else 0
  }

  /** Trades numbered from + 1 to upTo, with their ids. */
  function Numbered(trades: seq<Trade>, from: nat, upTo: nat): seq<Recent>
    requires from <= upTo <= |trades|
  {
    seq(upTo - from, i requires 0 <= i < upTo - from => Recent(from + i + 1, trades[from + i]))
  }

  /** A poll starts after the cursor or after the last evicted trade, whichever is later. */
  function PollFrom(total: nat, cursor: int): nat {
    if cursor > Evicted(total) then cursor else Evicted(total)
  }

  /** The ring has nothing after the cursor. */
  predicate NothingNew(total: nat, cursor: int) {
    total == 0 || cursor >= total
  }

  /** Where a poll leaves the cursor: it takes at most limit trades (one, if asked for none). */
  function PollEnd(total: nat, cursor: int, limit: nat): int {
    if NothingNew(total, cursor) then cursor else Min(total, PollFrom(total, cursor) + Max(limit, 1))
  }

  /** What a poll returns, said on the whole history of trades. */
  function Polled(trades: seq<Trade>, cursor: int, limit: nat): seq<Recent> {
    if NothingNew(|trades|, cursor) then []
    else Numbered(trades, PollFrom(|trades|, cursor), PollEnd(|trades|, cursor, limit))
  }

  function RenderAll(rs: seq<Recent>): seq<TradeRow> {
    seq(|rs|, i requires 0 <= i < |rs| => Render(rs[i].trade))
  }

  /** How many trades come before the first that a poll can return: those up to the cursor, and those
      that the ring's 500 places no longer hold. */
  function FirstSince(total: nat, cursor: int): nat {
    if cursor > 0 && cursor > total - 500 then cursor else if total > 500 then total - 500 else 0
  }

  /** The row names the trade's venue, symbol and side, and its numerals read as size and price. */
  ghost predicate ShowsTrade(r: TradeRow, t: Trade) {
    && r.venue == t.venue && r.symbol == t.symbol
    && (r.side == "buy" <==> t.side == Buy) && (r.side == "sell" <==> t.side == Sell)
    && (r.side == "unknown" <==> t.side == SideUnknown)
    && IsSpelling(r.size, t.size as int, 8) && IsSpelling(r.price, t.price as int, 8)
  }

  /** Rows out show the trades after the cursor that the ring still holds, oldest first, as many as
      there are up to limit (one, if asked for none), and last is the number of the last. */
  ghost predicate Answers(out: seq<TradeRow>, last: int, trades: seq<Trade>, cursor: int, limit: nat) {
    var first, n := FirstSince(|trades|, cursor), |out|;
    && n == (if first >= |trades| then 0 else if limit == 0 then 1 else Min(limit, |trades| - first))
    && last == (if n == 0 then cursor else first + n)
    && forall i :: 0 <= i < n ==> ShowsTrade(out[i], trades[first + i])
  }

  lemma PollsAnswer(trades: seq<Trade>, cursor: int, limit: nat)
    ensures Answers(RenderAll(Polled(trades, cursor, limit)), PollEnd(|trades|, cursor, limit), trades, cursor, limit)
  {
    var p, first := Polled(trades, cursor, limit), FirstSince(|trades|, cursor);
    forall i | 0 <= i < |p|
      ensures ShowsTrade(Render(p[i].trade), trades[first + i])
    {
      assert p[i].trade == trades[first + i];
      RowsParseBack(p[i].trade);
    }
  }

  class Registry {
    var recent: seq<Recent>
    var nextTradeId: nat
    ghost var history: seq<Trade>

    constructor ()
      ensures Valid() && history == []
    {
      recent, nextTradeId, history := [], 0, [];
    }

    /** The ring holds the last min(500, total) trades, under consecutive ids. */
    ghost predicate Valid()
      reads this
    {
      && nextTradeId == |history|
      && recent == Numbered(history, Evicted(|history|), |history|)
    }

    method OnTrade(t: Trade)
      requires Valid()
      modifies this
      ensures Valid() && history == old(history) + [t]
    {
      nextTradeId := nextTradeId + 1;
      recent := recent + [Recent(nextTradeId, t)];
      if |recent| > MAX_RECENT {
        recent := recent[|recent| - MAX_RECENT..];
      }
      history := history + [t];
    }

    method LatestTradeId() returns (id: nat)
      requires Valid()
      ensures id == |history|
    {
      id := nextTradeId;
    }

    method TradesSince(cursor: int, limit: nat) returns (out: seq<TradeRow>, last: int)
      requires Valid()
      ensures out == RenderAll(Polled(history, cursor, limit))
      ensures last == PollEnd(|history|, cursor, limit)
      ensures Answers(out, last, history, cursor, limit)
    {
      out, last := [], cursor;
      ghost var base := Evicted(|history|);
      for i := 0 to |recent|
        invariant |out| < Max(limit, 1)
        invariant PollAt(history, cursor, base + i, out, last)
      {
        PollNext(history, cursor, base + i, out, last);
        if recent[i].id > cursor {
          out := out + [Render(recent[i].trade)];
          last := recent[i].id;
          if |out| >= limit {
            break;
          }
        }
      }
      PollDone(history, cursor, limit, out, last);
      PollsAnswer(history, cursor, limit);
    }
  }

  /** The scan has looked at every trade up to number n. */
  ghost predicate PollAt(trades: seq<Trade>, cursor: int, n: nat, out: seq<TradeRow>, last: int) {
    var from := PollFrom(|trades|, cursor);
    if n <= from then out == [] && last == cursor
    else n <= |trades| && last == n && |out| == n - from && out == RenderAll(Numbered(trades, from, n))
  }

  lemma PollNext(trades: seq<Trade>, cursor: int, n: nat, out: seq<TradeRow>, last: int)
    requires Evicted(|trades|) <= n < |trades| && PollAt(trades, cursor, n, out, last)
    ensures if n + 1 > cursor then PollAt(trades, cursor, n + 1, out + [Render(trades[n])], n + 1)
            else PollAt(trades, cursor, n + 1, out, last)
  {
    var from := PollFrom(|trades|, cursor);
    if n >= from {
      NumberedNext(trades, from, n);
    }
  }

  lemma PollDone(trades: seq<Trade>, cursor: int, limit: nat, out: seq<TradeRow>, last: int)
    requires exists n: nat :: PollAt(trades, cursor, n, out, last) && |out| <= Max(limit, 1)
                         && (n == |trades| || (|out| == Max(limit, 1) && n < |trades|))
    ensures out == RenderAll(Polled(trades, cursor, limit)) && last == PollEnd(|trades|, cursor, limit)
  {
  }

  lemma NumberedNext(trades: seq<Trade>, from: nat, upTo: nat)
    requires from <= upTo < |trades|
    ensures RenderAll(Numbered(trades, from, upTo + 1))
         == RenderAll(Numbered(trades, from, upTo)) + [Render(trades[upTo])]
    ensures Numbered(trades, from, from) == []
  {
  }

  // ----- Cursor protocol ------------------------------------------------------------------

  /** A client polls with the cursor its last poll returned, while trades keep coming. */
  datatype Event = NewTrade(trade: Trade) | Poll(limit: nat)

  /** All trades so far, the client's cursor, and everything its polls returned. */
  datatype Client = Client(history: seq<Trade>, cursor: int, got: seq<Recent>)

  function Handle(c: Client, e: Event): Client {
    match e
    case NewTrade(t) => c.(history := c.history + [t])
    case Poll(limit) =>
      Client(c.history, PollEnd(|c.history|, c.cursor, limit), c.got + Polled(c.history, c.cursor, limit))
  }

  function HandleAll(c: Client, es: seq<Event>): Client {
    if es == [] then c else Handle(HandleAll(c, es[..|es| - 1]), es[|es| - 1])
  }

  /** Every poll finds the cursor at most MAX_RECENT trades behind. */
  ghost predicate NeverLags(c: Client, es: seq<Event>) {
    forall i :: 0 <= i < |es| && es[i].Poll? ==>
      var before := HandleAll(c, es[..i]); |before.history| - before.cursor <= MAX_RECENT
  }

  /** Trade number id had left the ring when some poll moved the cursor past it. */
  ghost predicate EvictedAtPoll(c: Client, es: seq<Event>, id: nat) {
    exists i :: 0 <= i < |es| && es[i].Poll?
                && HandleAll(c, es[..i]).cursor < id <= Evicted(|HandleAll(c, es[..i]).history|)
  }

  /** got is strictly increasing, stays within (start, cursor], and each entry is that trade. */
  ghost predicate InOrder(c: Client, start: nat) {
    && start <= c.cursor <= |c.history|
    && (forall i, j :: 0 <= i < j < |c.got| ==> c.got[i].id < c.got[j].id)
    && (forall i :: 0 <= i < |c.got| ==> start < c.got[i].id <= c.cursor && c.got[i].trade == c.history[c.got[i].id - 1])
  }

  ghost predicate Got(c: Client, id: nat) {
    exists i :: 0 <= i < |c.got| && c.got[i].id == id
  }

  lemma HandleKeepsOrder(c: Client, e: Event, start: nat)
    requires InOrder(c, start)
    ensures InOrder(Handle(c, e), start)
  {
  }

  lemma PollCovers(c: Client, limit: nat, id: nat)
    requires 0 <= c.cursor < id <= PollEnd(|c.history|, c.cursor, limit) && c.cursor <= |c.history|
    ensures Got(Handle(c, Poll(limit)), id) || id <= Evicted(|c.history|)
  {
    if id > Evicted(|c.history|) {
      var from, p := PollFrom(|c.history|, c.cursor), Polled(c.history, c.cursor, limit);
      assert p[id - from - 1].id == id;
      assert Handle(c, Poll(limit)).got[|c.got| + (id - from - 1)].id == id;
    }
  }

  lemma GotStays(c: Client, e: Event, id: nat)
    requires Got(c, id)
    ensures Got(Handle(c, e), id)
  {
    var i :| 0 <= i < |c.got| && c.got[i].id == id;
    assert Handle(c, e).got[i].id == id;
  }

  lemma EvictedStays(c: Client, es: seq<Event>, e: Event, id: nat)
    requires EvictedAtPoll(c, es, id)
    ensures EvictedAtPoll(c, es + [e], id)
  {
    var i :| 0 <= i < |es| && es[i].Poll?
             && HandleAll(c, es[..i]).cursor < id <= Evicted(|HandleAll(c, es[..i]).history|);
    assert (es + [e])[..i] == es[..i];
  }

  /** Over any interleaving of trades and polls: outputs come in order without repeats, and every
      trade between the start cursor and the current one was returned or had been evicted. */
  lemma {:induction false} PollsSkipOnlyEvicted(c: Client, es: seq<Event>, id: nat)
    requires 0 <= c.cursor <= |c.history| && c.got == []
    ensures var d := HandleAll(c, es);
            && InOrder(d, c.cursor)
            && (c.cursor < id <= d.cursor ==> Got(d, id) || EvictedAtPoll(c, es, id))
  {
    if es != [] {
      var init, e := es[..|es| - 1], es[|es| - 1];
      var before := HandleAll(c, init);
      PollsSkipOnlyEvicted(c, init, id);
      assert es == init + [e] && es[..|init|] == init;
      HandleKeepsOrder(before, e, c.cursor);
      if c.cursor < id <= HandleAll(c, es).cursor {
        if id > before.cursor {
          PollCovers(before, e.limit, id);
        } else if Got(before, id) {
          GotStays(before, e, id);
        } else {
          EvictedStays(c, init, e, id);
        }
      }
    }
  }

  /** A client that never lags more than the ring receives every trade from its start cursor to
      its current one, each exactly once. */
  lemma {:induction false} PromptPollsAreComplete(c: Client, es: seq<Event>)
    requires 0 <= c.cursor <= |c.history| && c.got == []
    requires NeverLags(c, es)
    ensures var d := HandleAll(c, es);
            0 <= c.cursor <= d.cursor <= |d.history| && d.got == Numbered(d.history, c.cursor, d.cursor)
  {
    if es != [] {
      var init, e := es[..|es| - 1], es[|es| - 1];
      assert forall i :: 0 <= i < |init| ==> init[..i] == es[..i] && init[i] == es[i];
      assert es[..|init|] == init;
      PromptPollsAreComplete(c, init);
      var before, d := HandleAll(c, init), HandleAll(c, es);
      if e.Poll? {
        assert |before.history| - before.cursor <= MAX_RECENT;
        NumberedJoin(before.history, c.cursor, before.cursor, d.cursor);
      }
    }
  }

  lemma NumberedJoin(trades: seq<Trade>, a: nat, b: nat, c: nat)
    requires a <= b <= c <= |trades|
    ensures Numbered(trades, a, b) + Numbered(trades, b, c) == Numbered(trades, a, c)
  {
  }

  // ----- One poll -------------------------------------------------------------------------

  predicate InRing(total: nat, id: int) {
    Evicted(total) < id <= total
  }

  /** A poll returns consecutive trades after the cursor that are still in the ring ... */
  lemma PollIsConsecutive(trades: seq<Trade>, cursor: int, limit: nat, i: nat)
    requires i < |Polled(trades, cursor, limit)|
    ensures var p := Polled(trades, cursor, limit);
            && InRing(|trades|, p[i].id) && p[i].id > cursor
            && p[i].id == p[0].id + i && p[i].trade == trades[p[i].id - 1]
  {
    assert Polled(trades, cursor, limit)[i].id == PollFrom(|trades|, cursor) + i + 1;
  }

  /** ... starting with the first such ... */
  lemma PollStartsFirst(trades: seq<Trade>, cursor: int, limit: nat, id: int)
    requires InRing(|trades|, id) && id > cursor
    ensures var p := Polled(trades, cursor, limit); p != [] && p[0].id <= id
  {
    assert !NothingNew(|trades|, cursor);
    assert Polled(trades, cursor, limit)[0].id == PollFrom(|trades|, cursor) + 1;
  }

  /** ... as many as there are, up to the limit, and moves the cursor to the last of them. The limit
      is exceeded exactly when it is zero and there is something to return. */
  lemma PollIsExact(trades: seq<Trade>, cursor: int, limit: nat)
    ensures var p, end := Polled(trades, cursor, limit), PollEnd(|trades|, cursor, limit);
            && |p| <= Max(limit, 1)
            && (|p| > limit <==> limit == 0 && exists id :: InRing(|trades|, id) && id > cursor)
            && (|p| < Max(limit, 1) ==> forall id :: InRing(|trades|, id) && id > cursor ==> id <= end)
            && end == (if p == [] then cursor else p[|p| - 1].id)
  {
    if !NothingNew(|trades|, cursor) {
      assert |Polled(trades, cursor, limit)| == PollEnd(|trades|, cursor, limit) - PollFrom(|trades|, cursor);
    }
    if Polled(trades, cursor, limit) != [] {
      PollIsConsecutive(trades, cursor, limit, 0);
    }
    if id :| InRing(|trades|, id) && id > cursor {
      PollStartsFirst(trades, cursor, limit, id);
    }
  }

  function ReadBack(v: Fixed.int64): Result<int, Fixed.Error> {
    if v as int == Fixed.MIN_INT64 then Err(Fixed.Overflow) else Ok(v as int)
  }

  /** A row shows its trade, and the rendered size and price parse back to the trade's numbers, the
      least int64 excepted. */
  lemma RowsParseBack(t: Trade)
    ensures ShowsTrade(Render(t), t)
    ensures Fixed.Parse(Render(t).size, Fixed.SIZE_DECIMALS) == ReadBack(t.size)
    ensures Fixed.Parse(Render(t).price, Fixed.PRICE_DECIMALS) == ReadBack(t.price)
  {
    FormatSpells(t.size as int, 8);
    FormatSpells(t.price as int, 8);
    ParseOfFormat(t.size as int, Fixed.SIZE_DECIMALS);
    ParseOfFormat(t.price as int, Fixed.PRICE_DECIMALS);
  }
}
