/** The OKX connector: frames are accepted only while seqId and prevSeqId link up. */
module Okx {
  import opened Norm
  import opened Engine
  import opened Numbering
  import opened PersistedLog
  import opened Sessions
  import opened Wire
  import Fixed

  /** One book payload; a level is [price, size, ...]. */
  datatype BookData = BookData(asks: seq<seq<string>>, bids: seq<seq<string>>, seqId: int, prevSeqId: int)

  datatype OkxError = SeqGap | TooFewFields | BadNumber(error: Fixed.Error)

  /** The seqId of the last applied frame, once there has been a snapshot. */
  datatype Link = Link(lastSeqId: int, seeded: bool)

  const NEW_LINK := Link(0, false)

  predicate Contiguous(link: Link, prevSeqId: int) {
    link.seeded && prevSeqId == link.lastSeqId
  }

  function ParseRow(row: seq<string>): Result<Level, OkxError> {
    if |row| < 2 then Err(TooFewFields)
    else
      match ParseLevel(row[0], row[1])
      case Err(e) => Err(BadNumber(e))
      case Ok(l) => Ok(l)
  }

  /** What one frame does to its book and link, and whether it ends the session. Bids that parse
      are applied even when the asks of the same frame do not. */
  datatype Decision = Decision(acts: seq<Act>, link: Link, error: Option<OkxError>)

  function Decide(link: Link, action: string, d: BookData): Decision {
    if action == "snapshot" then
      match ParseAll(d.bids, ParseRow)
      case Err(e) => Decision([], link, Some(e))
      case Ok(bids) =>
        match ParseAll(d.asks, ParseRow)
        case Err(e) => Decision([], link, Some(e))
        case Ok(asks) => Decision([TakeSnapshot(bids, asks)], Link(d.seqId, true), None)
    else if !Contiguous(link, d.prevSeqId) then Decision([], link, Some(SeqGap))
    else
      match ParseAll(d.bids, ParseRow)
      case Err(e) => Decision([], link, Some(e))
      case Ok(bids) =>
        match ParseAll(d.asks, ParseRow)
        case Err(e) => Decision(AsActs(ChangesOn(Buy, bids)), link, Some(e))
        case Ok(asks) => Decision(AsActs(ChangesOn(Buy, bids) + ChangesOn(Sell, asks)), Link(d.seqId, true), None)
  }

  datatype OkxState = OkxState(session: SessionState, links: map<string, Link>)

  const NEW_OKX := OkxState(NEW_SESSION, map[])

  function LinkOf(links: map<string, Link>, instId: string): Link {
    if instId in links then links[instId] else NEW_LINK
  }

  ghost function Next(st: OkxState, instId: string, action: string, d: BookData, persist: bool): OkxState {
    var r := Decide(LinkOf(st.links, instId), action, d);
    OkxState(Open(TakeAll(st.session, ItemsFor(instId, r.acts), persist), instId), st.links[instId := r.link])
  }

  class Connector {
    const table: BookTable
    var links: map<string, Link>

    constructor (persist: bool)
      ensures Valid() && State() == NEW_OKX && table.persist == persist
    {
      table := new BookTable(persist);
      links := map[];
    }

    ghost predicate Valid()
      reads this, table, table.repr
    {
      table.Valid() && this !in table.repr
    }

    ghost function State(): OkxState
      reads this, table
    {
      OkxState(table.State(), links)
    }

    method ApplyBook(instId: string, action: string, d: BookData) returns (error: Option<OkxError>)
      requires Valid()
      modifies this, table.repr
      ensures Valid() && fresh(table.repr - old(table.repr))
      ensures State() == Next(old(State()), instId, action, d, table.persist)
      ensures error == Decide(LinkOf(old(links), instId), action, d).error
    {
      var link := LinkOf(links, instId);
      link, error := ApplyFrame(instId, action, d, link);
      assert table.Valid() && this !in table.repr;
      links := links[instId := link];
    }

    /** The table's share of a frame: open the book, then do what the frame asks. */
    method ApplyFrame(instId: string, action: string, d: BookData, link: Link)
      returns (newLink: Link, error: Option<OkxError>)
      requires table.Valid()
      modifies table.repr
      ensures table.Valid() && fresh(table.repr - old(table.repr))
      ensures var r := Decide(link, action, d);
              && table.State() == Open(TakeAll(old(table.State()), ItemsFor(instId, r.acts), table.persist), instId)
              && newLink == r.link && error == r.error
    {
      OpenCommutes(table.State(), instId, Decide(link, action, d).acts, table.persist);
      table.OpenBook(instId);
      if action == "snapshot" {
        newLink, error := ApplySnapshotFrame(instId, d, link);
      } else if !Contiguous(link, d.prevSeqId) {
        newLink, error := link, Some(SeqGap);
      } else {
        newLink, error := ApplyChanges(instId, d, link);
      }
    }

    method ApplySnapshotFrame(instId: string, d: BookData, link: Link) returns (newLink: Link, error: Option<OkxError>)
      requires table.Valid() && instId in table.books
      modifies table`rows, table`feeds, table.repr - {table}
      ensures table.Valid()
      ensures var r := Decide(link, "snapshot", d);
              && table.State() == TakeAll(old(table.State()), ItemsFor(instId, r.acts), table.persist)
              && newLink == r.link && error == r.error
    {
      var bids := ReadBookLevels(d.bids);
      if bids.Err? {
        return link, Some(bids.error);
      }
      var asks := ReadBookLevels(d.asks);
      if asks.Err? {
        return link, Some(asks.error);
      }
      TakeOne(table.State(), instId, TakeSnapshot(bids.value, asks.value), table.persist);
      table.Snapshot(instId, bids.value, asks.value);
      return Link(d.seqId, true), None;
    }

    method ApplyChanges(instId: string, d: BookData, link: Link) returns (newLink: Link, error: Option<OkxError>)
      requires table.Valid() && instId in table.books
      requires Contiguous(link, d.prevSeqId)
      modifies table`rows, table`feeds, table.repr - {table}
      ensures table.Valid()
      ensures var r := Decide(link, "update", d);
              && table.State() == TakeAll(old(table.State()), ItemsFor(instId, r.acts), table.persist)
              && newLink == r.link && error == r.error
    {
      ghost var s := table.State();
      var bids := ReadBookLevels(d.bids);
      if bids.Err? {
        return link, Some(bids.error);
      }
      var bidChanges := ChangesOn(Buy, bids.value);
      table.Changes(instId, bidChanges);
      var asks := ReadBookLevels(d.asks);
      if asks.Err? {
        return link, Some(asks.error);
      }
      var askChanges := ChangesOn(Sell, asks.value);
      table.Changes(instId, askChanges);
      TakeBoth(s, instId, AsActs(bidChanges), AsActs(askChanges), table.persist);
      AsActsAppend(bidChanges, askChanges);
      return Link(d.seqId, true), None;
    }
  }

  method ReadBookLevels(rows: seq<seq<string>>) returns (r: Result<seq<Level>, OkxError>)
    ensures r == ParseAll(rows, ParseRow)
  {
    var out := [];
    for i := 0 to |rows|
      invariant ParseAll(rows[..i], ParseRow) == Ok(out)
    {
      assert rows[..i + 1][..i] == rows[..i];
      if |rows[i]| < 2 {
        FirstErrorWins(rows, ParseRow, i);
        return Err(TooFewFields);
      }
      var l := ReadLevel(rows[i][0], rows[i][1]);
      if l.Err? {
        FirstErrorWins(rows, ParseRow, i);
        return Err(BadNumber(l.error));
      }
      out := out + [l.value];
    }
    assert rows[..|rows|] == rows;
    return Ok(out);
  }

  /** A side of a frame reads as these levels when every row has at least two fields and its first
      two are the price and the size at eight decimals. */
  lemma RowsMean(rows: seq<seq<string>>, levels: seq<Level>)
    ensures ParseAll(rows, ParseRow) == Ok(levels) <==>
            && |levels| == |rows|
            && forall i :: 0 <= i < |rows| ==>
                 && |rows[i]| >= 2
                 && Fixed.Parse(rows[i][0], 8) == Ok(levels[i].price)
                 && Fixed.Parse(rows[i][1], 8) == Ok(levels[i].size)
  {
    ParseAllIsPointwise(rows, ParseRow, levels);
    assert forall i :: 0 <= i < |rows| && |levels| == |rows| ==>
        (ParseRow(rows[i]) == Ok(levels[i]) <==>
         |rows[i]| >= 2 && Fixed.Parse(rows[i][0], 8) == Ok(levels[i].price) && Fixed.Parse(rows[i][1], 8) == Ok(levels[i].size));
  }

  /** A row fails for being short, and otherwise for the first of its two numbers that is bad. */
  lemma RowErrors(row: seq<string>)
    ensures ParseRow(row) == Err(TooFewFields) <==> |row| < 2
    ensures forall e :: ParseRow(row) == Err(BadNumber(e)) <==>
              |row| >= 2 && (Fixed.Parse(row[0], 8) == Err(e)
                             || (Fixed.Parse(row[0], 8).Ok? && Fixed.Parse(row[1], 8) == Err(e)))
  {
  }

  lemma {:induction false} RowsAreNoGap(rows: seq<seq<string>>)
    ensures ParseAll(rows, ParseRow) != Err(SeqGap)
  {
    if rows != [] {
      RowsAreNoGap(rows[..|rows| - 1]);
    }
  }

  /** Why a frame ends the session: a gap first, then its bids, then its asks. */
  lemma FrameErrors(link: Link, action: string, d: BookData)
    ensures var gap, error := action != "snapshot" && !(link.seeded && d.prevSeqId == link.lastSeqId),
                              Decide(link, action, d).error;
            && (error == Some(SeqGap) <==> gap)
            && (!gap ==> match ParseAll(d.bids, ParseRow)
                         case Err(e) => error == Some(e)
                         case Ok(_) => match ParseAll(d.asks, ParseRow)
                                       case Err(e) => error == Some(e)
                                       case Ok(_) => error == None)
  {
    RowsAreNoGap(d.bids);
    RowsAreNoGap(d.asks);
  }

  /** A frame that fails before anything is applied leaves no trace but its book, opened. */
  lemma RejectedFrame(st: OkxState, instId: string, action: string, d: BookData)
    requires var link := LinkOf(st.links, instId);
             || (action != "snapshot" && !(link.seeded && d.prevSeqId == link.lastSeqId))
             || ParseAll(d.bids, ParseRow).Err?
             || (action == "snapshot" && ParseAll(d.asks, ParseRow).Err?)
    ensures var next := Next(st, instId, action, d, true);
            && next.session.rows == st.session.rows && instId in next.session.feeds
            && LinkOf(next.links, instId) == LinkOf(st.links, instId)
            && forall i :: FeedOf(next.session, i) == FeedOf(st.session, i)
  {
    assert ItemsFor(instId, []) == [];
  }

  /** A linked update whose bids parse: bids then asks are applied and written as rows, or the bids
      alone when the asks do not parse, and only the whole frame moves the link. */
  lemma LinkedFrame(st: OkxState, instId: string, action: string, d: BookData, bids: seq<Level>, cs: seq<Change>)
    requires var link := LinkOf(st.links, instId); action != "snapshot" && link.seeded && d.prevSeqId == link.lastSeqId
    requires ParseAll(d.bids, ParseRow) == Ok(bids)
    requires var asks := ParseAll(d.asks, ParseRow); AreChanges(cs, bids, if asks.Ok? then asks.value else [])
    requires Lawful(FeedOf(st.session, instId)) && FeedOf(st.session, instId).book.synced
    ensures var next, asks := Next(st, instId, action, d, true), ParseAll(d.asks, ParseRow);
            && LinkOf(next.links, instId) == (if asks.Ok? then Link(d.seqId, true) else LinkOf(st.links, instId))
            && FeedOf(next.session, instId).book.levels == FoldChanges(FeedOf(st.session, instId).book.levels, cs)
    ensures RowsOfChanges(st.session, Next(st, instId, action, d, true).session, instId, cs)
  {
    DecidesChanges(LinkOf(st.links, instId), action, d, bids, cs);
    TakeChanges(st.session, instId, cs, true);
    ChangeRows(st.session, instId, cs);
    OpenKeepsRows(st.session, TakeAll(st.session, ItemsFor(instId, AsActs(cs)), true), instId, cs);
  }

  lemma DecidesChanges(link: Link, action: string, d: BookData, bids: seq<Level>, cs: seq<Change>)
    requires action != "snapshot" && Contiguous(link, d.prevSeqId) && ParseAll(d.bids, ParseRow) == Ok(bids)
    requires var asks := ParseAll(d.asks, ParseRow); AreChanges(cs, bids, if asks.Ok? then asks.value else [])
    ensures var asks := ParseAll(d.asks, ParseRow);
            Decide(link, action, d)
            == Decision(AsActs(cs), if asks.Ok? then Link(d.seqId, true) else link,
                        if asks.Ok? then None else Some(asks.error))
  {
    AreChangesOn(cs, bids, var asks := ParseAll(d.asks, ParseRow); if asks.Ok? then asks.value else []);
  }
}
