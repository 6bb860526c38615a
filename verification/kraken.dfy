/** The Kraken connector: a ten-level window kept by trimming, guarded by a checksum. */
module Kraken {
  import opened Norm
  import opened Engine
  import opened Views
  import opened Books
  import opened Numbering
  import opened Sessions
  import opened Wire
  import opened Checksum
  import Fixed

  const BOOK_DEPTH: nat := 10

  datatype BookFrame = BookFrame(symbol: string, bids: seq<LevelText>, asks: seq<LevelText>, checksum: int)

  datatype KrakenError = BadNumber(error: Fixed.Error) | ChecksumMismatch

  /** Levels up to the first that does not parse. */
  datatype Prefix = Prefix(levels: seq<Level>, error: Option<Fixed.Error>)

  function GoodPrefix(texts: seq<LevelText>): Prefix {
    if texts == [] then Prefix([], None)
    else
      var p := GoodPrefix(texts[..|texts| - 1]);
      if p.error.Some? then p
      else
        match ParseText(texts[|texts| - 1])
        case Err(e) => Prefix(p.levels, Some(e))
        case Ok(l) => Prefix(p.levels + [l], None)
  }

  lemma {:induction false} PrefixOfGood(texts: seq<LevelText>)
    ensures var p := GoodPrefix(texts);
            ParseAll(texts, ParseText) == if p.error.Some? then Err(p.error.value) else Ok(p.levels)
  {
    if texts != [] {
      PrefixOfGood(texts[..|texts| - 1]);
    }
  }

  datatype Work = Work(acts: seq<Act>, error: Option<Fixed.Error>)

  function SnapshotWork(d: BookFrame): Work {
    match ParseAll(d.bids, ParseText)
    case Err(e) => Work([], Some(e))
    case Ok(bids) =>
      match ParseAll(d.asks, ParseText)
      case Err(e) => Work([], Some(e))
      case Ok(asks) => Work([TakeSnapshot(bids, asks)], None)
  }

  /** Changes are applied as they parse, so a bad level leaves the earlier ones in. */
  function UpdateWork(d: BookFrame): Work {
    var bids := GoodPrefix(d.bids);
    if bids.error.Some? then Work(AsActs(ChangesOn(Buy, bids.levels)), bids.error)
    else
      var asks := GoodPrefix(d.asks);
      Work(AsActs(ChangesOn(Buy, bids.levels) + ChangesOn(Sell, asks.levels)), asks.error)
  }

  function LevelWork(d: BookFrame, isSnapshot: bool): Work {
    if isSnapshot then SnapshotWork(d) else UpdateWork(d)
  }

  /** Only a frame that parses is trimmed. */
  function Trimmed(work: Work): Work {
    if work.error.Some? then work else Work(work.acts + [TrimTo(BOOK_DEPTH)], None)
  }

  function FrameWork(d: BookFrame, isSnapshot: bool): Work {
    Trimmed(LevelWork(d, isSnapshot))
  }

  /** What the checksum of a book is expected to run over. */
  ghost function InputOf(l: Levels, prec: Precision): string {
    ChecksumInput(DepthOf(l.bids, 10, true), DepthOf(l.asks, 10, false), prec)
  }

  /** Without a known precision there is nothing to check. */
  ghost predicate Mismatch(l: Levels, prec: Option<Precision>, checksum: int, crc: string -> int) {
    prec.Some? && crc(InputOf(l, prec.value)) != checksum
  }

  ghost function NextSession(s: SessionState, d: BookFrame, isSnapshot: bool, persist: bool): SessionState {
    Open(TakeAll(s, ItemsFor(d.symbol, FrameWork(d, isSnapshot).acts), persist), d.symbol)
  }

  ghost function NextError(s: SessionState, d: BookFrame, isSnapshot: bool, prec: Option<Precision>,
                           persist: bool, crc: string -> int): Option<KrakenError> {
    var work := FrameWork(d, isSnapshot);
    if work.error.Some? then Some(BadNumber(work.error.value))
    else if Mismatch(FeedOf(NextSession(s, d, isSnapshot, persist), d.symbol).book.levels, prec, d.checksum, crc)
    then Some(ChecksumMismatch)
    else None
  }

  class Connector {
    const table: BookTable
    const crc: string -> int
    var precisions: map<string, Precision>

    constructor (persist: bool, crc: string -> int)
      ensures Valid() && table.State() == NEW_SESSION && table.persist == persist
      ensures precisions == map[] && this.crc == crc
    {
      table := new BookTable(persist);
      this.crc := crc;
      precisions := map[];
    }

    ghost predicate Valid()
      reads this, table, table.repr
    {
      table.Valid() && this !in table.repr
    }

    function PrecisionOf(symbol: string): Option<Precision>
      reads this
    {
      if symbol in precisions then Some(precisions[symbol]) else None
    }

    method OnInstrument(symbol: string, prec: Precision)
      requires Valid()
      modifies this`precisions
      ensures Valid() && PrecisionOf(symbol) == Some(prec)
      ensures forall other :: other != symbol ==> PrecisionOf(other) == old(PrecisionOf(other))
    {
      precisions := precisions[symbol := prec];
    }

    method ApplyBook(d: BookFrame, isSnapshot: bool) returns (error: Option<KrakenError>)
      requires Valid()
      modifies table.repr
      ensures Valid() && fresh(table.repr - old(table.repr))
      ensures table.State() == NextSession(old(table.State()), d, isSnapshot, table.persist)
      ensures error == NextError(old(table.State()), d, isSnapshot, PrecisionOf(d.symbol), table.persist, crc)
    {
      var bad := Absorb(d, isSnapshot);
      if bad.Some? {
        error := Some(BadNumber(bad.value));
      } else {
        error := Validate(d.symbol, d.checksum);
      }
    }

    /** Opens the book and applies the frame to it. */
    method Absorb(d: BookFrame, isSnapshot: bool) returns (error: Option<Fixed.Error>)
      requires table.Valid()
      modifies table.repr
      ensures table.Valid() && fresh(table.repr - old(table.repr)) && d.symbol in table.books
      ensures table.State() == NextSession(old(table.State()), d, isSnapshot, table.persist)
      ensures error == FrameWork(d, isSnapshot).error
    {
      OpenCommutes(table.State(), d.symbol, FrameWork(d, isSnapshot).acts, table.persist);
      table.OpenBook(d.symbol);
      error := ApplyFrame(d, isSnapshot);
    }

    /** Without a known precision there is nothing to check. */
    method Validate(symbol: string, checksum: int) returns (error: Option<KrakenError>)
      requires table.Valid() && symbol in table.books
      ensures error == if Mismatch(FeedOf(table.State(), symbol).book.levels, PrecisionOf(symbol), checksum, crc)
                       then Some(ChecksumMismatch) else None
    {
      var prec := PrecisionOf(symbol);
      if prec.None? {
        return None;
      }
      var sum := ChecksumOf(symbol, prec.value);
      error := if sum != checksum then Some(ChecksumMismatch) else None;
    }

    method ChecksumOf(symbol: string, prec: Precision) returns (sum: int)
      requires table.Valid() && symbol in table.books
      ensures sum == crc(InputOf(FeedOf(table.State(), symbol).book.levels, prec))
    {
      assert table.Matches(symbol);
      var bids, asks := table.books[symbol].book.Depth(10);
      sum := BookChecksum(bids, asks, prec, crc);
    }

    method ApplyFrame(d: BookFrame, isSnapshot: bool) returns (error: Option<Fixed.Error>)
      requires table.Valid() && d.symbol in table.books
      modifies table`rows, table`feeds, table.repr - {table}
      ensures table.Valid()
      ensures var work := FrameWork(d, isSnapshot);
              && table.State() == TakeAll(old(table.State()), ItemsFor(d.symbol, work.acts), table.persist)
              && error == work.error
    {
      ghost var s, acts := table.State(), LevelWork(d, isSnapshot).acts;
      error := ApplyLevels(d, isSnapshot);
      if error.None? {
        table.Trim(d.symbol, BOOK_DEPTH);
        TrimLast(s, d.symbol, acts, table.persist);
        assert FrameWork(d, isSnapshot) == Work(acts + [TrimTo(BOOK_DEPTH)], None);
      }
    }

    method ApplyLevels(d: BookFrame, isSnapshot: bool) returns (error: Option<Fixed.Error>)
      requires table.Valid() && d.symbol in table.books
      modifies table`rows, table`feeds, table.repr - {table}
      ensures table.Valid() && error == LevelWork(d, isSnapshot).error
      ensures table.State() == TakeAll(old(table.State()), ItemsFor(d.symbol, LevelWork(d, isSnapshot).acts), table.persist)
    {
      if isSnapshot {
        error := ApplySnapshotFrame(d);
      } else {
        error := ApplyUpdate(d);
      }
    }

    method ApplySnapshotFrame(d: BookFrame) returns (error: Option<Fixed.Error>)
      requires table.Valid() && d.symbol in table.books
      modifies table`rows, table`feeds, table.repr - {table}
      ensures table.Valid() && error == SnapshotWork(d).error
      ensures table.State() == TakeAll(old(table.State()), ItemsFor(d.symbol, SnapshotWork(d).acts), table.persist)
    {
      var bids := ReadLevels(d.bids);
      if bids.Err? {
        return Some(bids.error);
      }
      var asks := ReadLevels(d.asks);
      if asks.Err? {
        return Some(asks.error);
      }
      TakeOne(table.State(), d.symbol, TakeSnapshot(bids.value, asks.value), table.persist);
      table.Snapshot(d.symbol, bids.value, asks.value);
      return None;
    }

    method ApplyUpdate(d: BookFrame) returns (error: Option<Fixed.Error>)
      requires table.Valid() && d.symbol in table.books
      modifies table`rows, table`feeds, table.repr - {table}
      ensures table.Valid() && error == UpdateWork(d).error
      ensures table.State() == TakeAll(old(table.State()), ItemsFor(d.symbol, UpdateWork(d).acts), table.persist)
    {
      ghost var s := table.State();
      error := ApplySide(d.symbol, d.bids, Buy);
      if error.None? {
        error := ApplySide(d.symbol, d.asks, Sell);
        ghost var bids, asks := ChangesOn(Buy, GoodPrefix(d.bids).levels), ChangesOn(Sell, GoodPrefix(d.asks).levels);
        TakeBoth(s, d.symbol, AsActs(bids), AsActs(asks), table.persist);
        AsActsAppend(bids, asks);
      }
    }

    method ApplyText(symbol: string, text: LevelText, side: Side) returns (l: Result<Level, Fixed.Error>)
      requires table.Valid() && symbol in table.books
      modifies table`rows, table`feeds, table.repr - {table}
      ensures table.Valid() && l == ParseText(text)
      ensures table.State() == if l.Err? then old(table.State())
                               else Take(old(table.State()), Item(symbol, TakeChange(Change(side, l.value.price, l.value.size))),
                                         table.persist)
    {
      l := ReadLevel(text.0, text.1);
      if l.Ok? {
        table.Change(symbol, Change(side, l.value.price, l.value.size));
      }
    }

    /** One side's changes, applied one by one as they parse. */
    method ApplySide(symbol: string, texts: seq<LevelText>, side: Side) returns (error: Option<Fixed.Error>)
      requires table.Valid() && symbol in table.books
      modifies table`rows, table`feeds, table.repr - {table}
      ensures table.Valid()
      ensures table.State() == AfterSide(old(table.State()), symbol, side, GoodPrefix(texts).levels, table.persist)
      ensures error == GoodPrefix(texts).error
    {
      ghost var s := table.State();
      for i := 0 to |texts|
        invariant table.Valid() && GoodPrefix(texts[..i]).error.None?
        invariant table.State() == AfterSide(s, symbol, side, GoodPrefix(texts[..i]).levels, table.persist)
      {
        NextText(s, symbol, side, texts, i, table.persist);
        var l := ApplyText(symbol, texts[i], side);
        if l.Err? {
          return Some(l.error);
        }
      }
      assert texts[..|texts|] == texts;
      return None;
    }
  }

  /** One side's levels, each taken as a change. */
  ghost function AfterSide(s: SessionState, symbol: string, side: Side, levels: seq<Level>, persist: bool): SessionState {
    TakeAll(s, ItemsFor(symbol, AsActs(ChangesOn(side, levels))), persist)
  }

  /** A text that parses is one more change; one that does not ends the prefix. */
  lemma NextText(s: SessionState, symbol: string, side: Side, texts: seq<LevelText>, i: nat, persist: bool)
    requires i < |texts| && GoodPrefix(texts[..i]).error.None?
    ensures var p, r, next := GoodPrefix(texts[..i]), ParseText(texts[i]), GoodPrefix(texts[..i + 1]);
            if r.Err? then GoodPrefix(texts) == Prefix(p.levels, Some(r.error))
            else next.error.None?
                 && AfterSide(s, symbol, side, next.levels, persist)
                 == Take(AfterSide(s, symbol, side, p.levels, persist),
                         Item(symbol, TakeChange(Change(side, r.value.price, r.value.size))), persist)
  {
    var p, r := GoodPrefix(texts[..i]), ParseText(texts[i]);
    assert texts[..i + 1][..i] == texts[..i];
    if r.Err? {
      ErrorEndsPrefix(texts, i + 1);
    } else {
      OneMoreChange(s, symbol, side, p.levels, r.value, persist);
    }
  }

  lemma OneMoreChange(s: SessionState, symbol: string, side: Side, levels: seq<Level>, l: Level, persist: bool)
    ensures AfterSide(s, symbol, side, levels + [l], persist)
         == Take(AfterSide(s, symbol, side, levels, persist),
                 Item(symbol, TakeChange(Change(side, l.price, l.size))), persist)
  {
    var n, acts := |levels|, AsActs(ChangesOn(side, levels + [l]));
    assert acts[..n + 1] == acts && acts[..n] == AsActs(ChangesOn(side, levels));
    TakeAllNext(s, symbol, acts, n, persist);
  }

  lemma {:induction false} ErrorEndsPrefix(texts: seq<LevelText>, n: nat)
    requires n <= |texts| && GoodPrefix(texts[..n]).error.Some?
    ensures GoodPrefix(texts) == GoodPrefix(texts[..n])
    decreases |texts|
  {
    if n == |texts| {
      assert texts[..n] == texts;
    } else {
      assert texts[..|texts| - 1][..n] == texts[..n];
      ErrorEndsPrefix(texts[..|texts| - 1], n);
    }
  }

  lemma TrimLast(s: SessionState, symbol: string, acts: seq<Act>, persist: bool)
    ensures TakeAll(s, ItemsFor(symbol, acts + [TrimTo(BOOK_DEPTH)]), persist)
         == Take(TakeAll(s, ItemsFor(symbol, acts), persist), Item(symbol, TrimTo(BOOK_DEPTH)), persist)
  {
    var all := acts + [TrimTo(BOOK_DEPTH)];
    assert all[..|acts|] == acts && all[..|acts| + 1] == all;
    TakeAllNext(s, symbol, all, |acts|, persist);
  }

  // ----- What a frame does ----------------------------------------------------------------

  /** The prefix is what parses, one for one, up to the first text that does not. */
  lemma {:induction false} GoodPrefixMeans(texts: seq<LevelText>)
    ensures EndsAtFirstBad(texts, GoodPrefix(texts))
  {
    if texts != [] {
      GoodPrefixMeans(texts[..|texts| - 1]);
      PrefixGoesOn(texts, GoodPrefix(texts[..|texts| - 1]), ParseText(texts[|texts| - 1]));
    }
  }

  ghost predicate EndsAtFirstBad(texts: seq<LevelText>, p: Prefix) {
    && |p.levels| <= |texts| && (p.error.None? <==> |p.levels| == |texts|)
    && (forall i :: 0 <= i < |p.levels| ==> ParseText(texts[i]) == Ok(p.levels[i]))
    && (p.error.Some? ==> ParseText(texts[|p.levels|]) == Err(p.error.value))
  }

  lemma PrefixGoesOn(texts: seq<LevelText>, p: Prefix, last: Result<Level, Fixed.Error>)
    requires texts != [] && EndsAtFirstBad(texts[..|texts| - 1], p) && last == ParseText(texts[|texts| - 1])
    ensures EndsAtFirstBad(texts, if p.error.Some? then p
                                  else if last.Err? then Prefix(p.levels, Some(last.error))
                                  else Prefix(p.levels + [last.value], None))
  {
    var init, next := texts[..|texts| - 1], p.levels + if last.Ok? then [last.value] else [];
    assert forall i :: 0 <= i < |init| ==> init[i] == texts[i];
    assert forall i :: 0 <= i < |p.levels| ==> next[i] == p.levels[i];
  }

  /** What an update frame applies: its bids and then its asks, up to the first level that is bad. */
  ghost predicate AppliedBy(d: BookFrame, cs: seq<Change>) {
    AreChanges(cs, GoodPrefix(d.bids).levels, if GoodPrefix(d.bids).error.None? then GoodPrefix(d.asks).levels else [])
  }

  /** An update of a seeded book applies its changes and writes them as rows, failing or not; the
      book is cut to ten levels a side only when every level parsed. */
  lemma UpdateFrame(s: SessionState, d: BookFrame, cs: seq<Change>)
    requires Lawful(FeedOf(s, d.symbol)) && FeedOf(s, d.symbol).book.synced && AppliedBy(d, cs)
    ensures RowsOfChanges(s, NextSession(s, d, false, true), d.symbol, cs)
    ensures var folded := FoldChanges(FeedOf(s, d.symbol).book.levels, cs);
            FeedOf(NextSession(s, d, false, true), d.symbol).book.levels ==
            if GoodPrefix(d.bids).error.Some? || GoodPrefix(d.asks).error.Some? then folded else TrimLevels(folded, 10)
  {
    var t := TakeAll(s, ItemsFor(d.symbol, AsActs(cs)), true);
    TakeChanges(s, d.symbol, cs, true);
    ChangeRows(s, d.symbol, cs);
    ThenTrimmed(s, d, cs, t);
  }

  /** Opening and trimming the book write no rows. */
  lemma ThenTrimmed(s: SessionState, d: BookFrame, cs: seq<Change>, t: SessionState)
    requires AppliedBy(d, cs) && t == TakeAll(s, ItemsFor(d.symbol, AsActs(cs)), true)
    ensures var next, n := NextSession(s, d, false, true), FeedOf(t, d.symbol).seqNo;
            && next.rows == t.rows && FeedOf(next, d.symbol).seqNo == n
            && FeedOf(next, d.symbol).book.levels ==
               if GoodPrefix(d.bids).error.Some? || GoodPrefix(d.asks).error.Some? then FeedOf(t, d.symbol).book.levels
               else TrimLevels(FeedOf(t, d.symbol).book.levels, 10)
  {
    AppliedAsActs(d, cs);
    TrimLast(s, d.symbol, AsActs(cs), true);
    assert Tag(d.symbol, []) == [];
  }

  lemma AppliedAsActs(d: BookFrame, cs: seq<Change>)
    requires AppliedBy(d, cs)
    ensures UpdateWork(d).acts == AsActs(cs)
    ensures UpdateWork(d).error.Some? <==> GoodPrefix(d.bids).error.Some? || GoodPrefix(d.asks).error.Some?
  {
    AreChangesOn(cs, GoodPrefix(d.bids).levels, if GoodPrefix(d.bids).error.None? then GoodPrefix(d.asks).levels else []);
  }

  /** A snapshot reseeds the book with its ten best levels a side, or, if any level of it is bad,
      leaves no trace but the book, opened. */
  lemma SnapshotFrame(s: SessionState, d: BookFrame)
    ensures var next, bids, asks := NextSession(s, d, true, true), ParseAll(d.bids, ParseText), ParseAll(d.asks, ParseText);
            if bids.Ok? && asks.Ok? then
              FeedOf(next, d.symbol).book.levels == TrimLevels(Levels(Load(bids.value), Load(asks.value)), 10)
            else next.rows == s.rows && forall i :: FeedOf(next, i) == FeedOf(s, i)
  {
    var bids, asks := ParseAll(d.bids, ParseText), ParseAll(d.asks, ParseText);
    if bids.Ok? && asks.Ok? {
      var a := TakeSnapshot(bids.value, asks.value);
      TrimLast(s, d.symbol, [a], true);
      TakeOne(s, d.symbol, a, true);
    } else {
      assert ItemsFor(d.symbol, []) == [];
    }
  }

  /** Why a frame fails: its bids, then its asks, and only then its checksum. */
  lemma FrameErrors(s: SessionState, d: BookFrame, isSnapshot: bool, prec: Option<Precision>, crc: string -> int)
    ensures var error := NextError(s, d, isSnapshot, prec, true, crc);
            match ParseAll(d.bids, ParseText)
            case Err(e) => error == Some(BadNumber(e))
            case Ok(_) =>
              match ParseAll(d.asks, ParseText)
              case Err(e) => error == Some(BadNumber(e))
              case Ok(_) => error == None || (prec.Some? && error == Some(ChecksumMismatch))
  {
    PrefixOfGood(d.bids);
    PrefixOfGood(d.asks);
  }
}
