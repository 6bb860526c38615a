/** The Coinbase connector: an unsequenced feed, numbered here and driven into the engine. */
module Coinbase {
  import opened Norm
  import opened Engine
  import opened Numbering
  import opened PersistedLog
  import opened Sessions
  import opened Wire
  import Fixed

  /** A frame's timestamp, as far as it can make the frame fail. */
  datatype Clock = NoTime | GoodTime | BadTime

  /** One decoded level2_batch frame. */
  datatype Level2 = Level2(
    kind: string,
    product: string,
    time: Clock,
    bids: seq<LevelText>,
    asks: seq<LevelText>,
    changes: seq<(string, string, string)>)

  datatype Frame =
    | Acknowledged
    | SnapshotFrame(symbol: string, bids: seq<Level>, asks: seq<Level>)
    | ChangesFrame(symbol: string, changes: seq<Change>)

  datatype FrameError = VenueError | UnknownKind | MissingProduct | BadTimestamp | BadSide | BadNumber(error: Fixed.Error)

  // ----- Parsing --------------------------------------------------------------------------

  function ParseChange(c: (string, string, string)): Result<Change, FrameError> {
    if c.0 != "buy" && c.0 != "sell" then Err(BadSide)
    else
      match ParseLevel(c.1, c.2)
      case Err(e) => Err(BadNumber(e))
      case Ok(l) => Ok(Change(if c.0 == "buy" then Buy else Sell, l.price, l.size))
  }

  function ParseLevel2(m: Level2): Result<Frame, FrameError> {
    if m.kind == "snapshot" then
      if m.product == "" then Err(MissingProduct)
      else
        match ParseAll(m.bids, ParseText)
        case Err(e) => Err(BadNumber(e))
        case Ok(bids) =>
          match ParseAll(m.asks, ParseText)
          case Err(e) => Err(BadNumber(e))
          case Ok(asks) => Ok(SnapshotFrame(m.product, bids, asks))
    else if m.kind == "l2update" then
      if m.product == "" then Err(MissingProduct)
      else if m.time == BadTime then Err(BadTimestamp)
      else
        match ParseAll(m.changes, ParseChange)
        case Err(e) => Err(e)
        case Ok(changes) => Ok(ChangesFrame(m.product, changes))
    else if m.kind == "subscriptions" then Ok(Acknowledged)
    else if m.kind == "error" then Err(VenueError)
    else Err(UnknownKind)
  }

  /** A change names its book side directly, and carries two numerals at eight decimals. */
  ghost predicate ChangeReads(text: (string, string, string), c: Change) {
    && (c.side == Buy || c.side == Sell) && text.0 == (if c.side == Buy then "buy" else "sell")
    && Fixed.Parse(text.1, 8) == Ok(c.price) && Fixed.Parse(text.2, 8) == Ok(c.size)
  }

  ghost predicate LevelReads(text: LevelText, l: Level) {
    Fixed.Parse(text.0, 8) == Ok(l.price) && Fixed.Parse(text.1, 8) == Ok(l.size)
  }

  ghost predicate AllRead<T, U>(texts: seq<T>, us: seq<U>, means: (T, U) -> bool) {
    |us| == |texts| && forall i :: 0 <= i < |texts| ==> means(texts[i], us[i])
  }

  lemma LevelsMean(texts: seq<LevelText>, levels: seq<Level>)
    ensures ParseAll(texts, ParseText) == Ok(levels) <==> AllRead(texts, levels, LevelReads)
  {
    ParseAllIsPointwise(texts, ParseText, levels);
    assert forall t, l :: ParseText(t) == Ok(l) <==> LevelReads(t, l);
  }

  /** Exactly which frames are updates, and of what. */
  lemma ChangesFrameMeans(m: Level2, symbol: string, changes: seq<Change>)
    ensures ParseLevel2(m) == Ok(ChangesFrame(symbol, changes)) <==>
            && m.kind == "l2update" && m.product == symbol != "" && m.time != BadTime
            && AllRead(m.changes, changes, ChangeReads)
  {
    ParseAllIsPointwise(m.changes, ParseChange, changes);
    assert forall t, c :: ParseChange(t) == Ok(c) <==> ChangeReads(t, c);
  }

  /** Exactly which frames are snapshots, and of what; a snapshot's time is never looked at. */
  lemma SnapshotFrameMeans(m: Level2, symbol: string, bids: seq<Level>, asks: seq<Level>)
    ensures ParseLevel2(m) == Ok(SnapshotFrame(symbol, bids, asks)) <==>
            && m.kind == "snapshot" && m.product == symbol != ""
            && AllRead(m.bids, bids, LevelReads) && AllRead(m.asks, asks, LevelReads)
  {
    LevelsMean(m.bids, bids);
    LevelsMean(m.asks, asks);
  }

  lemma {:induction false} ChangesKnowTheirKind(cs: seq<(string, string, string)>)
    ensures ParseAll(cs, ParseChange) != Err(VenueError) && ParseAll(cs, ParseChange) != Err(UnknownKind)
  {
    if cs != [] {
      ChangesKnowTheirKind(cs[..|cs| - 1]);
    }
  }

  /** The other two kinds of answer: the venue's refusal and its acknowledgement. */
  lemma OtherFramesMean(m: Level2)
    ensures ParseLevel2(m) == Err(VenueError) <==> m.kind == "error"
    ensures ParseLevel2(m) == Ok(Acknowledged) <==> m.kind == "subscriptions"
    ensures ParseLevel2(m) == Err(UnknownKind) <==> m.kind !in {"snapshot", "l2update", "subscriptions", "error"}
  {
    ChangesKnowTheirKind(m.changes);
  }

  method ReadChanges(cs: seq<(string, string, string)>) returns (r: Result<seq<Change>, FrameError>)
    ensures r == ParseAll(cs, ParseChange)
  {
    var ups := [];
    for i := 0 to |cs|
      invariant ParseAll(cs[..i], ParseChange) == Ok(ups)
    {
      assert cs[..i + 1][..i] == cs[..i];
      if cs[i].0 != "buy" && cs[i].0 != "sell" {
        FirstErrorWins(cs, ParseChange, i);
        return Err(BadSide);
      }
      var l := ReadLevel(cs[i].1, cs[i].2);
      if l.Err? {
        FirstErrorWins(cs, ParseChange, i);
        return Err(BadNumber(l.error));
      }
      ups := ups + [Change(if cs[i].0 == "buy" then Buy else Sell, l.value.price, l.value.size)];
    }
    assert cs[..|cs|] == cs;
    return Ok(ups);
  }

  // ----- What a frame does ----------------------------------------------------------------

  function FrameItems(f: Frame): seq<Item> {
    match f
    case Acknowledged => []
    case SnapshotFrame(symbol, bids, asks) => ItemsFor(symbol, [TakeSnapshot(bids, asks)])
    case ChangesFrame(symbol, changes) => ItemsFor(symbol, AsActs(changes))
  }

  /** A frame that does not parse is logged and skipped. */
  function WireItems(m: Level2): seq<Item> {
    match ParseLevel2(m)
    case Ok(f) => FrameItems(f)
    case Err(_) => []
  }

  function SessionItems(ms: seq<Level2>): seq<Item> {
    FlatMap(ms, WireItems)
  }

  class Connector {
    const table: BookTable

    constructor (persist: bool)
      ensures table.Valid() && table.State() == NEW_SESSION && table.persist == persist
    {
      table := new BookTable(persist);
    }

    /** Handles one frame of the session; a venue error ends it. */
    method Receive(m: Level2) returns (ended: bool)
      requires table.Valid()
      modifies table.repr
      ensures table.Valid() && fresh(table.repr - old(table.repr))
      ensures table.State() == TakeAll(old(table.State()), WireItems(m), table.persist)
      ensures ended <==> m.kind == "error"
      ensures ended <==> ParseLevel2(m) == Err(VenueError)
    {
      OtherFramesMean(m);
      ended := false;
      if m.kind == "snapshot" {
        if m.product != "" {
          var bids := ReadLevels(m.bids);
          if bids.Ok? {
            var asks := ReadLevels(m.asks);
            if asks.Ok? {
              DispatchSnapshot(m.product, bids.value, asks.value);
            }
          }
        }
      } else if m.kind == "l2update" {
        if m.product != "" && m.time != BadTime {
          var changes := ReadChanges(m.changes);
          if changes.Ok? {
            DispatchChanges(m.product, changes.value);
          }
        }
      } else if m.kind == "error" {
        ended := true;
      }
    }

    method DispatchSnapshot(symbol: string, bids: seq<Level>, asks: seq<Level>)
      requires table.Valid()
      modifies table.repr
      ensures table.Valid() && fresh(table.repr - old(table.repr))
      ensures table.State() == TakeAll(old(table.State()), ItemsFor(symbol, [TakeSnapshot(bids, asks)]), table.persist)
    {
      ghost var s := table.State();
      table.OpenBook(symbol);
      table.Snapshot(symbol, bids, asks);
      TakeOne(s, symbol, TakeSnapshot(bids, asks), table.persist);
      TakeOpen(s, Item(symbol, TakeSnapshot(bids, asks)), table.persist);
    }

    /** No changes, no book: the book is only opened for a frame that has some. */
    method DispatchChanges(symbol: string, changes: seq<Change>)
      requires table.Valid()
      modifies table.repr
      ensures table.Valid() && fresh(table.repr - old(table.repr))
      ensures table.State() == TakeAll(old(table.State()), ItemsFor(symbol, AsActs(changes)), table.persist)
    {
      if |changes| == 0 {
        return;
      }
      ghost var s := table.State();
      table.OpenBook(symbol);
      table.Changes(symbol, changes);
      OpenCommutes(s, symbol, AsActs(changes), table.persist);
    }
  }

  // ----- The session ----------------------------------------------------------------------

  function WireChanges(m: Level2, symbol: string): seq<Change> {
    match ParseLevel2(m)
    case Ok(ChangesFrame(s, changes)) => (if s == symbol then changes else [])
    case _ => []
  }

  /** Every change to symbol in the frames, in order. */
  function ChangesTo(ms: seq<Level2>, symbol: string): seq<Change> {
    if ms == [] then [] else ChangesTo(ms[..|ms| - 1], symbol) + WireChanges(ms[|ms| - 1], symbol)
  }

  predicate SnapshotsOf(m: Level2, symbol: string) {
    var r := ParseLevel2(m);
    r.Ok? && r.value.SnapshotFrame? && r.value.symbol == symbol
  }

  lemma WireActs(m: Level2, symbol: string)
    ensures ActsOf(WireItems(m), symbol)
         == if SnapshotsOf(m, symbol) then [TakeSnapshot(ParseLevel2(m).value.bids, ParseLevel2(m).value.asks)]
            else AsActs(WireChanges(m, symbol))
  {
    match ParseLevel2(m)
    case Ok(ChangesFrame(s, changes)) => ActsOfItemsFor(s, AsActs(changes), symbol);
    case Ok(SnapshotFrame(s, bids, asks)) => ActsOfItemsFor(s, [TakeSnapshot(bids, asks)], symbol);
    case _ =>
  }

  /** Without snapshots, a symbol's acts are its changes. */
  lemma {:induction false} ActsAreChanges(ms: seq<Level2>, symbol: string)
    requires forall m :: m in ms ==> !SnapshotsOf(m, symbol)
    ensures ActsOf(SessionItems(ms), symbol) == AsActs(ChangesTo(ms, symbol))
  {
    if ms != [] {
      var init, m := ms[..|ms| - 1], ms[|ms| - 1];
      ActsAreChanges(init, symbol);
      ActsOfAppend(SessionItems(init), WireItems(m), symbol);
      assert m in ms;
      WireActs(m, symbol);
      AsActsAppend(ChangesTo(init, symbol), WireChanges(m, symbol));
    }
  }

  /** The acts of a session around its last snapshot of a symbol. */
  lemma ActsAroundSnapshot(ms: seq<Level2>, symbol: string, k: nat)
    requires k < |ms| && SnapshotsOf(ms[k], symbol)
    requires forall m :: m in ms[k + 1..] ==> !SnapshotsOf(m, symbol)
    ensures var f := ParseLevel2(ms[k]).value;
            ActsOf(SessionItems(ms), symbol)
            == ActsOf(SessionItems(ms[..k]), symbol) + [TakeSnapshot(f.bids, f.asks)] + AsActs(ChangesTo(ms[k + 1..], symbol))
  {
    var before, after, f := ms[..k], ms[k + 1..], ParseLevel2(ms[k]).value;
    assert ms == (before + [ms[k]]) + after;
    FlatMapAppend(before + [ms[k]], after, WireItems);
    FlatMapAppend(before, [ms[k]], WireItems);
    assert [ms[k]][..0] == [];
    assert SessionItems([ms[k]]) == WireItems(ms[k]);
    ActsOfAppend(SessionItems(before) + WireItems(ms[k]), SessionItems(after), symbol);
    ActsOfAppend(SessionItems(before), WireItems(ms[k]), symbol);
    WireActs(ms[k], symbol);
    ActsAreChanges(after, symbol);
  }

  /** In every Coinbase session, a book that has had a snapshot is synced at the connector's own
      counter, has an empty buffer and no gap or resync, and holds its last snapshot folded with
      every later change: updates buffered before the snapshot have no effect. */
  lemma BookIsSnapshotPlusChanges(ms: seq<Level2>, symbol: string, k: nat)
    requires k < |ms| && SnapshotsOf(ms[k], symbol)
    requires forall m :: m in ms[k + 1..] ==> !SnapshotsOf(m, symbol)
    ensures var f, snap := FeedOf(TakeAll(NEW_SESSION, SessionItems(ms), true), symbol), ParseLevel2(ms[k]).value;
            && f.book.synced && f.book.lastSeq == f.seqNo && f.book.pending == []
            && f.book.gaps == 0 && f.book.resyncs == 0
            && f.book.levels == FoldChanges(Levels(Load(snap.bids), Load(snap.asks)), ChangesTo(ms[k + 1..], symbol))
  {
    var acts, before := ActsOf(SessionItems(ms), symbol), ActsOf(SessionItems(ms[..k]), symbol);
    var snap, later := ParseLevel2(ms[k]).value, AsActs(ChangesTo(ms[k + 1..], symbol));
    ActsAroundSnapshot(ms, symbol, k);
    SessionsSplit(SessionItems(ms), symbol);
    SessionsAreLawful(acts);
    assert acts[|before|] == TakeSnapshot(snap.bids, snap.asks) && acts[|before| + 1..] == later;
    LevelsSinceSnapshot(acts, |before|);
    FoldChangeActs(Levels(Load(snap.bids), Load(snap.asks)), ChangesTo(ms[k + 1..], symbol));
  }

  // ----- The persisted rows ---------------------------------------------------------------

  ghost function Session(ms: seq<Level2>): SessionState {
    TakeAll(NEW_SESSION, SessionItems(ms), true)
  }

  /** Each frame's acts on one symbol. */
  ghost function FramesOf(ms: seq<Level2>, symbol: string): seq<seq<Act>> {
    if ms == [] then [] else FramesOf(ms[..|ms| - 1], symbol) + [ActsOf(WireItems(ms[|ms| - 1]), symbol)]
  }

  /** After these frames, and after every frame before, the rows read back as the live book. */
  ghost predicate RowsAlwaysAgree(ms: seq<Level2>, symbol: string) {
    RowsAgree(Session(ms), symbol) && (ms != [] ==> RowsAlwaysAgree(ms[..|ms| - 1], symbol))
  }

  lemma {:induction false} FramesAreActs(ms: seq<Level2>, symbol: string)
    ensures Frames(FramesOf(ms, symbol)) == ActsOf(SessionItems(ms), symbol)
  {
    if ms != [] {
      var init, m := ms[..|ms| - 1], ms[|ms| - 1];
      FramesAreActs(init, symbol);
      ActsOfAppend(SessionItems(init), WireItems(m), symbol);
      FramesNext(FramesOf(init, symbol), ActsOf(WireItems(m), symbol));
    }
  }

  lemma WireIsFrame(m: Level2, symbol: string)
    ensures FrameShaped(ActsOf(WireItems(m), symbol)) && NoTrims(ActsOf(WireItems(m), symbol))
  {
    WireActs(m, symbol);
  }

  lemma {:induction false} FramesAreShaped(ms: seq<Level2>, symbol: string)
    ensures forall f :: f in FramesOf(ms, symbol) ==> FrameShaped(f) && NoTrims(f)
  {
    if ms != [] {
      FramesAreShaped(ms[..|ms| - 1], symbol);
      WireIsFrame(ms[|ms| - 1], symbol);
    }
  }

  lemma {:induction false} RowsFollowFrames(ms: seq<Level2>, symbol: string)
    ensures RowsAlwaysAgree(ms, symbol) <==> AgreesAtFrames(FramesOf(ms, symbol))
  {
    FramesAreActs(ms, symbol);
    SessionsSplit(SessionItems(ms), symbol);
    RowsAgreeIffLogAgrees(Session(ms), symbol, ActsOf(SessionItems(ms), symbol));
    if ms != [] {
      RowsFollowFrames(ms[..|ms| - 1], symbol);
      var fs := FramesOf(ms, symbol);
      assert fs[..|fs| - 1] == FramesOf(ms[..|ms| - 1], symbol);
    }
  }

  /** The rows a session persists for a symbol read back as its live book after every frame since
      the first snapshot, exactly when no empty snapshot has levels to clear. */
  lemma PersistedRowsReplay(ms: seq<Level2>, symbol: string)
    ensures RowsAlwaysAgree(ms, symbol) <==> EmptiesFindNothing(ActsOf(SessionItems(ms), symbol))
  {
    RowsFollowFrames(ms, symbol);
    FramesAreActs(ms, symbol);
    FramesAreShaped(ms, symbol);
    FramesAgreeIff(FramesOf(ms, symbol));
    FramesWithoutTrims(FramesOf(ms, symbol));
  }
}
