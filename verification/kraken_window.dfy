/** Window refinement: trimming after every frame keeps the local book equal to the venue's ten
    best levels, although the venue never says which levels were pushed out. */
module KrakenWindow {
  import opened Norm
  import opened Engine
  import opened Views
  import opened Numbering
  import opened PersistedLog
  import opened Sessions
  import opened Wire
  import opened Checksum
  import opened Kraken

  ghost function SideOf(l: Levels, asks: bool): map<int, int> {
    if asks then l.asks else l.bids
  }

  ghost function Window(l: Levels, asks: bool): map<int, int> {
    Top(SideOf(l, asks), BOOK_DEPTH, !asks)
  }

  /** The size the last change to a level gives it, if any change mentions it. */
  ghost function FinalSize(cs: seq<Change>, asks: bool, price: int): Option<int> {
    if cs == [] then None
    else
      var c := cs[|cs| - 1];
      if (c.side == Sell) == asks && c.price == price then Some(c.size)
      else FinalSize(cs[..|cs| - 1], asks, price)
  }

  /** What a frame of changes has to say about one side for the venue's book to go from truth to
      truth': the new size of every level that changed inside, or entered, the window; zero for
      every windowed level that left the book. Of levels outside the new window but still in the
      book it may say anything, or nothing. */
  ghost predicate HonestSide(truth: Levels, truth': Levels, cs: seq<Change>, asks: bool) {
    var before, after, book := Window(truth, asks), Window(truth', asks), SideOf(truth', asks);
    && (forall p :: p in after && !(p in before && before[p] == after[p]) ==> FinalSize(cs, asks, p).Some?)
    && (forall p :: p in before && p !in book ==> FinalSize(cs, asks, p).Some?)
    && (forall p :: FinalSize(cs, asks, p).Some? ==>
          && (p in after ==> FinalSize(cs, asks, p).value == after[p])
          && (p !in book ==> FinalSize(cs, asks, p).value == 0))
  }

  ghost predicate Honest(truth: Levels, truth': Levels, cs: seq<Change>) {
    HonestSide(truth, truth', cs, false) && HonestSide(truth, truth', cs, true)
  }

  lemma {:induction false} FoldChangesLookup(l: Levels, cs: seq<Change>, asks: bool, p: int)
    ensures var before, after, z := SideOf(l, asks), SideOf(FoldChanges(l, cs), asks), FinalSize(cs, asks, p);
            && (z.None? ==> (p in after <==> p in before) && (p in after ==> after[p] == before[p]))
            && (z.Some? ==> (p in after <==> z.value != 0) && (p in after ==> after[p] == z.value))
  {
    if cs != [] {
      FoldChangesLookup(l, cs[..|cs| - 1], asks, p);
    }
  }

  /** No level of a venue's book has size zero. */
  lemma SideKeepsWindow(local: Levels, truth: Levels, truth': Levels, cs: seq<Change>, asks: bool)
    requires SideOf(local, asks) == Window(truth, asks)
    requires HonestSide(truth, truth', cs, asks) && NoZeroSizes(truth')
    ensures Window(FoldChanges(local, cs), asks) == Window(truth', asks)
  {
    var after, book := Window(truth', asks), SideOf(truth', asks);
    var folded := SideOf(FoldChanges(local, cs), asks);
    forall p | p in after
      ensures p in folded && folded[p] == book[p]
    {
      FoldChangesLookup(local, cs, asks, p);
    }
    forall p | p in folded
      ensures p in book
    {
      FoldChangesLookup(local, cs, asks, p);
    }
    SameWindow(folded, book, BOOK_DEPTH, !asks);
  }

  /** Apply-then-trim takes the venue's old window to its new one. */
  lemma FrameKeepsWindow(truth: Levels, truth': Levels, cs: seq<Change>)
    requires Honest(truth, truth', cs) && NoZeroSizes(truth')
    ensures TrimLevels(FoldChanges(TrimLevels(truth, BOOK_DEPTH), cs), BOOK_DEPTH) == TrimLevels(truth', BOOK_DEPTH)
  {
    var local := TrimLevels(truth, BOOK_DEPTH);
    SideKeepsWindow(local, truth, truth', cs, false);
    SideKeepsWindow(local, truth, truth', cs, true);
  }

  // ----- Whole sessions -------------------------------------------------------------------

  /** A frame that the connector accepted, and the venue's book of its symbol once it was sent. */
  datatype Delivered = Delivered(frame: BookFrame, isSnapshot: bool, truth: Levels)

  ghost function ItemsOf(f: Delivered): seq<Item> {
    ItemsFor(f.frame.symbol, FrameWork(f.frame, f.isSnapshot).acts)
  }

  /** The books after the frames; parsing is the only thing that decides what is applied. */
  ghost function SessionAfter(fs: seq<Delivered>): SessionState {
    if fs == [] then NEW_SESSION
    else NextSession(SessionAfter(fs[..|fs| - 1]), fs[|fs| - 1].frame, fs[|fs| - 1].isSnapshot, true)
  }

  /** The venue's book of symbol after the frames, once there has been a snapshot. */
  ghost function TruthOf(fs: seq<Delivered>, symbol: string): Option<Levels> {
    if fs == [] then None
    else
      var before, f := TruthOf(fs[..|fs| - 1], symbol), fs[|fs| - 1];
      if f.frame.symbol == symbol && (f.isSnapshot || before.Some?) then Some(f.truth) else before
  }

  ghost function ChangesOf(d: BookFrame): seq<Change> {
    ChangesOn(Buy, GoodPrefix(d.bids).levels) + ChangesOn(Sell, GoodPrefix(d.asks).levels)
  }

  /** Snapshots show the window; updates are honest about how it moved; everything parses. */
  ghost predicate HonestFrame(before: Option<Levels>, f: Delivered) {
    && NoZeroSizes(f.truth) && FrameWork(f.frame, f.isSnapshot).error.None?
    && (f.isSnapshot ==>
          forall bids, asks :: FrameWork(f.frame, true).acts[0] == TakeSnapshot(bids, asks) ==>
            TrimLevels(Levels(Load(bids), Load(asks)), BOOK_DEPTH) == TrimLevels(f.truth, BOOK_DEPTH))
    && (!f.isSnapshot && before.Some? ==> Honest(before.value, f.truth, ChangesOf(f.frame)))
  }

  ghost predicate HonestFrames(fs: seq<Delivered>) {
    fs != [] ==>
      && HonestFrames(fs[..|fs| - 1])
      && HonestFrame(TruthOf(fs[..|fs| - 1], fs[|fs| - 1].frame.symbol), fs[|fs| - 1])
  }

  ghost predicate ShowsWindow(f: Feed, truth: Option<Levels>) {
    && Lawful(f) && (f.book.synced <==> truth.Some?)
    && (truth.Some? ==> f.book.levels == TrimLevels(truth.value, BOOK_DEPTH))
  }

  /** A changes frame on a book that is not seeded yet leaves it so. */
  lemma {:induction false} UnseededStays(s: SessionState, symbol: string, acts: seq<Act>)
    requires Lawful(FeedOf(s, symbol)) && !FeedOf(s, symbol).book.synced
    requires forall a :: a in acts ==> !a.TakeSnapshot?
    ensures var f := FeedOf(TakeAll(s, ItemsFor(symbol, acts), true), symbol); Lawful(f) && !f.book.synced
  {
    if acts != [] {
      var n := |acts| - 1;
      UnseededStays(s, symbol, acts[..n]);
      assert acts[..n + 1] == acts;
      TakeAllNext(s, symbol, acts, n, true);
      PerformIsLawful(FeedOf(TakeAll(s, ItemsFor(symbol, acts[..n]), true), symbol), acts[n]);
    }
  }

  lemma SnapshotFrameStep(s: SessionState, f: Delivered, before: Option<Levels>)
    requires f.isSnapshot && HonestFrame(before, f) && Lawful(FeedOf(s, f.frame.symbol))
    ensures ShowsWindow(FeedOf(TakeAll(s, ItemsOf(f), true), f.frame.symbol), Some(f.truth))
  {
    var a := SnapshotWork(f.frame).acts[0];
    assert SnapshotWork(f.frame).acts == [a];
    SnapshotThenTrim(s, f.frame.symbol, a);
  }

  lemma SnapshotThenTrim(s: SessionState, symbol: string, a: Act)
    requires a.TakeSnapshot? && Lawful(FeedOf(s, symbol))
    ensures var f := FeedOf(TakeAll(s, ItemsFor(symbol, [a] + [TrimTo(BOOK_DEPTH)]), true), symbol);
            Lawful(f) && f.book.synced && f.book.levels == TrimLevels(Levels(Load(a.bids), Load(a.asks)), BOOK_DEPTH)
  {
    TrimLast(s, symbol, [a], true);
    TakeOne(s, symbol, a, true);
    PerformIsLawful(FeedOf(s, symbol), a);
    PerformIsLawful(Perform(FeedOf(s, symbol), a), TrimTo(BOOK_DEPTH));
  }

  lemma UpdateFrameStep(s: SessionState, f: Delivered, before: Levels)
    requires !f.isSnapshot && HonestFrame(Some(before), f)
    requires ShowsWindow(FeedOf(s, f.frame.symbol), Some(before))
    ensures ShowsWindow(FeedOf(TakeAll(s, ItemsOf(f), true), f.frame.symbol), Some(f.truth))
  {
    var cs, symbol := ChangesOf(f.frame), f.frame.symbol;
    TrimLast(s, symbol, AsActs(cs), true);
    TakeChanges(s, symbol, cs, true);
    PerformIsLawful(FeedOf(TakeAll(s, ItemsFor(symbol, AsActs(cs)), true), symbol), TrimTo(BOOK_DEPTH));
    FrameKeepsWindow(before, f.truth, cs);
  }

  lemma EarlyFrameStep(s: SessionState, f: Delivered)
    requires !f.isSnapshot && HonestFrame(None, f) && ShowsWindow(FeedOf(s, f.frame.symbol), None)
    ensures ShowsWindow(FeedOf(TakeAll(s, ItemsOf(f), true), f.frame.symbol), None)
  {
    UnseededStays(s, f.frame.symbol, FrameWork(f.frame, false).acts);
  }

  /** In every Kraken session, honest or not: seeded books are synced at the connector's own
      counter, with an empty buffer and no gap or resync ever counted. */
  lemma {:induction false} SessionsAreNumbered(fs: seq<Delivered>, symbol: string)
    ensures Lawful(FeedOf(SessionAfter(fs), symbol))
  {
    if fs != [] {
      var s, f := SessionAfter(fs[..|fs| - 1]), fs[|fs| - 1];
      SessionsAreNumbered(fs[..|fs| - 1], symbol);
      var acts := FrameWork(f.frame, f.isSnapshot).acts;
      if f.frame.symbol == symbol {
        TakeAllKeepsLawful(s, symbol, acts, true);
      } else {
        OthersUntouched(s, f.frame.symbol, acts, symbol, true);
      }
    }
  }

  /** After every frame of any session of honest frames, symbols interleaved at will, each seeded
      book is exactly the venue's ten best levels per side, synced at the connector's counter with
      nothing buffered. */
  lemma {:induction false} SessionShowsWindow(fs: seq<Delivered>, symbol: string)
    requires HonestFrames(fs)
    ensures ShowsWindow(FeedOf(SessionAfter(fs), symbol), TruthOf(fs, symbol))
  {
    if fs != [] {
      var init, f := fs[..|fs| - 1], fs[|fs| - 1];
      SessionShowsWindow(init, symbol);
      var s, before := SessionAfter(init), TruthOf(init, symbol);
      if f.frame.symbol != symbol {
        OthersUntouched(s, f.frame.symbol, FrameWork(f.frame, f.isSnapshot).acts, symbol, true);
      } else if f.isSnapshot {
        SnapshotFrameStep(s, f, before);
      } else if before.Some? {
        UpdateFrameStep(s, f, before.value);
      } else {
        EarlyFrameStep(s, f);
      }
    }
  }

  /** The venue's own texts of its ten best bids and asks, each list from the best level on. */
  ghost predicate VenueShows(truth: Levels, bidTexts: seq<LevelText>, askTexts: seq<LevelText>, prec: Precision) {
    exists bids, asks :: ShowsLists(truth, bidTexts, askTexts, prec, bids, asks)
  }

  ghost predicate ShowsLists(truth: Levels, bidTexts: seq<LevelText>, askTexts: seq<LevelText>, prec: Precision,
                             bids: seq<Level>, asks: seq<Level>) {
    && ListsBest(bids, truth.bids, 10, true) && ListsBest(asks, truth.asks, 10, false)
    && ShowLevels(bidTexts, bids, prec) && ShowLevels(askTexts, asks, prec)
  }

  /** The checksum over a window's book runs over the venue's texts, asks first. */
  lemma WindowSpellsTexts(truth: Levels, bidTexts: seq<LevelText>, askTexts: seq<LevelText>, prec: Precision)
    requires VenueShows(truth, bidTexts, askTexts, prec)
    ensures InputOf(TrimLevels(truth, 10), prec) == VenueString(askTexts) + VenueString(bidTexts)
  {
    var bids, asks :| ShowsLists(truth, bidTexts, askTexts, prec, bids, asks);
    TrimKeepsChecksumInput(truth, prec);
    DepthIsUnique(bids, truth.bids, 10, true);
    DepthIsUnique(asks, truth.asks, 10, false);
    InputSpellsTexts(bidTexts, askTexts, bids, asks, prec);
  }

  /** On an honest session the connector reports a mismatch exactly when the checksum in the frame is
      not the CRC of the venue's own texts, stripped: asks from the lowest price up, then bids from
      the highest down. */
  lemma HonestChecksumsMatch(fs: seq<Delivered>, symbol: string, prec: Precision, crc: string -> int, sum: int,
                             bidTexts: seq<LevelText>, askTexts: seq<LevelText>)
    requires HonestFrames(fs) && TruthOf(fs, symbol).Some?
    requires VenueShows(TruthOf(fs, symbol).value, bidTexts, askTexts, prec)
    ensures Mismatch(FeedOf(SessionAfter(fs), symbol).book.levels, Some(prec), sum, crc)
            <==> sum != crc(VenueString(askTexts) + VenueString(bidTexts))
  {
    SessionShowsWindow(fs, symbol);
    WindowSpellsTexts(TruthOf(fs, symbol).value, bidTexts, askTexts, prec);
  }

  /** The same for what the connector returns: an honest frame of a seeded book is refused exactly for
      a wrong checksum, and only once the pair's precision is known. */
  lemma HonestFrameRefusedIff(init: seq<Delivered>, f: Delivered, prec: Option<Precision>, crc: string -> int,
                              bidTexts: seq<LevelText>, askTexts: seq<LevelText>)
    requires HonestFrames(init + [f]) && TruthOf(init + [f], f.frame.symbol).Some?
    requires prec.Some? ==> VenueShows(f.truth, bidTexts, askTexts, prec.value)
    ensures NextError(SessionAfter(init), f.frame, f.isSnapshot, prec, true, crc)
         == if prec.Some? && f.frame.checksum != crc(VenueString(askTexts) + VenueString(bidTexts))
            then Some(ChecksumMismatch) else None
  {
    var fs := init + [f];
    assert fs[..|init|] == init;
    assert TruthOf(fs, f.frame.symbol) == Some(f.truth);
    if prec.Some? {
      HonestChecksumsMatch(fs, f.frame.symbol, prec.value, crc, f.frame.checksum, bidTexts, askTexts);
    }
  }

  // ----- The persisted rows ---------------------------------------------------------------

  /** Each frame's acts on one symbol. */
  ghost function FramesOf(fs: seq<Delivered>, symbol: string): seq<seq<Act>> {
    if fs == [] then []
    else
      var f := fs[|fs| - 1];
      FramesOf(fs[..|fs| - 1], symbol)
      + [if f.frame.symbol == symbol then FrameWork(f.frame, f.isSnapshot).acts else []]
  }

  ghost function SessionActs(fs: seq<Delivered>, symbol: string): seq<Act> {
    Frames(FramesOf(fs, symbol))
  }

  lemma WorkIsFrame(d: BookFrame, isSnapshot: bool)
    ensures FrameShaped(FrameWork(d, isSnapshot).acts)
  {
  }

  lemma {:induction false} FramesAreShaped(fs: seq<Delivered>, symbol: string)
    ensures forall f :: f in FramesOf(fs, symbol) ==> FrameShaped(f)
  {
    if fs != [] {
      FramesAreShaped(fs[..|fs| - 1], symbol);
      WorkIsFrame(fs[|fs| - 1].frame, fs[|fs| - 1].isSnapshot);
    }
  }

  lemma ActsNext(fs: seq<Delivered>, symbol: string)
    requires fs != []
    ensures var f := fs[|fs| - 1];
            SessionActs(fs, symbol)
            == Extended(SessionActs(fs[..|fs| - 1], symbol), FrameWork(f.frame, f.isSnapshot).acts, f.frame.symbol == symbol)
  {
    var init, f := fs[..|fs| - 1], fs[|fs| - 1];
    FramesNext(FramesOf(init, symbol),
               if f.frame.symbol == symbol then FrameWork(f.frame, f.isSnapshot).acts else []);
    assert SessionActs(init, symbol) + [] == SessionActs(init, symbol);
  }

  lemma NextTracks(fs: seq<Delivered>, symbol: string)
    requires fs != [] && Tracks(SessionAfter(fs[..|fs| - 1]), symbol, SessionActs(fs[..|fs| - 1], symbol))
    ensures Tracks(SessionAfter(fs), symbol, SessionActs(fs, symbol))
  {
    var init, f := fs[..|fs| - 1], fs[|fs| - 1];
    ActsNext(fs, symbol);
    FrameTracks(SessionAfter(init), symbol, SessionActs(init, symbol),
                f.frame.symbol, FrameWork(f.frame, f.isSnapshot).acts);
  }

  lemma {:induction false} SessionTracks(fs: seq<Delivered>, symbol: string)
    ensures Tracks(SessionAfter(fs), symbol, SessionActs(fs, symbol))
  {
    if fs != [] {
      SessionTracks(fs[..|fs| - 1], symbol);
      NextTracks(fs, symbol);
    }
  }

  /** After these frames, and after every frame before, the rows read back as the live book. */
  ghost predicate RowsAlwaysAgree(fs: seq<Delivered>, symbol: string) {
    RowsAgree(SessionAfter(fs), symbol) && (fs != [] ==> RowsAlwaysAgree(fs[..|fs| - 1], symbol))
  }

  lemma {:induction false} RowsFollowFrames(fs: seq<Delivered>, symbol: string)
    ensures RowsAlwaysAgree(fs, symbol) <==> AgreesAtFrames(FramesOf(fs, symbol))
  {
    SessionTracks(fs, symbol);
    RowsAgreeIffLogAgrees(SessionAfter(fs), symbol, SessionActs(fs, symbol));
    if fs != [] {
      RowsFollowFrames(fs[..|fs| - 1], symbol);
      var frames := FramesOf(fs, symbol);
      assert frames[..|frames| - 1] == FramesOf(fs[..|fs| - 1], symbol);
    }
  }

  /** Trims write no rows, so the rows a Kraken session persists for a symbol read back as its live
      book after every frame since the first snapshot, exactly when no frame leaves more than ten
      levels on a side for the trim to cut, and no empty snapshot has levels to clear. */
  lemma PersistedRowsReplay(fs: seq<Delivered>, symbol: string)
    ensures RowsAlwaysAgree(fs, symbol) <==>
            EmptiesFindNothing(SessionActs(fs, symbol)) && TrimsFindNothing(SessionActs(fs, symbol))
  {
    RowsFollowFrames(fs, symbol);
    FramesAreShaped(fs, symbol);
    FramesAgreeIff(FramesOf(fs, symbol));
  }
}
