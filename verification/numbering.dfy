/** Self-numbered feeds: a book and the counter its connector numbers everything with. All three
    connectors drive the engine this way; what differs is which acts they perform. */
module Numbering {
  import opened Norm
  import opened Engine
  import opened Replaying
  import opened Views

  datatype Feed = Feed(book: BookState, seqNo: nat)

  const NEW_FEED := Feed(NEW_BOOK, 0)

  /** What a connector does to one book. */
  datatype Act =
    | TakeSnapshot(bids: seq<Level>, asks: seq<Level>)
    | TakeChange(change: Change)
    | TrimTo(n: nat)

  function UpdateOf(c: Change, seqNo: nat): Update {
    Update(c.side, c.price, c.size, seqNo, false)
  }

  /** The replay half of ApplySnapshot is absent: SnapshotSupersedes shows it does nothing here. */
  ghost function Perform(f: Feed, a: Act): Feed {
    match a
    case TakeSnapshot(bids, asks) => Feed(Seed(f.book, Snapshot(bids, asks, f.seqNo + 1)), f.seqNo + 1)
    case TakeChange(c) => Feed(Apply(f.book, UpdateOf(c, f.seqNo + 1)), f.seqNo + 1)
    case TrimTo(n) => f.(book := f.book.(levels := TrimLevels(f.book.levels, n)))
  }

  ghost function RunFeed(acts: seq<Act>): Feed {
    if acts == [] then NEW_FEED else Perform(RunFeed(acts[..|acts| - 1]), acts[|acts| - 1])
  }

  ghost predicate EverSnapshot(acts: seq<Act>) {
    exists i :: 0 <= i < |acts| && acts[i].TakeSnapshot?
  }

  /** The counter never lags the book, and nothing buffered is newer than it. */
  ghost predicate Lawful(f: Feed) {
    && f.book.gaps == 0 && f.book.resyncs == 0
    && (forall u :: u in f.book.pending ==> u.seqNo <= f.seqNo)
    && |f.book.pending| <= MAX_PENDING
    && (f.book.synced ==> f.book.lastSeq == f.seqNo && f.book.pending == [])
    && (!f.book.synced ==> f.book.lastSeq == 0 && f.book.levels == EMPTY_LEVELS)
  }

  lemma PerformIsLawful(f: Feed, a: Act)
    requires Lawful(f)
    ensures Lawful(Perform(f, a))
    ensures Perform(f, a).book.synced <==> f.book.synced || a.TakeSnapshot?
  {
  }

  /** The snapshot takes a number above everything buffered, so whatever order the sort picks, the
      replay skips every buffered update. */
  lemma SnapshotSupersedes(f: Feed, bids: seq<Level>, asks: seq<Level>, order: seq<Update>)
    requires Lawful(f) && SortedPermutation(order, f.book.pending)
    ensures var s := Snapshot(bids, asks, f.seqNo + 1);
            ApplySnapshot(f.book, s, order) == Seed(f.book, s)
  {
    forall u | u in order
      ensures u.seqNo <= f.seqNo
    {
      assert u in multiset(f.book.pending);
    }
    ReplaySkipsOld(Seed(f.book, Snapshot(bids, asks, f.seqNo + 1)), order);
  }

  lemma {:induction false} EverSnapshotStep(acts: seq<Act>)
    requires acts != []
    ensures EverSnapshot(acts) <==> EverSnapshot(acts[..|acts| - 1]) || acts[|acts| - 1].TakeSnapshot?
  {
    var init := acts[..|acts| - 1];
    if EverSnapshot(init) {
      var i :| 0 <= i < |init| && init[i].TakeSnapshot?;
      assert acts[i].TakeSnapshot?;
    }
  }

  /** In every session: seeded means synced, at the counter, with an empty buffer and no gap or
      resync ever counted. */
  lemma {:induction false} SessionsAreLawful(acts: seq<Act>)
    ensures Lawful(RunFeed(acts))
    ensures RunFeed(acts).book.synced <==> EverSnapshot(acts)
  {
    if acts != [] {
      SessionsAreLawful(acts[..|acts| - 1]);
      PerformIsLawful(RunFeed(acts[..|acts| - 1]), acts[|acts| - 1]);
      EverSnapshotStep(acts);
    }
  }

  // ----- The levels, without numbers or buffers --------------------------------------------

  /** Act for act on plain levels: snapshots replace, changes set or clear, trims cut. */
  ghost function FoldActs(l: Levels, acts: seq<Act>): Levels {
    if acts == [] then l
    else
      var before := FoldActs(l, acts[..|acts| - 1]);
      match acts[|acts| - 1]
      case TakeSnapshot(bids, asks) => Levels(Load(bids), Load(asks))
      case TakeChange(c) => ApplyDelta(before, c.side, c.price, c.size)
      case TrimTo(n) => TrimLevels(before, n)
  }

  ghost function Intended(acts: seq<Act>): Levels {
    FoldActs(EMPTY_LEVELS, acts)
  }

  /** Once seeded, the engine holds exactly the fold of the acts; before, nothing. */
  lemma {:induction false} SessionLevels(acts: seq<Act>)
    ensures RunFeed(acts).book.levels == if EverSnapshot(acts) then Intended(acts) else EMPTY_LEVELS
  {
    if acts != [] {
      var init := acts[..|acts| - 1];
      SessionLevels(init);
      SessionsAreLawful(init);
      EverSnapshotStep(acts);
    }
  }

  lemma {:induction false} FoldActsAppend(l: Levels, a: seq<Act>, b: seq<Act>)
    ensures FoldActs(l, a + b) == FoldActs(FoldActs(l, a), b)
  {
    if b == [] {
      assert a + b == a;
    } else {
      var init := b[..|b| - 1];
      assert (a + b)[..|a + b| - 1] == a + init;
      FoldActsAppend(l, a, init);
    }
  }

  /** Everything before the last snapshot has no effect on the levels. */
  lemma LevelsSinceSnapshot(acts: seq<Act>, k: nat)
    requires k < |acts| && acts[k].TakeSnapshot?
    ensures RunFeed(acts).book.levels
         == FoldActs(Levels(Load(acts[k].bids), Load(acts[k].asks)), acts[k + 1..])
  {
    SessionLevels(acts);
    assert acts == acts[..k + 1] + acts[k + 1..];
    FoldActsAppend(EMPTY_LEVELS, acts[..k + 1], acts[k + 1..]);
    SnapshotReplaces(EMPTY_LEVELS, acts[..k + 1]);
  }

  lemma SnapshotReplaces(l: Levels, acts: seq<Act>)
    requires acts != [] && acts[|acts| - 1].TakeSnapshot?
    ensures FoldActs(l, acts) == Levels(Load(acts[|acts| - 1].bids), Load(acts[|acts| - 1].asks))
  {
  }

  // ----- Runs of plain changes -------------------------------------------------------------

  function FoldChanges(l: Levels, cs: seq<Change>): Levels {
    if cs == [] then l
    else var c := cs[|cs| - 1]; ApplyDelta(FoldChanges(l, cs[..|cs| - 1]), c.side, c.price, c.size)
  }

  function AsActs(cs: seq<Change>): seq<Act> {
    seq(|cs|, i requires 0 <= i < |cs| => TakeChange(cs[i]))
  }

  lemma {:induction false} FoldChangeActs(l: Levels, cs: seq<Change>)
    ensures FoldActs(l, AsActs(cs)) == FoldChanges(l, cs)
  {
    if cs != [] {
      assert AsActs(cs)[..|cs| - 1] == AsActs(cs[..|cs| - 1]);
      FoldChangeActs(l, cs[..|cs| - 1]);
    }
  }

  lemma AsActsAppend(a: seq<Change>, b: seq<Change>)
    ensures AsActs(a + b) == AsActs(a) + AsActs(b)
  {
  }

  /** Levels of one side, as changes to it. */
  function ChangesOn(side: Side, levels: seq<Level>): seq<Change> {
    seq(|levels|, i requires 0 <= i < |levels| => Change(side, levels[i].price, levels[i].size))
  }

  /** The bids and then the asks, as changes to their sides. */
  ghost predicate AreChanges(cs: seq<Change>, bids: seq<Level>, asks: seq<Level>) {
    && |cs| == |bids| + |asks|
    && (forall i :: 0 <= i < |bids| ==> cs[i] == Change(Buy, bids[i].price, bids[i].size))
    && (forall i :: 0 <= i < |asks| ==> cs[|bids| + i] == Change(Sell, asks[i].price, asks[i].size))
  }

  lemma AreChangesOn(cs: seq<Change>, bids: seq<Level>, asks: seq<Level>)
    requires AreChanges(cs, bids, asks)
    ensures cs == ChangesOn(Buy, bids) + ChangesOn(Sell, asks)
    ensures asks == [] ==> cs == ChangesOn(Buy, bids)
  {
  }
}
