/** The rows a connector hands to persistence, and reading them back into a book. */
module PersistedLog {
  import opened Norm
  import opened Engine
  import opened Numbering
  import opened Views

  function LevelRows(levels: seq<Level>, side: Side, seqNo: nat): seq<Update> {
    seq(|levels|, i requires 0 <= i < |levels| => Update(side, levels[i].price, levels[i].size, seqNo, true))
  }

  /** Bids as Buy, then asks as Sell, every level, zero sizes included. */
  function SnapshotRows(s: Snapshot): seq<Update> {
    LevelRows(s.bids, Buy, s.seqNo) + LevelRows(s.asks, Sell, s.seqNo)
  }

  method EmitSnapshot(s: Snapshot) returns (rows: seq<Update>)
    ensures rows == SnapshotRows(s)
    ensures |rows| == |s.bids| + |s.asks|
    ensures forall i :: 0 <= i < |s.bids| ==> rows[i] == Update(Buy, s.bids[i].price, s.bids[i].size, s.seqNo, true)
    ensures forall i :: 0 <= i < |s.asks| ==>
              rows[|s.bids| + i] == Update(Sell, s.asks[i].price, s.asks[i].size, s.seqNo, true)
  {
    rows := [];
    for i := 0 to |s.bids|
      invariant rows == LevelRows(s.bids, Buy, s.seqNo)[..i]
    {
      rows := rows + [Update(Buy, s.bids[i].price, s.bids[i].size, s.seqNo, true)];
    }
    for i := 0 to |s.asks|
      invariant rows == LevelRows(s.bids, Buy, s.seqNo) + LevelRows(s.asks, Sell, s.seqNo)[..i]
    {
      rows := rows + [Update(Sell, s.asks[i].price, s.asks[i].size, s.seqNo, true)];
    }
  }

  /** The rows one act emits when the counter stands at seqNo. */
  function ActRows(seqNo: nat, a: Act): seq<Update> {
    match a
    case TakeSnapshot(bids, asks) => SnapshotRows(Snapshot(bids, asks, seqNo + 1))
    case TakeChange(c) => [UpdateOf(c, seqNo + 1)]
    case TrimTo(_) => []
  }

  ghost function Log(acts: seq<Act>): seq<Update> {
    if acts == [] then []
    else
      var init := acts[..|acts| - 1];
      Log(init) + ActRows(RunFeed(init).seqNo, acts[|acts| - 1])
  }

  /** What one act's rows say, under the next number. */
  lemma ActRowsMean(seqNo: nat, a: Act)
    ensures forall row :: row in ActRows(seqNo, a) ==> row.seqNo == seqNo + 1 && (row.isSnapshot <==> a.TakeSnapshot?)
    ensures a.TakeChange? ==>
              ActRows(seqNo, a) == [Update(a.change.side, a.change.price, a.change.size, seqNo + 1, false)]
    ensures a.TakeSnapshot? ==> |ActRows(seqNo, a)| == |a.bids| + |a.asks|
    ensures a.TrimTo? ==> ActRows(seqNo, a) == []
  {
  }

  function CountNumbered(acts: seq<Act>): nat {
    if acts == [] then 0
    else CountNumbered(acts[..|acts| - 1]) + if acts[|acts| - 1].TrimTo? then 0 else 1
  }

  /** Snapshots and changes are numbered 1, 2, ... without holes, and the rows of a session bear
      those numbers in order; only the rows of one snapshot share a number. */
  lemma {:induction false} LogIsNumbered(acts: seq<Act>)
    ensures RunFeed(acts).seqNo == CountNumbered(acts)
    ensures forall i :: 0 <= i < |Log(acts)| ==> 1 <= Log(acts)[i].seqNo <= CountNumbered(acts)
    ensures forall i, j :: 0 <= i < j < |Log(acts)| ==>
              Log(acts)[i].seqNo < Log(acts)[j].seqNo
              || (Log(acts)[i].seqNo == Log(acts)[j].seqNo && Log(acts)[i].isSnapshot && Log(acts)[j].isSnapshot)
  {
    if acts != [] {
      var init, a := acts[..|acts| - 1], acts[|acts| - 1];
      LogIsNumbered(init);
      var n := RunFeed(init).seqNo;
      ActRowsMean(n, a);
      RowsInOrder(Log(init), ActRows(n, a), n);
    }
  }

  lemma RowsInOrder(a: seq<Update>, b: seq<Update>, n: nat)
    requires forall i :: 0 <= i < |a| ==> 1 <= a[i].seqNo <= n
    requires forall i, j :: 0 <= i < j < |a| ==>
               a[i].seqNo < a[j].seqNo || (a[i].seqNo == a[j].seqNo && a[i].isSnapshot && a[j].isSnapshot)
    requires forall row :: row in b ==> row.seqNo == n + 1
    requires |b| <= 1 || forall row :: row in b ==> row.isSnapshot
    ensures forall i :: 0 <= i < |a + b| ==> 1 <= (a + b)[i].seqNo <= n + if b == [] then 0 else 1
    ensures forall i, j :: 0 <= i < j < |a + b| ==>
              (a + b)[i].seqNo < (a + b)[j].seqNo
              || ((a + b)[i].seqNo == (a + b)[j].seqNo && (a + b)[i].isSnapshot && (a + b)[j].isSnapshot)
  {
    forall i | |a| <= i < |a + b|
      ensures (a + b)[i] in b
    {
      assert (a + b)[i] == b[i - |a|];
    }
  }

  // ----- Reading back ---------------------------------------------------------------------

  /** The book read so far, and the number of the snapshot being read. */
  datatype Reader = Reader(levels: Levels, snapshot: Option<nat>)

  const NEW_READER := Reader(EMPTY_LEVELS, None)

  /** Snapshot rows that share a number are one snapshot: the first of them resets the book. */
  function ReadRow(r: Reader, row: Update): Reader {
    if row.isSnapshot then
      var before := if r.snapshot == Some(row.seqNo) then r.levels else EMPTY_LEVELS;
      Reader(if row.size == 0 then before else ApplyDelta(before, row.side, row.price, row.size), Some(row.seqNo))
    else
      r.(levels := ApplyDelta(r.levels, row.side, row.price, row.size))
  }

  function ReadRows(r: Reader, rows: seq<Update>): Reader {
    if rows == [] then r else ReadRow(ReadRows(r, rows[..|rows| - 1]), rows[|rows| - 1])
  }

  ghost function ReadBack(acts: seq<Act>): Levels {
    ReadRows(NEW_READER, Log(acts)).levels
  }

  lemma {:induction false} ReadRowsAppend(r: Reader, a: seq<Update>, b: seq<Update>)
    ensures ReadRows(r, a + b) == ReadRows(ReadRows(r, a), b)
  {
    if b == [] {
      assert a + b == a;
    } else {
      var init := b[..|b| - 1];
      assert (a + b)[..|a + b| - 1] == a + init;
      ReadRowsAppend(r, a, init);
    }
  }

  ghost predicate ReadingFresh(r: Reader, seqNo: nat) {
    r.snapshot.Some? ==> r.snapshot.value < seqNo
  }

  lemma {:induction false} ReadBids(r: Reader, bids: seq<Level>, seqNo: nat)
    requires ReadingFresh(r, seqNo)
    ensures ReadRows(r, LevelRows(bids, Buy, seqNo))
         == if bids == [] then r else Reader(Levels(Load(bids), map[]), Some(seqNo))
  {
    if bids != [] {
      var init := bids[..|bids| - 1];
      ReadBids(r, init, seqNo);
      assert LevelRows(bids, Buy, seqNo)[..|bids| - 1] == LevelRows(init, Buy, seqNo);
    }
  }

  lemma {:induction false} ReadAsks(r: Reader, bids: seq<Level>, asks: seq<Level>, seqNo: nat)
    requires r == Reader(Levels(Load(bids), map[]), Some(seqNo)) || (bids == [] && ReadingFresh(r, seqNo))
    ensures ReadRows(r, LevelRows(asks, Sell, seqNo))
         == if asks == [] then r else Reader(Levels(Load(bids), Load(asks)), Some(seqNo))
  {
    if asks != [] {
      var init := asks[..|asks| - 1];
      ReadAsks(r, bids, init, seqNo);
      assert LevelRows(asks, Sell, seqNo)[..|asks| - 1] == LevelRows(init, Sell, seqNo);
    }
  }

  /** A snapshot reads back as itself, unless it had no levels to write. */
  lemma ReadSnapshot(r: Reader, s: Snapshot)
    requires ReadingFresh(r, s.seqNo)
    ensures ReadRows(r, SnapshotRows(s))
         == if s.bids == [] && s.asks == [] then r else Reader(LoadSnapshot(s), Some(s.seqNo))
  {
    ReadBids(r, s.bids, s.seqNo);
    ReadRowsAppend(r, LevelRows(s.bids, Buy, s.seqNo), LevelRows(s.asks, Sell, s.seqNo));
    ReadAsks(ReadRows(r, LevelRows(s.bids, Buy, s.seqNo)), s.bids, s.asks, s.seqNo);
  }

  predicate EmptySnapshot(a: Act) {
    a.TakeSnapshot? && a.bids == [] && a.asks == []
  }

  /** Acts that leave no trace in the rows. */
  predicate LeavesNoRows(a: Act) {
    EmptySnapshot(a) || a.TrimTo?
  }

  /** One act's rows move the reader as the act moves the levels, except that empty snapshots and
      trims leave no trace. */
  lemma ReadAct(acts: seq<Act>)
    requires acts != []
    ensures var init, a := acts[..|acts| - 1], acts[|acts| - 1];
            ReadBack(acts) == if LeavesNoRows(a) then ReadBack(init) else FoldActs(ReadBack(init), [a])
  {
    var init, a := acts[..|acts| - 1], acts[|acts| - 1];
    ReaderIsBehind(init);
    var r, n := ReadRows(NEW_READER, Log(init)), RunFeed(init).seqNo;
    ReadRowsAppend(NEW_READER, Log(init), ActRows(n, a));
    match a
    case TakeSnapshot(bids, asks) => ReadSnapshot(r, Snapshot(bids, asks, n + 1));
    case TakeChange(c) => assert [UpdateOf(c, n + 1)][..0] == [];
    case TrimTo(_) =>
  }

  lemma {:induction false} ReaderIsBehind(acts: seq<Act>)
    ensures ReadingFresh(ReadRows(NEW_READER, Log(acts)), RunFeed(acts).seqNo + 1)
  {
    if acts != [] {
      var init, a := acts[..|acts| - 1], acts[|acts| - 1];
      ReaderIsBehind(init);
      var r, n := ReadRows(NEW_READER, Log(init)), RunFeed(init).seqNo;
      ReadRowsAppend(NEW_READER, Log(init), ActRows(n, a));
      match a
      case TakeSnapshot(bids, asks) => ReadSnapshot(r, Snapshot(bids, asks, n + 1));
      case TakeChange(c) => assert [UpdateOf(c, n + 1)][..0] == [];
      case TrimTo(_) =>
    }
  }

  // ----- The log against the live book ----------------------------------------------------

  ghost function Live(acts: seq<Act>): Levels {
    RunFeed(acts).book.levels
  }

  /** Once there has been a snapshot, the rows read back as the live book. */
  ghost predicate LogAgrees(acts: seq<Act>) {
    EverSnapshot(acts) ==> ReadBack(acts) == Live(acts)
  }

  /** The rows agree after these acts, and did after every act before. */
  ghost predicate LogAlwaysAgrees(acts: seq<Act>) {
    LogAgrees(acts) && (acts != [] ==> LogAlwaysAgrees(acts[..|acts| - 1]))
  }

  function ChangesIn(acts: seq<Act>): seq<Change> {
    if acts == [] then []
    else
      var rest, a := ChangesIn(acts[..|acts| - 1]), acts[|acts| - 1];
      if a.TakeChange? then rest + [a.change] else rest
  }

  /** What a snapshot without levels has to clear: the live book, or, before any snapshot, the
      levels that the changes so far have set in the rows. */
  ghost function Outstanding(acts: seq<Act>): Levels {
    if EverSnapshot(acts) then Live(acts) else FoldChanges(EMPTY_LEVELS, ChangesIn(acts))
  }

  predicate Fits(l: Levels, n: nat) {
    |l.bids| <= n && |l.asks| <= n
  }

  /** An act after acts costs the rows nothing: an empty snapshot meets nothing to clear, and a trim
      of a seeded book meets no side with more than n levels. */
  ghost predicate Traceless(acts: seq<Act>, a: Act) {
    && (EmptySnapshot(a) ==> Outstanding(acts) == EMPTY_LEVELS)
    && (a.TrimTo? && EverSnapshot(acts) ==> Fits(Live(acts), a.n))
  }

  ghost predicate AllTraceless(acts: seq<Act>) {
    forall i :: 0 <= i < |acts| ==> Traceless(acts[..i], acts[i])
  }

  ghost predicate NoTrims(acts: seq<Act>) {
    forall a :: a in acts ==> !a.TrimTo?
  }

  /** Every snapshot without levels arrives when there is nothing to clear. */
  ghost predicate EmptiesFindNothing(acts: seq<Act>) {
    forall i :: 0 <= i < |acts| && EmptySnapshot(acts[i]) ==> Outstanding(acts[..i]) == EMPTY_LEVELS
  }

  /** Every trim of a seeded book finds at most n levels a side. */
  ghost predicate TrimsFindNothing(acts: seq<Act>) {
    forall i :: 0 <= i < |acts| && acts[i].TrimTo? && EverSnapshot(acts[..i]) ==> Fits(Live(acts[..i]), acts[i].n)
  }

  lemma LiveStep(acts: seq<Act>, a: Act)
    requires EverSnapshot(acts) || a.TakeSnapshot?
    ensures Live(acts + [a]) == FoldActs(Live(acts), [a]) && EverSnapshot(acts + [a])
  {
    var all := acts + [a];
    assert all[..|acts|] == acts && [a][..0] == [];
    EverSnapshotStep(all);
    SessionLevels(all);
    SessionLevels(acts);
  }

  /** Before any snapshot the rows hold the fold of the changes; trims leave no rows. */
  lemma {:induction false} ReadBackUnseeded(acts: seq<Act>)
    requires !EverSnapshot(acts)
    ensures ReadBack(acts) == FoldChanges(EMPTY_LEVELS, ChangesIn(acts))
  {
    if acts != [] {
      var init, a := acts[..|acts| - 1], acts[|acts| - 1];
      EverSnapshotStep(acts);
      ReadBackUnseeded(init);
      ReadAct(acts);
      assert [a][..0] == [];
    }
  }

  lemma TopFindsNothing(side: map<int, int>, n: nat, desc: bool)
    ensures Top(side, n, desc) == side <==> |side| <= n
  {
    if |side| <= n {
      NothingToTrim(side, n, desc);
    } else {
      TopIsPrefix(side.Keys, n, desc);
      assert Top(side, n, desc).Keys == TopKeys(side.Keys, n, desc);
    }
  }

  lemma TrimFindsNothing(l: Levels, n: nat)
    ensures TrimLevels(l, n) == l <==> Fits(l, n)
  {
    TopFindsNothing(l.bids, n, true);
    TopFindsNothing(l.asks, n, false);
  }

  /** Rows that agree go on agreeing exactly over acts that cost them nothing. */
  lemma AgreementStep(acts: seq<Act>, a: Act)
    requires LogAgrees(acts)
    ensures LogAgrees(acts + [a]) <==> Traceless(acts, a)
  {
    var all := acts + [a];
    assert all[..|acts|] == acts;
    EverSnapshotStep(all);
    ReadAct(all);
    if EverSnapshot(all) {
      LiveStep(acts, a);
      assert [a][..0] == [];
      if a.TrimTo? {
        TrimFindsNothing(Live(acts), a.n);
      }
      if !EverSnapshot(acts) {
        ReadBackUnseeded(acts);
      }
    }
  }

  lemma AllTracelessStep(acts: seq<Act>)
    requires acts != []
    ensures AllTraceless(acts) <==>
            AllTraceless(acts[..|acts| - 1]) && Traceless(acts[..|acts| - 1], acts[|acts| - 1])
  {
    var init := acts[..|acts| - 1];
    forall i | 0 <= i < |init|
      ensures Traceless(init[..i], init[i]) <==> Traceless(acts[..i], acts[i])
    {
      assert init[..i] == acts[..i];
    }
  }

  lemma {:induction false} AlwaysAgreesIffTraceless(acts: seq<Act>)
    ensures LogAlwaysAgrees(acts) <==> AllTraceless(acts)
  {
    if acts != [] {
      var init, a := acts[..|acts| - 1], acts[|acts| - 1];
      assert acts == init + [a];
      AlwaysAgreesIffTraceless(init);
      AllTracelessStep(acts);
      if LogAlwaysAgrees(init) {
        AgreementStep(init, a);
      }
    }
  }

  /** The persisted rows read back as the live book at every boundary of a session after its first
      snapshot, exactly when no empty snapshot has levels to clear and no trim of a seeded book has
      levels to cut. */
  lemma LogAgreesIff(acts: seq<Act>)
    ensures LogAlwaysAgrees(acts) <==> EmptiesFindNothing(acts) && TrimsFindNothing(acts)
  {
    AlwaysAgreesIffTraceless(acts);
    if EmptiesFindNothing(acts) && TrimsFindNothing(acts) {
      assert forall i :: 0 <= i < |acts| ==> Traceless(acts[..i], acts[i]);
    }
    if AllTraceless(acts) {
      assert forall i :: 0 <= i < |acts| ==> Traceless(acts[..i], acts[i]);
    }
  }

  // ----- The same at frame boundaries -----------------------------------------------------

  /** What one frame does to one book: a snapshot or changes, then possibly a trim. */
  ghost predicate FrameShaped(f: seq<Act>) {
    && (forall i :: 0 < i < |f| ==> !f[i].TakeSnapshot?)
    && (forall i :: 0 <= i < |f| - 1 ==> !f[i].TrimTo?)
    && (f != [] && f[0].TakeSnapshot? ==> |f| == 1 || (|f| == 2 && f[1].TrimTo?))
  }

  function Frames(fs: seq<seq<Act>>): seq<Act> {
    if fs == [] then [] else Frames(fs[..|fs| - 1]) + fs[|fs| - 1]
  }

  lemma FramesNext(fs: seq<seq<Act>>, f: seq<Act>)
    ensures Frames(fs + [f]) == Frames(fs) + f
  {
    assert (fs + [f])[..|fs|] == fs;
  }

  /** The rows agree after these frames, and did after every frame before. */
  ghost predicate AgreesAtFrames(fs: seq<seq<Act>>) {
    LogAgrees(Frames(fs)) && (fs != [] ==> AgreesAtFrames(fs[..|fs| - 1]))
  }

  lemma {:induction false} ChangesKeepAgreement(acts: seq<Act>, f: seq<Act>, j: nat)
    requires LogAgrees(acts) && j <= |f| && forall i :: 0 <= i < j ==> f[i].TakeChange?
    ensures LogAgrees(acts + f[..j])
  {
    if j == 0 {
      assert acts + f[..0] == acts;
    } else {
      ChangesKeepAgreement(acts, f, j - 1);
      AgreementStep(acts + f[..j - 1], f[j - 1]);
      assert (acts + f[..j - 1]) + [f[j - 1]] == acts + f[..j];
    }
  }

  /** Trimming cannot mend rows that an empty snapshot has left behind. */
  lemma EmptySnapshotThenTrim(acts: seq<Act>, s: Act, t: Act)
    requires LogAgrees(acts) && s.TakeSnapshot? && t.TrimTo? && !LogAgrees(acts + [s])
    ensures !LogAgrees(acts + [s] + [t])
  {
    var seeded := acts + [s];
    AgreementStep(acts, s);
    LiveStep(acts, s);
    LiveStep(seeded, t);
    assert (seeded + [t])[..|seeded|] == seeded && [s][..0] == [] && [t][..0] == [];
    ReadAct(seeded + [t]);
    assert Live(seeded) == EMPTY_LEVELS;
    TrimFindsNothing(EMPTY_LEVELS, t.n);
  }

  /** Inside a frame the rows agree whenever they do at both its ends. */
  lemma FrameEndsSuffice(acts: seq<Act>, f: seq<Act>, j: nat)
    requires FrameShaped(f) && LogAgrees(acts) && LogAgrees(acts + f) && j <= |f|
    ensures LogAgrees(acts + f[..j])
  {
    if j == |f| {
      assert f[..j] == f;
    } else if f[0].TakeSnapshot? && j == 1 {
      assert f == [f[0]] + [f[1]] && f[..1] == [f[0]];
      assert acts + f == acts + [f[0]] + [f[1]];
      if !LogAgrees(acts + [f[0]]) {
        EmptySnapshotThenTrim(acts, f[0], f[1]);
      }
    } else {
      assert forall i :: 0 <= i < j ==> f[i].TakeChange?;
      ChangesKeepAgreement(acts, f, j);
    }
  }

  lemma {:induction false} AgreesAlong(acts: seq<Act>, f: seq<Act>, j: nat)
    requires FrameShaped(f) && LogAlwaysAgrees(acts) && LogAgrees(acts + f) && j <= |f|
    ensures LogAlwaysAgrees(acts + f[..j])
  {
    if j == 0 {
      assert acts + f[..0] == acts;
    } else {
      AgreesAlong(acts, f, j - 1);
      FrameEndsSuffice(acts, f, j);
      assert (acts + f[..j])[..|acts| + j - 1] == acts + f[..j - 1];
    }
  }

  lemma {:induction false} AgreedBefore(acts: seq<Act>, f: seq<Act>)
    requires LogAlwaysAgrees(acts + f)
    ensures LogAlwaysAgrees(acts)
  {
    if f == [] {
      assert acts + f == acts;
    } else {
      assert (acts + f)[..|acts + f| - 1] == acts + f[..|f| - 1];
      AgreedBefore(acts, f[..|f| - 1]);
    }
  }

  lemma OneMoreFrame(acts: seq<Act>, f: seq<Act>)
    requires FrameShaped(f)
    ensures LogAlwaysAgrees(acts + f) <==> LogAlwaysAgrees(acts) && LogAgrees(acts + f)
  {
    if LogAlwaysAgrees(acts + f) {
      AgreedBefore(acts, f);
    }
    if LogAlwaysAgrees(acts) && LogAgrees(acts + f) {
      AgreesAlong(acts, f, |f|);
      assert f[..|f|] == f;
    }
  }

  lemma {:induction false} FrameBoundariesSuffice(fs: seq<seq<Act>>)
    requires forall f :: f in fs ==> FrameShaped(f)
    ensures AgreesAtFrames(fs) <==> LogAlwaysAgrees(Frames(fs))
  {
    if fs != [] {
      FrameBoundariesSuffice(fs[..|fs| - 1]);
      OneMoreFrame(Frames(fs[..|fs| - 1]), fs[|fs| - 1]);
    }
  }

  /** At frame boundaries, too: the rows agree after every frame exactly when no empty snapshot has
      levels to clear and no trim has levels to cut. */
  lemma FramesAgreeIff(fs: seq<seq<Act>>)
    requires forall f :: f in fs ==> FrameShaped(f)
    ensures AgreesAtFrames(fs) <==> EmptiesFindNothing(Frames(fs)) && TrimsFindNothing(Frames(fs))
  {
    FrameBoundariesSuffice(fs);
    LogAgreesIff(Frames(fs));
  }

  /** Without trims only the empty snapshots matter. */
  lemma {:induction false} FramesWithoutTrims(fs: seq<seq<Act>>)
    requires forall f :: f in fs ==> NoTrims(f)
    ensures NoTrims(Frames(fs)) && TrimsFindNothing(Frames(fs))
  {
    if fs != [] {
      var init, f := fs[..|fs| - 1], fs[|fs| - 1];
      assert f in fs;
      FramesWithoutTrims(init);
      forall a | a in Frames(fs)
        ensures !a.TrimTo?
      {
        assert a in Frames(init) || a in f;
      }
    }
    var acts := Frames(fs);
    assert forall i :: 0 <= i < |acts| ==> acts[i] in acts;
  }

  // ----- Witnesses ------------------------------------------------------------------------

  /** A snapshot with no levels does not clear the persisted book. */
  lemma EmptySnapshotLeavesStaleRows()
    ensures var acts := [TakeSnapshot([Level(100, 1)], []), TakeSnapshot([], [])];
            Live(acts) == EMPTY_LEVELS && ReadBack(acts) == Levels(map[100 := 1], map[])
  {
    var a, b := TakeSnapshot([Level(100, 1)], []), TakeSnapshot([], []);
    assert [a, b][..1] == [a] && [a][..0] == [];
    ReadAct([a, b]);
    ReadAct([a]);
    assert [Level(100, 1)][..0] == [];
    assert Load([Level(100, 1)]) == map[100 := 1];
    SessionLevels([a, b]);
    assert [a, b][1].TakeSnapshot?;
  }

  /** Ten bids at 100..109. */
  function TenBids(): seq<Level> {
    seq(10, i => Level(100 + i, 1))
  }

  /** The first frame shows ten bids. */
  function FirstFrame(): seq<Act> {
    [TakeSnapshot(TenBids(), [])] + [TrimTo(10)]
  }

  const BETTER_BID := TakeChange(Change(Buy, 110, 1))

  /** Then a better bid pushes the worst of them out. */
  function PushedOut(): seq<Act> {
    FirstFrame() + [BETTER_BID] + [TrimTo(10)]
  }

  lemma {:induction false} LoadIsNoLonger(levels: seq<Level>)
    ensures |Load(levels)| <= |levels|
  {
    if levels != [] {
      LoadIsNoLonger(levels[..|levels| - 1]);
    }
  }

  lemma TenBidsLoad(p: int)
    ensures p in Load(TenBids()) <==> 100 <= p <= 109
  {
    LoadContents(TenBids(), p);
    if 100 <= p <= 109 {
      assert LastNonzero(TenBids(), p - 100);
    }
  }

  lemma TenBidsShown()
    ensures EverSnapshot(FirstFrame())
    ensures Live(FirstFrame()) == ReadBack(FirstFrame()) == Levels(Load(TenBids()), map[])
  {
    var a := TakeSnapshot(TenBids(), []);
    LiveStep([], a);
    LiveStep([a], TrimTo(10));
    LoadIsNoLonger(TenBids());
    TrimFindsNothing(Levels(Load(TenBids()), map[]), 10);
    ReadNext([], a);
    ReadNext([a], TrimTo(10));
    assert [] + [a] == [a] && [a][..0] == [] && [TrimTo(10)][..0] == [];
  }

  lemma ReadNext(acts: seq<Act>, a: Act)
    ensures ReadBack(acts + [a]) == if LeavesNoRows(a) then ReadBack(acts) else FoldActs(ReadBack(acts), [a])
  {
    assert (acts + [a])[..|acts|] == acts;
    ReadAct(acts + [a]);
  }

  lemma ElevenBidsShown()
    ensures var acts := FirstFrame() + [BETTER_BID];
            EverSnapshot(acts) && Live(acts) == ReadBack(acts) == Levels(Load(TenBids())[110 := 1], map[])
  {
    TenBidsShown();
    LiveStep(FirstFrame(), BETTER_BID);
    ReadNext(FirstFrame(), BETTER_BID);
    assert [BETTER_BID][..0] == [];
  }

  lemma HundredIsCut()
    ensures 100 in Load(TenBids())[110 := 1] && 100 !in Top(Load(TenBids())[110 := 1], 10, true)
  {
    var eleven := Load(TenBids())[110 := 1];
    forall p
      ensures p in eleven.Keys <==> 100 <= p <= 110
    {
      TenBidsLoad(p);
    }
    HundredIsEleventh(eleven.Keys);
  }

  /** A level pushed out of the window stays in the rows: no row says that it left. */
  lemma PushedOutLevelStaysInRows()
    ensures EverSnapshot(PushedOut())
    ensures 100 !in Live(PushedOut()).bids && 100 in ReadBack(PushedOut()).bids
  {
    var acts := FirstFrame() + [BETTER_BID];
    ElevenBidsShown();
    LiveStep(acts, TrimTo(10));
    ReadNext(acts, TrimTo(10));
    assert [TrimTo(10)][..0] == [];
    HundredIsCut();
  }

  lemma HundredIsEleventh(keys: set<int>)
    requires forall p :: p in keys <==> 100 <= p <= 110
    ensures Rank(keys, true, 100) >= 10
  {
    var better := {101, 102, 103, 104, 105, 106, 107, 108, 109, 110};
    assert |better| == 10;
    SubsetSize(better, BetterThan(keys, true, 100));
  }
}
