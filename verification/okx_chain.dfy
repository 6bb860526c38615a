/** Chain safety: what OKX's seqId linkage buys, whatever subset, repetition or order of the
    venue's frames is delivered. */
module OkxChain {
  import opened Norm
  import opened Engine
  import opened Numbering
  import opened PersistedLog
  import opened Sessions
  import opened Wire
  import opened Okx

  /** One instrument's history at the venue: the book at ids[0], then change set k leads from
      ids[k] to ids[k + 1]. */
  datatype Chain = Chain(base: Levels, ids: seq<int>, changes: seq<seq<Change>>)

  ghost predicate ValidChain(c: Chain) {
    && |c.ids| == |c.changes| + 1
    && forall i, j :: 0 <= i < j < |c.ids| ==> c.ids[i] < c.ids[j]
  }

  /** The venue's book once it is at ids[k]. */
  function ChainTruth(c: Chain, k: nat): Levels
    requires k <= |c.changes|
  {
    if k == 0 then c.base else FoldChanges(ChainTruth(c, k - 1), c.changes[k - 1])
  }

  /** Where on the chain a frame belongs: a snapshot at k, the change set after k, or a frame
      without changes, which repeats the seqId. */
  datatype Place = SnapshotAt(k: nat) | DataAfter(k: nat) | NoChangeAt(k: nat)

  datatype Delivery = Delivery(instId: string, action: string, data: BookData, place: Place)

  ghost predicate ReadsAs(d: BookData, bids: seq<Level>, asks: seq<Level>) {
    ParseAll(d.bids, ParseRow) == Ok(bids) && ParseAll(d.asks, ParseRow) == Ok(asks)
  }

  /** d parses, and its bids followed by its asks are these changes. */
  ghost predicate Carries(d: BookData, cs: seq<Change>) {
    exists bids, asks :: ReadsAs(d, bids, asks) && ChangesOn(Buy, bids) + ChangesOn(Sell, asks) == cs
  }

  /** d parses, and loads as this book. */
  ghost predicate Pictures(d: BookData, l: Levels) {
    exists bids, asks :: ReadsAs(d, bids, asks) && Levels(Load(bids), Load(asks)) == l
  }

  ghost predicate Authentic(c: Chain, f: Delivery)
    requires ValidChain(c)
  {
    var d := f.data;
    match f.place
    case SnapshotAt(k) =>
      && k < |c.ids| && f.action == "snapshot" && d.seqId == c.ids[k]
      && Pictures(d, ChainTruth(c, k))
    case DataAfter(k) =>
      && k < |c.changes| && f.action != "snapshot" && d.prevSeqId == c.ids[k] && d.seqId == c.ids[k + 1]
      && Carries(d, c.changes[k])
    case NoChangeAt(k) =>
      && k < |c.ids| && f.action != "snapshot" && d.prevSeqId == d.seqId == c.ids[k]
      && d.bids == [] && d.asks == []
  }

  // ----- Sessions -------------------------------------------------------------------------

  /** The connector after the frames; error.Some? means the session has ended. */
  datatype Progress = Progress(state: OkxState, ended: bool)

  ghost function Receive(p: Progress, f: Delivery): Progress {
    if p.ended then p
    else
      Progress(Next(p.state, f.instId, f.action, f.data, true),
               Decide(LinkOf(p.state.links, f.instId), f.action, f.data).error.Some?)
  }

  ghost function Session(fs: seq<Delivery>): Progress {
    if fs == [] then Progress(NEW_OKX, false) else Receive(Session(fs[..|fs| - 1]), fs[|fs| - 1])
  }

  ghost function PlacesOf(fs: seq<Delivery>, instId: string): seq<Place> {
    if fs == [] then []
    else
      var rest, f := PlacesOf(fs[..|fs| - 1], instId), fs[|fs| - 1];
      if f.instId == instId then rest + [f.place] else rest
  }

  /** Where a frame leaves the book. */
  function EndOf(p: Place): nat {
    if p.DataAfter? then p.k + 1 else p.k
  }

  /** Where the last frame leaves the book. */
  function Position(ps: seq<Place>): Option<nat> {
    if ps == [] then None else Some(EndOf(ps[|ps| - 1]))
  }

  /** After a snapshot, each frame starts where the one before it left off. */
  predicate IsSegment(ps: seq<Place>) {
    forall i :: 0 <= i < |ps| && !ps[i].SnapshotAt? ==> Position(ps[..i]) == Some(ps[i].k)
  }

  /** One instrument's book against its chain. */
  ghost predicate OnChain(c: Chain, link: Link, f: Feed, at: Option<nat>)
    requires ValidChain(c)
  {
    && Lawful(f)
    && (f.book.synced <==> link.seeded) && (link.seeded <==> at.Some?)
    && (at.Some? ==>
          && at.value < |c.ids| && link.lastSeqId == c.ids[at.value]
          && f.book.levels == ChainTruth(c, at.value))
  }

  lemma IdsAreDistinct(c: Chain, i: nat, j: nat)
    requires ValidChain(c) && i < |c.ids| && j < |c.ids| && c.ids[i] == c.ids[j]
    ensures i == j
  {
  }

  ghost predicate Accepted(st: OkxState, f: Delivery) {
    Decide(LinkOf(st.links, f.instId), f.action, f.data).error.None?
  }

  ghost predicate StandsAt(c: Chain, st: OkxState, instId: string, at: Option<nat>)
    requires ValidChain(c)
  {
    OnChain(c, LinkOf(st.links, instId), FeedOf(st.session, instId), at)
  }

  ghost function After(st: OkxState, f: Delivery): OkxState {
    Next(st, f.instId, f.action, f.data, true)
  }

  lemma SnapshotStep(c: Chain, st: OkxState, f: Delivery, at: Option<nat>)
    requires ValidChain(c) && Authentic(c, f) && f.place.SnapshotAt? && StandsAt(c, st, f.instId, at)
    ensures Accepted(st, f) && StandsAt(c, After(st, f), f.instId, Some(EndOf(f.place)))
  {
    var bids, asks :| ReadsAs(f.data, bids, asks) && Levels(Load(bids), Load(asks)) == ChainTruth(c, f.place.k);
    TakeOne(st.session, f.instId, TakeSnapshot(bids, asks), true);
    PerformIsLawful(FeedOf(st.session, f.instId), TakeSnapshot(bids, asks));
  }

  /** Changes that link up are applied; others end the session. */
  lemma ChangesStep(st: OkxState, f: Delivery, cs: seq<Change>)
    requires Lawful(FeedOf(st.session, f.instId)) && f.action != "snapshot" && Carries(f.data, cs)
    ensures Accepted(st, f) <==> Contiguous(LinkOf(st.links, f.instId), f.data.prevSeqId)
    ensures Accepted(st, f) ==> LinkOf(After(st, f).links, f.instId) == Link(f.data.seqId, true)
    ensures Accepted(st, f) && FeedOf(st.session, f.instId).book.synced ==>
              var feed := FeedOf(After(st, f).session, f.instId);
              && Lawful(feed) && feed.book.synced
              && feed.book.levels == FoldChanges(FeedOf(st.session, f.instId).book.levels, cs)
  {
    if Contiguous(LinkOf(st.links, f.instId), f.data.prevSeqId) && FeedOf(st.session, f.instId).book.synced {
      TakeChanges(st.session, f.instId, cs, true);
    }
  }

  ghost predicate LeadsTo(c: Chain, from: nat, to: nat, cs: seq<Change>)
    requires ValidChain(c)
  {
    from < |c.ids| && to < |c.ids| && ChainTruth(c, to) == FoldChanges(ChainTruth(c, from), cs)
  }

  lemma ChangeSetLeads(c: Chain, k: nat)
    requires ValidChain(c) && k < |c.changes|
    ensures LeadsTo(c, k, k + 1, c.changes[k])
  {
  }

  /** Changes leading from ids[from] to ids[to] are accepted exactly when the book stands at from,
      and take it to to. */
  lemma LinkedStep(c: Chain, st: OkxState, f: Delivery, at: Option<nat>, from: nat, to: nat, cs: seq<Change>)
    requires ValidChain(c) && StandsAt(c, st, f.instId, at) && f.action != "snapshot" && Carries(f.data, cs)
    requires LeadsTo(c, from, to, cs) && f.data.prevSeqId == c.ids[from] && f.data.seqId == c.ids[to]
    ensures Accepted(st, f) <==> at == Some(from)
    ensures Accepted(st, f) ==> StandsAt(c, After(st, f), f.instId, Some(to))
  {
    ChangesStep(st, f, cs);
    if Accepted(st, f) {
      IdsAreDistinct(c, at.value, from);
    }
  }

  lemma DataStep(c: Chain, st: OkxState, f: Delivery, at: Option<nat>)
    requires ValidChain(c) && Authentic(c, f) && f.place.DataAfter? && StandsAt(c, st, f.instId, at)
    ensures Accepted(st, f) <==> at == Some(f.place.k)
    ensures Accepted(st, f) ==> StandsAt(c, After(st, f), f.instId, Some(EndOf(f.place)))
  {
    ChangeSetLeads(c, f.place.k);
    LinkedStep(c, st, f, at, f.place.k, f.place.k + 1, c.changes[f.place.k]);
  }

  lemma NoChangeStep(c: Chain, st: OkxState, f: Delivery, at: Option<nat>)
    requires ValidChain(c) && Authentic(c, f) && f.place.NoChangeAt? && StandsAt(c, st, f.instId, at)
    ensures Accepted(st, f) <==> at == Some(f.place.k)
    ensures Accepted(st, f) ==> StandsAt(c, After(st, f), f.instId, Some(EndOf(f.place)))
  {
    assert ReadsAs(f.data, [], []) && ChangesOn(Buy, []) + ChangesOn(Sell, []) == [];
    LinkedStep(c, st, f, at, f.place.k, f.place.k, []);
  }

  /** An authentic frame is accepted exactly when it starts where the book stands, and then the
      book stands where the frame ends. */
  lemma FrameStep(c: Chain, st: OkxState, f: Delivery, at: Option<nat>)
    requires ValidChain(c) && Authentic(c, f) && StandsAt(c, st, f.instId, at)
    ensures Accepted(st, f) <==> f.place.SnapshotAt? || at == Some(f.place.k)
    ensures Accepted(st, f) ==> StandsAt(c, After(st, f), f.instId, Some(EndOf(f.place)))
  {
    match f.place
    case SnapshotAt(_) => SnapshotStep(c, st, f, at);
    case DataAfter(_) => DataStep(c, st, f, at);
    case NoChangeAt(_) => NoChangeStep(c, st, f, at);
  }

  ghost predicate AllAuthentic(chains: map<string, Chain>, fs: seq<Delivery>) {
    && (forall i :: i in chains ==> ValidChain(chains[i]))
    && (forall f :: f in fs ==> f.instId in chains && Authentic(chains[f.instId], f))
  }

  ghost predicate EveryInstrumentOnChain(chains: map<string, Chain>, st: OkxState, fs: seq<Delivery>)
    requires forall i :: i in chains ==> ValidChain(chains[i])
  {
    forall i :: i in chains ==>
      OnChain(chains[i], LinkOf(st.links, i), FeedOf(st.session, i), Position(PlacesOf(fs, i)))
  }

  lemma SegmentStep(ps: seq<Place>, p: Place)
    ensures IsSegment(ps + [p]) <==> IsSegment(ps) && (p.SnapshotAt? || Position(ps) == Some(p.k))
  {
    var all := ps + [p];
    assert all[..|ps|] == ps;
    assert forall i :: 0 <= i < |ps| ==> all[..i] == ps[..i] && all[i] == ps[i];
  }

  /** Whatever authentic frames are delivered, in whatever order: the session goes on exactly while
      every instrument's frames since its last snapshot form a contiguous segment of the venue's
      chain, and then every book is the venue's book at its lastSeqId. */
  lemma {:induction false} ChainSafety(chains: map<string, Chain>, fs: seq<Delivery>)
    requires AllAuthentic(chains, fs)
    ensures !Session(fs).ended <==> AllSegments(chains, fs)
    ensures !Session(fs).ended ==> EveryInstrumentOnChain(chains, Session(fs).state, fs)
  {
    if fs == [] {
      assert forall i :: i in chains ==> PlacesOf(fs, i) == [];
    } else {
      var init, f := fs[..|fs| - 1], fs[|fs| - 1];
      assert fs == init + [f];
      assert f in fs && forall g :: g in init ==> g in fs;
      ChainSafety(chains, init);
      SegmentsNext(chains, init, f);
      if !Session(init).ended {
        SessionStep(chains, init, f, Session(init));
      }
    }
  }

  ghost predicate AllSegments(chains: map<string, Chain>, fs: seq<Delivery>) {
    forall i :: i in chains ==> IsSegment(PlacesOf(fs, i))
  }

  lemma SegmentsNext(chains: map<string, Chain>, init: seq<Delivery>, f: Delivery)
    requires f.instId in chains
    ensures AllSegments(chains, init + [f]) <==>
            AllSegments(chains, init) && (f.place.SnapshotAt? || Position(PlacesOf(init, f.instId)) == Some(f.place.k))
  {
    forall i | i in chains
      ensures IsSegment(PlacesOf(init + [f], i)) <==>
              IsSegment(PlacesOf(init, i))
              && (i == f.instId ==> f.place.SnapshotAt? || Position(PlacesOf(init, i)) == Some(f.place.k))
    {
      PlacesNext(init, f, i);
      SegmentStep(PlacesOf(init, i), f.place);
    }
  }

  lemma NextKeepsOthers(st: OkxState, f: Delivery, other: string)
    requires other != f.instId
    ensures var next := Next(st, f.instId, f.action, f.data, true);
            FeedOf(next.session, other) == FeedOf(st.session, other) && LinkOf(next.links, other) == LinkOf(st.links, other)
  {
    OthersUntouched(st.session, f.instId, Decide(LinkOf(st.links, f.instId), f.action, f.data).acts, other, true);
  }

  lemma PlacesNext(init: seq<Delivery>, f: Delivery, instId: string)
    ensures PlacesOf(init + [f], instId) == PlacesOf(init, instId) + if f.instId == instId then [f.place] else []
    ensures f.instId == instId ==> Position(PlacesOf(init + [f], instId)) == Some(EndOf(f.place))
  {
    assert (init + [f])[..|init|] == init;
  }

  lemma SessionStep(chains: map<string, Chain>, init: seq<Delivery>, f: Delivery, p: Progress)
    requires AllAuthentic(chains, init + [f]) && !p.ended
    requires EveryInstrumentOnChain(chains, p.state, init)
    ensures !Receive(p, f).ended <==> f.place.SnapshotAt? || Position(PlacesOf(init, f.instId)) == Some(f.place.k)
    ensures !Receive(p, f).ended ==> EveryInstrumentOnChain(chains, Receive(p, f).state, init + [f])
  {
    var next := Receive(p, f).state;
    assert f in init + [f];
    FrameStep(chains[f.instId], p.state, f, Position(PlacesOf(init, f.instId)));
    if !Receive(p, f).ended {
      forall i | i in chains
        ensures OnChain(chains[i], LinkOf(next.links, i), FeedOf(next.session, i), Position(PlacesOf(init + [f], i)))
      {
        PlacesNext(init, f, i);
        if i != f.instId {
          NextKeepsOthers(p.state, f, i);
        }
      }
    }
  }

  // ----- Numbering and the persisted rows, for any frames ----------------------------------

  /** Each frame's acts on one instrument, a rejected frame's partial work included. */
  ghost function FramesOf(fs: seq<Delivery>, instId: string): seq<seq<Act>> {
    if fs == [] then []
    else
      var p, f := Session(fs[..|fs| - 1]), fs[|fs| - 1];
      FramesOf(fs[..|fs| - 1], instId)
      + [if p.ended || f.instId != instId then []
         else Decide(LinkOf(p.state.links, instId), f.action, f.data).acts]
  }

  ghost function SessionActs(fs: seq<Delivery>, instId: string): seq<Act> {
    Frames(FramesOf(fs, instId))
  }

  lemma DecideIsFrame(link: Link, action: string, d: BookData)
    ensures FrameShaped(Decide(link, action, d).acts) && NoTrims(Decide(link, action, d).acts)
  {
  }

  lemma {:induction false} FramesAreShaped(fs: seq<Delivery>, instId: string)
    ensures forall f :: f in FramesOf(fs, instId) ==> FrameShaped(f) && NoTrims(f)
  {
    if fs != [] {
      var f, p := fs[|fs| - 1], Session(fs[..|fs| - 1]);
      FramesAreShaped(fs[..|fs| - 1], instId);
      DecideIsFrame(LinkOf(p.state.links, instId), f.action, f.data);
    }
  }

  lemma ActsNext(init: seq<Delivery>, f: Delivery, instId: string)
    ensures var p := Session(init);
            SessionActs(init + [f], instId)
            == Extended(SessionActs(init, instId), Decide(LinkOf(p.state.links, f.instId), f.action, f.data).acts,
                        !p.ended && f.instId == instId)
  {
    var fs, p := init + [f], Session(init);
    assert fs[..|init|] == init;
    FramesNext(FramesOf(init, instId), if p.ended || f.instId != instId then []
                                       else Decide(LinkOf(p.state.links, instId), f.action, f.data).acts);
    assert SessionActs(init, instId) + [] == SessionActs(init, instId);
  }

  lemma {:induction false} SessionTracks(fs: seq<Delivery>, instId: string)
    ensures Tracks(Session(fs).state.session, instId, SessionActs(fs, instId))
  {
    if fs != [] {
      var init, f := fs[..|fs| - 1], fs[|fs| - 1];
      SessionTracks(init, instId);
      ActsNext(init, f, instId);
      assert fs == init + [f];
      var p := Session(init);
      if !p.ended {
        FrameTracks(p.state.session, instId, SessionActs(init, instId), f.instId,
                    Decide(LinkOf(p.state.links, f.instId), f.action, f.data).acts);
      }
    }
  }

  /** In every OKX session, whatever the frames: a seeded book is synced at the connector's own
      counter with an empty buffer, no gap and no resync, and holds its last snapshot folded with
      every change applied since. */
  lemma SessionBooks(fs: seq<Delivery>, instId: string, k: nat)
    requires k < |SessionActs(fs, instId)| && SessionActs(fs, instId)[k].TakeSnapshot?
    ensures var acts, f := SessionActs(fs, instId), FeedOf(Session(fs).state.session, instId);
            && Lawful(f) && f.book.synced
            && f.book.levels == FoldActs(Levels(Load(acts[k].bids), Load(acts[k].asks)), acts[k + 1..])
  {
    SessionTracks(fs, instId);
    SessionsAreLawful(SessionActs(fs, instId));
    LevelsSinceSnapshot(SessionActs(fs, instId), k);
  }

  /** After these frames, and after every frame before, the rows read back as the live book. */
  ghost predicate RowsAlwaysAgree(fs: seq<Delivery>, instId: string) {
    RowsAgree(Session(fs).state.session, instId) && (fs != [] ==> RowsAlwaysAgree(fs[..|fs| - 1], instId))
  }

  lemma {:induction false} RowsFollowFrames(fs: seq<Delivery>, instId: string)
    ensures RowsAlwaysAgree(fs, instId) <==> AgreesAtFrames(FramesOf(fs, instId))
  {
    SessionTracks(fs, instId);
    RowsAgreeIffLogAgrees(Session(fs).state.session, instId, SessionActs(fs, instId));
    if fs != [] {
      RowsFollowFrames(fs[..|fs| - 1], instId);
      var frames := FramesOf(fs, instId);
      assert frames[..|frames| - 1] == FramesOf(fs[..|fs| - 1], instId);
    }
  }

  /** The rows a session persists for an instrument read back as its live book after every frame
      since the first snapshot, exactly when no empty snapshot has levels to clear. */
  lemma PersistedRowsReplay(fs: seq<Delivery>, instId: string)
    ensures RowsAlwaysAgree(fs, instId) <==> EmptiesFindNothing(SessionActs(fs, instId))
  {
    RowsFollowFrames(fs, instId);
    FramesAreShaped(fs, instId);
    FramesAgreeIff(FramesOf(fs, instId));
    FramesWithoutTrims(FramesOf(fs, instId));
  }
}
