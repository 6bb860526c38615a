/** Safety over every run of one book against one numbered stream, and convergence after a gap. */
module Runs {
  import opened Norm
  import opened Engine
  import opened Replaying

  /** A venue's truth: the book before the first update, and the updates numbered 1, 2, ... */
  datatype Venue = Venue(base: Levels, updates: seq<Update>)

  ghost predicate Numbered(v: Venue) {
    && NoZeroSizes(v.base)
    && forall i :: 0 <= i < |v.updates| ==> v.updates[i].seqNo == i + 1
  }

  /** The venue's own book once it has made its first n updates. */
  function Truth(v: Venue, n: nat): Levels
    requires n <= |v.updates|
  {
    Fold(v.base, v.updates[..n])
  }

  ghost predicate Authentic(v: Venue, u: Update) {
    1 <= u.seqNo <= |v.updates| && u == v.updates[u.seqNo - 1]
  }

  ghost predicate AuthenticSnapshot(v: Venue, s: Snapshot) {
    s.seqNo <= |v.updates| && LoadSnapshot(s) == Truth(v, s.seqNo)
  }

  /** Nothing is forged; anything may be lost, repeated or reordered. */
  ghost predicate AuthenticEvent(v: Venue, e: Event) {
    match e
    case Deliver(u) => Authentic(v, u)
    case Reseed(s, _) => AuthenticSnapshot(v, s)
  }

  lemma TruthStep(v: Venue, n: nat)
    requires n < |v.updates|
    ensures Truth(v, n + 1)
         == ApplyDelta(Truth(v, n), v.updates[n].side, v.updates[n].price, v.updates[n].size)
  {
    assert v.updates[..n + 1][..n] == v.updates[..n];
  }

  // ----- Safety ---------------------------------------------------------------------------

  ghost predicate Safe(v: Venue, st: BookState, seeded: bool) {
    && |st.pending| <= MAX_PENDING
    && (forall u :: u in st.pending ==> Authentic(v, u))
    && NoZeroSizes(st.levels)
    && (seeded ==> st.lastSeq <= |v.updates| && st.levels == Truth(v, st.lastSeq))
    && (!seeded ==> !st.synced && st.lastSeq == 0 && st.levels == EMPTY_LEVELS)
  }

  lemma ApplyKeepsSafe(v: Venue, st: BookState, u: Update, seeded: bool)
    requires Numbered(v) && Safe(v, st, seeded) && Authentic(v, u)
    ensures Safe(v, Apply(st, u), seeded)
  {
    if st.synced && u.seqNo == st.lastSeq + 1 {
      TruthStep(v, st.lastSeq);
    }
  }

  lemma {:induction false} ApplyAllKeepsSafe(v: Venue, st: BookState, ups: seq<Update>, seeded: bool)
    requires Numbered(v) && Safe(v, st, seeded)
    requires forall u :: u in ups ==> Authentic(v, u)
    ensures Safe(v, ApplyAll(st, ups), seeded)
  {
    if ups != [] {
      ApplyAllKeepsSafe(v, st, ups[..|ups| - 1], seeded);
      ApplyKeepsSafe(v, ApplyAll(st, ups[..|ups| - 1]), ups[|ups| - 1], seeded);
    }
  }

  lemma StepKeepsSafe(v: Venue, st: BookState, e: Event, seeded: bool)
    requires Numbered(v) && Safe(v, st, seeded) && Enabled(st, e) && AuthenticEvent(v, e)
    ensures Safe(v, Step(st, e), seeded || e.Reseed?)
  {
    match e
    case Deliver(u) => ApplyKeepsSafe(v, st, u, seeded);
    case Reseed(s, order) =>
      FoldHasNoZero(v.base, v.updates[..s.seqNo]);
      forall u | u in order
        ensures Authentic(v, u)
      {
        assert u in multiset(st.pending);
      }
      ApplyAllKeepsSafe(v, Seed(st, s), order, true);
  }

  /** Over every interleaving of authentic updates (in any order, with losses and repeats) and
      authentic snapshots, the book equals the venue's book at lastSeq, synced or not. */
  lemma {:induction false} SafetyOverRuns(v: Venue, events: seq<Event>)
    requires Numbered(v) && ValidRun(NEW_BOOK, events)
    requires forall e :: e in events ==> AuthenticEvent(v, e)
    ensures Safe(v, Run(NEW_BOOK, events), EverSeeded(events))
  {
    if events != [] {
      var init, e := events[..|events| - 1], events[|events| - 1];
      SafetyOverRuns(v, init);
      StepKeepsSafe(v, Run(NEW_BOOK, init), e, EverSeeded(init));
      if EverSeeded(init) {
        var i :| 0 <= i < |init| && init[i].Reseed?;
        assert events[i].Reseed?;
      }
    }
  }

  lemma {:induction false} ApplyAllStoresNoZero(st: BookState, ups: seq<Update>)
    requires NoZeroSizes(st.levels)
    ensures NoZeroSizes(ApplyAll(st, ups).levels)
  {
    if ups != [] {
      ApplyAllStoresNoZero(st, ups[..|ups| - 1]);
    }
  }

  /** Whatever is delivered, authentic or not, no stored level ever has size zero. */
  lemma {:induction false} NeverStoresZero(events: seq<Event>)
    ensures NoZeroSizes(Run(NEW_BOOK, events).levels)
  {
    if events != [] {
      var e := events[|events| - 1];
      NeverStoresZero(events[..|events| - 1]);
      if e.Reseed? {
        LoadHasNoZero(e.snapshot.bids);
        LoadHasNoZero(e.snapshot.asks);
        ApplyAllStoresNoZero(Seed(Run(NEW_BOOK, events[..|events| - 1]), e.snapshot), e.order);
      }
    }
  }

  // ----- Convergence ----------------------------------------------------------------------

  /** The reference: a book seeded with the venue's base and fed its first n updates in order. */
  function InOrder(v: Venue, n: nat): BookState
    requires n <= |v.updates|
  {
    ApplyAll(NEW_BOOK.(levels := v.base, synced := true), v.updates[..n])
  }

  lemma {:induction false} InOrderIsTruth(v: Venue, n: nat)
    requires Numbered(v) && n <= |v.updates|
    ensures InOrder(v, n) == NEW_BOOK.(levels := Truth(v, n), synced := true, lastSeq := n)
  {
    if n != 0 {
      InOrderIsTruth(v, n - 1);
      assert v.updates[..n][..n - 1] == v.updates[..n - 1];
    }
  }

  /** ups is h..n, every one of them at least once, in any order. */
  ghost predicate Covers(v: Venue, ups: seq<Update>, h: nat, n: nat) {
    && (forall u :: u in ups ==> Authentic(v, u) && h <= u.seqNo <= n)
    && forall q :: h <= q <= n ==> HasSeq(ups, q)
  }

  /** What a full buffer keeps: the newest arrivals. */
  function Kept(ups: seq<Update>): seq<Update> {
    if |ups| <= MAX_PENDING then ups else ups[|ups| - MAX_PENDING..]
  }

  /** st with ups in its buffer: the first of them is a gap if it was synced, and the oldest beyond
      the cap are dropped. */
  function Backlogged(st: BookState, ups: seq<Update>): BookState {
    st.(pending := Kept(ups),
        synced := st.synced && ups == [],
        gaps := st.gaps + (if st.synced && ups != [] then 1 else 0),
        dropped := st.dropped + (|ups| - |Kept(ups)|))
  }

  lemma BackloggedNext(st: BookState, ups: seq<Update>, u: Update)
    requires st.pending == [] && (st.synced ==> u.seqNo > st.lastSeq + 1)
    ensures Apply(Backlogged(st, ups), u) == Backlogged(st, ups + [u])
  {
    KeptNext(ups, u);
  }

  lemma KeptNext(ups: seq<Update>, u: Update)
    ensures Kept(ups + [u]) == (if |Kept(ups)| >= MAX_PENDING then Kept(ups)[1..] else Kept(ups)) + [u]
  {
  }

  /** A book that needs a snapshot, or gets a gap from the first of ups, buffers what it can keep. */
  lemma {:induction false} AllBuffered(st: BookState, ups: seq<Update>)
    requires st.pending == []
    requires st.synced ==> forall u :: u in ups ==> u.seqNo > st.lastSeq + 1
    ensures ApplyAll(st, ups) == Backlogged(st, ups)
  {
    if ups != [] {
      var init, u := ups[..|ups| - 1], ups[|ups| - 1];
      AllBuffered(st, init);
      BackloggedNext(st, init, u);
      assert ups == init + [u];
    }
  }

  /** Every number from just after s up to each of ups is in ups. */
  ghost predicate NoHoles(ups: seq<Update>, s: nat) {
    forall u, q :: u in ups && s < q <= u.seqNo ==> HasSeq(ups, q)
  }

  /** m is the highest of s and the numbers of ups. */
  ghost predicate IsHighest(ups: seq<Update>, s: nat, m: nat) {
    s <= m && (forall u :: u in ups ==> u.seqNo <= m) && (m == s || HasSeq(ups, m))
  }

  /** An authentic snapshot of any book with an authentic buffer, whatever its order, repeats and
      losses: the book converges to in-order application exactly when the buffer has no hole after
      the snapshot, and equals the venue's book where it stops in any case. */
  lemma SnapshotConverges(v: Venue, stale: BookState, s: Snapshot, order: seq<Update>)
    requires Numbered(v) && AuthenticSnapshot(v, s) && SortedPermutation(order, stale.pending)
    requires |stale.pending| <= MAX_PENDING && forall u :: u in stale.pending ==> Authentic(v, u)
    ensures var r := ApplySnapshot(stale, s, order);
            && r.dropped == stale.dropped
            && (r.synced <==> NoHoles(stale.pending, s.seqNo))
            && r.lastSeq <= |v.updates| && r.levels == InOrder(v, r.lastSeq).levels
            && (r.synced ==> IsHighest(stale.pending, s.seqNo, r.lastSeq)
                             && r.(gaps := 0, resyncs := 0, dropped := 0) == InOrder(v, r.lastSeq))
  {
    var r := ApplySnapshot(stale, s, order);
    ExactReplay(stale, s, order);
    OrderMembers(order, stale.pending);
    NewerMembers(order, r.lastSeq);
    NoHolesIff(stale.pending, s.seqNo, r.lastSeq);
    assert r.pending == [] <==> forall u :: u in stale.pending ==> u.seqNo <= r.lastSeq by {
      if u :| u in stale.pending && u.seqNo > r.lastSeq {
        assert u in r.pending;
      }
      if r.pending != [] {
        assert r.pending[0] in r.pending;
      }
    }
    StaleIsSafe(v, stale, s, order);
    InOrderIsTruth(v, r.lastSeq);
  }

  /** Any backlog of authentic updates, however long, then an authentic snapshot: the oldest
      arrivals beyond the cap are dropped and counted, and the book converges exactly when what was
      kept has no hole after the snapshot. */
  lemma BacklogConverges(v: Venue, st: BookState, ups: seq<Update>, s: Snapshot, order: seq<Update>)
    requires Numbered(v) && st.pending == []
    requires forall u :: u in ups ==> Authentic(v, u) && (st.synced ==> u.seqNo > st.lastSeq + 1)
    requires AuthenticSnapshot(v, s) && SortedPermutation(order, Kept(ups))
    ensures var stale, r := ApplyAll(st, ups), ApplySnapshot(ApplyAll(st, ups), s, order);
            && stale.pending == Kept(ups) && stale.dropped == r.dropped == st.dropped + (|ups| - |Kept(ups)|)
            && (r.synced <==> NoHoles(Kept(ups), s.seqNo))
            && (r.synced ==> r.lastSeq <= |v.updates| && IsHighest(Kept(ups), s.seqNo, r.lastSeq)
                             && r.(gaps := 0, resyncs := 0, dropped := 0) == InOrder(v, r.lastSeq))
  {
    AllBuffered(st, ups);
    SnapshotConverges(v, ApplyAll(st, ups), s, order);
  }

  /** Updates h + 1 to n arriving in order: the snapshot that ends the backlog must reach h, and must
      be no further behind n than the buffer's 100,000 updates. */
  lemma InOrderBacklog(v: Venue, st: BookState, h: nat, n: nat, s: Snapshot, order: seq<Update>)
    requires Numbered(v) && st.pending == [] && h < n <= |v.updates| && (st.synced ==> st.lastSeq < h)
    requires AuthenticSnapshot(v, s) && SortedPermutation(order, Kept(v.updates[h..n]))
    ensures ApplySnapshot(ApplyAll(st, v.updates[h..n]), s, order).synced
            <==> h <= s.seqNo && n - s.seqNo <= 100_000
  {
    RangeIsAuthentic(v, h, n);
    BacklogConverges(v, st, v.updates[h..n], s, order);
    KeptHoles(v, h, n, s.seqNo);
  }

  lemma RangeIsAuthentic(v: Venue, h: nat, n: nat)
    requires Numbered(v) && h <= n <= |v.updates|
    ensures forall u :: u in v.updates[h..n] ==> Authentic(v, u) && u.seqNo > h
  {
  }

  lemma KeptHoles(v: Venue, h: nat, n: nat, s: nat)
    requires Numbered(v) && h < n <= |v.updates|
    ensures NoHoles(Kept(v.updates[h..n]), s) <==> h <= s && n - s <= MAX_PENDING
  {
    var from := n - Min(n - h, MAX_PENDING);
    assert Kept(v.updates[h..n]) == v.updates[from..n];
    RangeHoles(v, from, n, s);
  }

  lemma RangeHoles(v: Venue, from: nat, n: nat, s: nat)
    requires Numbered(v) && from < n <= |v.updates|
    ensures NoHoles(v.updates[from..n], s) <==> from <= s
  {
    var ups := v.updates[from..n];
    forall q: nat
      ensures HasSeq(ups, q) <==> from < q <= n
    {
      if from < q <= n {
        assert ups[q - 1 - from].seqNo == q;
      }
    }
    assert ups[|ups| - 1] in ups && ups[|ups| - 1].seqNo == n;
    if s < from {
      assert !HasSeq(ups, from);
    }
  }

  lemma OrderMembers(order: seq<Update>, ups: seq<Update>)
    requires SortedPermutation(order, ups)
    ensures forall u :: u in order <==> u in ups
  {
    assert forall u :: u in order <==> u in multiset(order);
    assert forall u :: u in ups <==> u in multiset(ups);
  }

  lemma NoHolesIff(ups: seq<Update>, s: nat, end: nat)
    requires ContiguousEnd(ups, s, end)
    ensures NoHoles(ups, s) <==> forall u :: u in ups ==> u.seqNo <= end
    ensures end == s || HasSeq(ups, end)
  {
    forall u | u in ups && u.seqNo > end
      ensures !NoHoles(ups, s)
    {
      assert !HasSeq(ups, end + 1) && s < end + 1 <= u.seqNo;
    }
  }

  /** After a gap, or before any snapshot: everything from h to n arrives in any order, then an
      authentic snapshot at s. The book converges to in-order application of the first max(s, n)
      updates exactly when the snapshot reaches the buffered range (s >= h - 1); otherwise the
      whole buffer is kept for the next snapshot. */
  lemma ResyncConverges(v: Venue, st: BookState, h: nat, n: nat, ups: seq<Update>, s: Snapshot, order: seq<Update>)
    requires Numbered(v) && 1 <= h <= n <= |v.updates|
    requires st.pending == [] && (st.synced ==> st.lastSeq + 1 < h)
    requires Covers(v, ups, h, n) && |ups| <= MAX_PENDING
    requires AuthenticSnapshot(v, s) && SortedPermutation(order, ups)
    ensures var stale, r := ApplyAll(st, ups), ApplySnapshot(ApplyAll(st, ups), s, order);
            && stale.pending == ups && !stale.synced
            && stale.gaps == st.gaps + (if st.synced then 1 else 0)
            && r.resyncs == st.resyncs + (if st.lastSeq != 0 then 1 else 0)
            && (r.synced <==> s.seqNo >= h - 1)
            && (r.synced ==>
                  var m := Max(s.seqNo, n);
                  r.(gaps := 0, resyncs := 0, dropped := 0) == InOrder(v, m) && r.gaps == stale.gaps)
            && (!r.synced ==> r.pending == order && r.lastSeq == s.seqNo
                              && r.levels == InOrder(v, s.seqNo).levels && r.gaps == stale.gaps + 1)
  {
    assert HasSeq(ups, n);
    AllBuffered(st, ups);
    var stale := ApplyAll(st, ups);
    ExactReplay(stale, s, order);
    var r := ApplySnapshot(stale, s, order);
    ConvergedTo(ups, h, n, s.seqNo, r.lastSeq);
    forall u | u in order
      ensures Authentic(v, u) && h <= u.seqNo <= n
    {
      assert u in multiset(ups);
    }
    StaleIsSafe(v, stale, s, order);
    InOrderIsTruth(v, r.lastSeq);
    if s.seqNo >= h - 1 {
      NewerOfOld(order, r.lastSeq);
    } else {
      NewerOfNew(order, r.lastSeq);
      assert ups[0] in multiset(order);
    }
  }

  lemma StaleIsSafe(v: Venue, stale: BookState, s: Snapshot, order: seq<Update>)
    requires Numbered(v) && AuthenticSnapshot(v, s)
    requires |stale.pending| <= MAX_PENDING && forall u :: u in order ==> Authentic(v, u)
    ensures Safe(v, ApplySnapshot(stale, s, order), true)
  {
    FoldHasNoZero(v.base, v.updates[..s.seqNo]);
    ApplyAllKeepsSafe(v, Seed(stale, s), order, true);
  }

  lemma ConvergedTo(ups: seq<Update>, h: nat, n: nat, s: nat, end: nat)
    requires 1 <= h <= n
    requires forall u :: u in ups ==> h <= u.seqNo <= n
    requires forall q :: h <= q <= n ==> HasSeq(ups, q)
    requires ContiguousEnd(ups, s, end)
    ensures end == if s >= h - 1 then Max(s, n) else s
  {
    if s < end {
      assert HasSeq(ups, s + 1) && HasSeq(ups, end);
    }
  }

  lemma {:induction false} NewerOfNew(ups: seq<Update>, n: nat)
    requires forall u :: u in ups ==> u.seqNo > n
    ensures Newer(ups, n) == ups
  {
    if ups != [] {
      NewerOfNew(ups[..|ups| - 1], n);
      assert ups == ups[..|ups| - 1] + [ups[|ups| - 1]];
    }
  }
}
