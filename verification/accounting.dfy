/** Every update handed to the book is accounted for, and the counters mean what they say. */
module Accounting {
  import opened Norm
  import opened Engine
  import opened Replaying

  /** Where each update went. silent counts the recoveries that resyncs does not see: those made
      while lastSeq is still zero. */
  datatype Ledger = Ledger(
    handed: multiset<Update>,
    applied: multiset<Update>,
    ignored: multiset<Update>,
    dropped: multiset<Update>,
    silent: nat)

  const NO_ENTRIES := Ledger(multiset{}, multiset{}, multiset{}, multiset{}, 0)

  /** The entry one Apply makes, read off the book it is applied to. */
  function Charge(l: Ledger, st: BookState, u: Update): Ledger {
    if st.synced && u.seqNo <= st.lastSeq then l.(ignored := l.ignored + multiset{u})
    else if st.synced && u.seqNo == st.lastSeq + 1 then l.(applied := l.applied + multiset{u})
    else if |st.pending| >= MAX_PENDING then l.(dropped := l.dropped + multiset{st.pending[0]})
    else l
  }

  function ChargeAll(l: Ledger, st: BookState, ups: seq<Update>): Ledger {
    if ups == [] then l
    else
      var init := ups[..|ups| - 1];
      Charge(ChargeAll(l, st, init), ApplyAll(st, init), ups[|ups| - 1])
  }

  ghost predicate SilentRecovery(st: BookState, seeded: bool, e: Event) {
    e.Reseed? && seeded && !st.synced && st.lastSeq == 0
  }

  ghost function NoteRecovery(l: Ledger, silent: bool): Ledger {
    l.(silent := l.silent + if silent then 1 else 0)
  }

  ghost function Enter(l: Ledger, st: BookState, seeded: bool, e: Event): Ledger {
    match e
    case Deliver(u) => Charge(l.(handed := l.handed + multiset{u}), st, u)
    case Reseed(s, order) => ChargeAll(NoteRecovery(l, SilentRecovery(st, seeded, e)), Seed(st, s), order)
  }

  ghost function LedgerOf(events: seq<Event>): Ledger {
    if events == [] then NO_ENTRIES
    else
      var init := events[..|events| - 1];
      Enter(LedgerOf(init), Run(NEW_BOOK, init), EverSeeded(init), events[|events| - 1])
  }

  ghost predicate Balanced(l: Ledger, st: BookState) {
    && l.handed == l.applied + l.ignored + l.dropped + multiset(st.pending)
    && |l.dropped| == st.dropped
  }

  /** Everything but due is accounted for. */
  ghost predicate Owed(l: Ledger, st: BookState, due: multiset<Update>) {
    && l.handed == l.applied + l.ignored + l.dropped + multiset(st.pending) + due
    && |l.dropped| == st.dropped
  }

  ghost predicate CountersLawful(l: Ledger, st: BookState, seeded: bool) {
    && |st.pending| <= MAX_PENDING
    && (st.synced ==> seeded && st.pending == [])
    && (seeded && !st.synced ==> st.pending != [])
    && (!seeded ==> st.lastSeq == 0 && l.silent == 0)
    && st.gaps == st.resyncs + l.silent + (if seeded && !st.synced then 1 else 0)
  }

  lemma ChargeBalances(l: Ledger, st: BookState, u: Update)
    requires Owed(l, st, multiset{u})
    ensures Balanced(Charge(l, st, u), Apply(st, u))
  {
    if !st.synced {
      BufferBalances(l, st, u);
    } else if u.seqNo > st.lastSeq + 1 {
      BufferBalances(l, st.(gaps := st.gaps + 1, synced := false), u);
    } else {
      SettledBalances(l, st, u);
    }
  }

  /** An update that is applied or ignored at once never reaches the buffer. */
  lemma SettledBalances(l: Ledger, st: BookState, u: Update)
    requires Owed(l, st, multiset{u}) && st.synced && u.seqNo <= st.lastSeq + 1
    ensures Balanced(Charge(l, st, u), Apply(st, u))
  {
    var l', st' := Charge(l, st, u), Apply(st, u);
    assert st'.pending == st.pending && l'.dropped == l.dropped;
    forall x
      ensures l'.handed[x] == l'.applied[x] + l'.ignored[x] + l'.dropped[x] + multiset(st'.pending)[x]
    {
    }
    SameMultiset(l'.handed, l'.applied + l'.ignored + l'.dropped + multiset(st'.pending));
  }

  lemma SameMultiset<T(!new)>(a: multiset<T>, b: multiset<T>)
    requires forall x :: a[x] == b[x]
    ensures a == b
  {
  }

  lemma BufferBalances(l: Ledger, st: BookState, u: Update)
    requires Owed(l, st, multiset{u}) && !st.synced
    ensures Balanced(Charge(l, st, u), Buffer(st, u))
  {
    BufferKeeps(st, u);
    var l', st' := Charge(l, st, u), Buffer(st, u);
    var gone := if |st.pending| >= MAX_PENDING then multiset{st.pending[0]} else multiset{};
    forall x
      ensures l'.handed[x] == l'.applied[x] + l'.ignored[x] + l'.dropped[x] + multiset(st'.pending)[x]
    {
      assert (multiset(st'.pending) + gone)[x] == (multiset(st.pending) + multiset{u})[x];
      assert l'.dropped[x] == l.dropped[x] + gone[x];
      assert l.handed[x] == l.applied[x] + l.ignored[x] + l.dropped[x] + multiset(st.pending)[x] + multiset{u}[x];
    }
    SameMultiset(l'.handed, l'.applied + l'.ignored + l'.dropped + multiset(st'.pending));
  }

  /** Buffering adds u and, at the cap, takes the oldest away. */
  lemma BufferKeeps(st: BookState, u: Update)
    ensures multiset(Buffer(st, u).pending) + (if |st.pending| >= MAX_PENDING then multiset{st.pending[0]} else multiset{})
         == multiset(st.pending) + multiset{u}
  {
    if |st.pending| >= MAX_PENDING {
      assert st.pending == [st.pending[0]] + st.pending[1..];
    }
  }

  /** The entries say what became of the book: applied moves lastSeq, ignored leaves everything as
      it was, dropped costs the oldest of the buffer. */
  lemma ChargeFollowsBook(l: Ledger, st: BookState, u: Update)
    ensures var l', st' := Charge(l, st, u), Apply(st, u);
            && l'.applied == l.applied + (if st'.lastSeq != st.lastSeq then multiset{u} else multiset{})
            && l'.ignored == l.ignored + (if st' == st then multiset{u} else multiset{})
            && (st'.dropped != st.dropped ==> st.pending != [])
            && l'.dropped == l.dropped + (if st'.dropped != st.dropped then multiset{st.pending[0]} else multiset{})
  {
    var st' := Apply(st, u);
    assert l.applied + multiset{} == l.applied && l.ignored + multiset{} == l.ignored && l.dropped + multiset{} == l.dropped;
    assert !st.synced || u.seqNo > st.lastSeq + 1 ==> st'.dropped != st.dropped || |st'.pending| != |st.pending|;
  }

  lemma {:induction false} ChargeAllBalances(l: Ledger, st: BookState, ups: seq<Update>)
    requires Owed(l, st, multiset(ups))
    ensures Balanced(ChargeAll(l, st, ups), ApplyAll(st, ups))
    decreases |ups|
  {
    if ups != [] {
      var init, u := ups[..|ups| - 1], ups[|ups| - 1];
      assert ups == init + [u];
      var held := multiset{u};
      ChargeAllBalances(l.(handed := l.handed - held), st, init);
      HandedIsKept(l, l.handed - held, st, init);
      ChargesAreVisible(l, st, init);
      ChargeBalances(ChargeAll(l, st, init), ApplyAll(st, init), u);
    }
  }

  lemma {:induction false} HandedIsKept(l: Ledger, h: multiset<Update>, st: BookState, ups: seq<Update>)
    ensures ChargeAll(l.(handed := h), st, ups) == ChargeAll(l, st, ups).(handed := h)
  {
    if ups != [] {
      HandedIsKept(l, h, st, ups[..|ups| - 1]);
    }
  }

  lemma {:induction false} ChargesAreVisible(l: Ledger, st: BookState, ups: seq<Update>)
    ensures ChargeAll(l, st, ups).handed == l.handed && ChargeAll(l, st, ups).silent == l.silent
  {
    if ups != [] {
      ChargesAreVisible(l, st, ups[..|ups| - 1]);
    }
  }

  lemma {:induction false} EverSeededStep(events: seq<Event>)
    requires events != []
    ensures EverSeeded(events) == (EverSeeded(events[..|events| - 1]) || events[|events| - 1].Reseed?)
  {
    var init := events[..|events| - 1];
    if EverSeeded(init) {
      var i :| 0 <= i < |init| && init[i].Reseed?;
      assert events[i].Reseed?;
    }
  }

  lemma EnterCountsSilent(l: Ledger, st: BookState, seeded: bool, e: Event)
    ensures Enter(l, st, seeded, e).silent == l.silent + (if SilentRecovery(st, seeded, e) then 1 else 0)
  {
    match e
    case Deliver(u) =>
    case Reseed(s, order) => ChargesAreVisible(NoteRecovery(l, SilentRecovery(st, seeded, e)), Seed(st, s), order);
  }

  lemma EnterBalances(l: Ledger, st: BookState, seeded: bool, e: Event)
    requires Balanced(l, st) && Enabled(st, e)
    ensures Balanced(Enter(l, st, seeded, e), Step(st, e))
  {
    match e
    case Deliver(u) => ChargeBalances(l.(handed := l.handed + multiset{u}), st, u);
    case Reseed(s, order) =>
      ChargeAllBalances(NoteRecovery(l, SilentRecovery(st, seeded, e)), Seed(st, s), order);
  }

  lemma EnterIsLawful(l: Ledger, st: BookState, seeded: bool, e: Event)
    requires CountersLawful(l, st, seeded) && Enabled(st, e)
    ensures CountersLawful(Enter(l, st, seeded, e), Step(st, e), seeded || e.Reseed?)
  {
    EnterCountsSilent(l, st, seeded, e);
    if e.Reseed? {
      ExactReplay(st, e.snapshot, e.order);
      var r := Step(st, e);
      assert |r.pending| <= MAX_PENDING by {
        SameLength(e.order, st.pending);
        NewerMembers(e.order, r.lastSeq);
      }
    }
  }

  /** In every reachable state applied, ignored, dropped and pending make up exactly what was
      handed over, and dropped counts what the cap threw away. */
  lemma {:induction false} RunsBalance(events: seq<Event>)
    requires ValidRun(NEW_BOOK, events)
    ensures Balanced(LedgerOf(events), Run(NEW_BOOK, events))
  {
    if events != [] {
      var init := events[..|events| - 1];
      RunsBalance(init);
      EnterBalances(LedgerOf(init), Run(NEW_BOOK, init), EverSeeded(init), events[|events| - 1]);
    }
  }

  /** In every reachable state the buffer is bounded, empty when synced and non-empty after a gap;
      and gaps exceeds resyncs by the outstanding gap plus the recoveries made at lastSeq zero. */
  lemma {:induction false} RunsAreLawful(events: seq<Event>)
    requires ValidRun(NEW_BOOK, events)
    ensures CountersLawful(LedgerOf(events), Run(NEW_BOOK, events), EverSeeded(events))
  {
    if events != [] {
      var init := events[..|events| - 1];
      RunsAreLawful(init);
      EverSeededStep(events);
      EnterIsLawful(LedgerOf(init), Run(NEW_BOOK, init), EverSeeded(init), events[|events| - 1]);
    }
  }

  /** Re-buffering during a replay never drops: only a full buffer meeting a new update does. */
  lemma OnlyNewUpdatesDrop(st: BookState, e: Event)
    requires |st.pending| <= MAX_PENDING && Enabled(st, e)
    ensures Step(st, e).dropped != st.dropped <==>
            e.Deliver? && |st.pending| == 100_000 && (!st.synced || e.update.seqNo > st.lastSeq + 1)
  {
    if e.Reseed? {
      ExactReplay(st, e.snapshot, e.order);
    }
  }

  /** gaps - resyncs says "a gap is outstanding" exactly when no recovery was made at lastSeq zero. */
  ghost predicate CountersAgree(st: BookState, seeded: bool) {
    st.gaps - st.resyncs == if seeded && !st.synced then 1 else 0
  }

  /** Event i of the run recovers from a gap without resyncs noticing. */
  ghost predicate SilentAt(events: seq<Event>, i: nat)
    requires i < |events|
  {
    SilentRecovery(Run(NEW_BOOK, events[..i]), EverSeeded(events[..i]), events[i])
  }

  ghost predicate NeverSilent(events: seq<Event>) {
    forall i :: 0 <= i < |events| ==> !SilentAt(events, i)
  }

  lemma NeverSilentStep(events: seq<Event>)
    requires events != []
    ensures NeverSilent(events) <==>
            NeverSilent(events[..|events| - 1]) && !SilentAt(events, |events| - 1)
  {
    var init := events[..|events| - 1];
    forall i | 0 <= i < |init|
      ensures SilentAt(events, i) <==> SilentAt(init, i)
    {
      assert init[..i] == events[..i];
    }
  }

  lemma {:induction false} SilentCount(events: seq<Event>)
    ensures LedgerOf(events).silent == 0 <==> NeverSilent(events)
  {
    if events != [] {
      var init, e := events[..|events| - 1], events[|events| - 1];
      SilentCount(init);
      NeverSilentStep(events);
      EnterCountsSilent(LedgerOf(init), Run(NEW_BOOK, init), EverSeeded(init), e);
    }
  }

  lemma CountersAgreeIff(events: seq<Event>)
    requires ValidRun(NEW_BOOK, events)
    ensures CountersAgree(Run(NEW_BOOK, events), EverSeeded(events)) <==>
            NeverSilent(events)
  {
    RunsAreLawful(events);
    SilentCount(events);
  }

  /** What the connectors guarantee: with every snapshot numbered from one, the law always holds,
      and lastSeq itself tells a seeded book from a new one. */
  lemma PositiveSnapshotsCount(events: seq<Event>)
    requires ValidRun(NEW_BOOK, events)
    requires forall e :: e in events && e.Reseed? ==> e.snapshot.seqNo >= 1
    ensures Run(NEW_BOOK, events).lastSeq != 0 <==> EverSeeded(events)
    ensures CountersAgree(Run(NEW_BOOK, events), Run(NEW_BOOK, events).lastSeq != 0)
  {
    PositiveIsNeverSilent(events);
    var agree := CountersAgree(Run(NEW_BOOK, events), EverSeeded(events));
    assert agree by { CountersAgreeIff(events); }
  }

  lemma {:induction false} PositiveIsNeverSilent(events: seq<Event>)
    requires ValidRun(NEW_BOOK, events)
    requires forall e :: e in events && e.Reseed? ==> e.snapshot.seqNo >= 1
    ensures NeverSilent(events)
    ensures EverSeeded(events) <==> Run(NEW_BOOK, events).lastSeq != 0
  {
    if events != [] {
      var init, e := events[..|events| - 1], events[|events| - 1];
      PositiveIsNeverSilent(init);
      RunsAreLawful(init);
      EverSeededStep(events);
      NeverSilentStep(events);
      StaysPositive(Run(NEW_BOOK, init), e);
    }
  }

  lemma StaysPositive(st: BookState, e: Event)
    requires |st.pending| <= MAX_PENDING && Enabled(st, e)
    requires e.Reseed? ==> e.snapshot.seqNo >= 1
    ensures Step(st, e).lastSeq >= if e.Reseed? then 1 else st.lastSeq
  {
    if e.Reseed? {
      ExactReplay(st, e.snapshot, e.order);
    }
  }

  lemma OneMore(events: seq<Event>, e: Event)
    ensures Run(NEW_BOOK, events + [e]) == Step(Run(NEW_BOOK, events), e)
    ensures ValidRun(NEW_BOOK, events + [e]) == (ValidRun(NEW_BOOK, events) && Enabled(Run(NEW_BOOK, events), e))
  {
    assert (events + [e])[..|events + [e]| - 1] == events;
  }

  lemma GapAtZero(u: Update)
    requires u.seqNo == 2
    ensures var events := [Reseed(Snapshot([], [], 0), []), Deliver(u)];
            ValidRun(NEW_BOOK, events) && Run(NEW_BOOK, events) == NEW_BOOK.(pending := [u], gaps := 1)
  {
    var e0, e1 := Reseed(Snapshot([], [], 0), []), Deliver(u);
    OneMore([], e0);
    OneMore([e0], e1);
    assert [e0] == [] + [e0] && [e0, e1] == [e0] + [e1];
    assert Run(NEW_BOOK, [e0]) == NEW_BOOK.(synced := true);
  }

  /** A run that meets a gap at lastSeq zero: one gap, recovered, and no resync counted. */
  lemma SnapshotAtZeroUndercounts()
    ensures exists events ::
              && ValidRun(NEW_BOOK, events)
              && Run(NEW_BOOK, events).synced
              && Run(NEW_BOOK, events).gaps == 1 && Run(NEW_BOOK, events).resyncs == 0
  {
    var u := Update(Buy, 100, 1, 2, false);
    var e0, e1, e2 := Reseed(Snapshot([], [], 0), []), Deliver(u), Reseed(Snapshot([], [], 2), [u]);
    GapAtZero(u);
    OneMore([e0, e1], e2);
    ReplaySkipsOld(Seed(NEW_BOOK.(pending := [u], gaps := 1), e2.snapshot), [u]);
    assert ValidRun(NEW_BOOK, [e0, e1] + [e2]);
  }
}
