/** The order-book engine as a state machine on values. Class Book (book.dfy) is proved
    against these functions; replay.dfy, runs.dfy and accounting.dfy prove what they keep. */
module Engine {
  import opened Norm

  const MAX_PENDING: nat := 100_000

  datatype BookState = BookState(
    levels: Levels,
    lastSeq: nat,
    synced: bool,
    pending: seq<Update>,
    gaps: nat,
    resyncs: nat,
    dropped: nat)

  const NEW_BOOK := BookState(EMPTY_LEVELS, 0, false, [], 0, 0, 0)

  // ----- Levels ---------------------------------------------------------------------------

  function SetLevel(side: map<int, int>, price: int, size: int): map<int, int> {
    if size == 0 then side - {price} else side[price := size]
  }

  function ApplyDelta(l: Levels, side: Side, price: int, size: int): Levels {
    if side == Sell then l.(asks := SetLevel(l.asks, price, size))
    else l.(bids := SetLevel(l.bids, price, size))
  }

  /** Applies ups in order. */
  function Fold(l: Levels, ups: seq<Update>): Levels {
    if ups == [] then l
    else
      var u := ups[|ups| - 1];
      ApplyDelta(Fold(l, ups[..|ups| - 1]), u.side, u.price, u.size)
  }

  /** The map a snapshot side loads: levels of size zero are skipped. */
  function Load(levels: seq<Level>): map<int, int> {
    if levels == [] then map[]
    else
      var l := levels[|levels| - 1];
      var rest := Load(levels[..|levels| - 1]);
      if l.size != 0 then rest[l.price := l.size] else rest
  }

  function LoadSnapshot(s: Snapshot): Levels {
    Levels(Load(s.bids), Load(s.asks))
  }

  ghost predicate NoZeroSizes(l: Levels) {
    && (forall p :: p in l.bids ==> l.bids[p] != 0)
    && (forall p :: p in l.asks ==> l.asks[p] != 0)
  }

  // ----- Transitions ----------------------------------------------------------------------

  function Buffer(st: BookState, u: Update): BookState {
    if |st.pending| >= MAX_PENDING then
      st.(pending := st.pending[1..] + [u], dropped := st.dropped + 1)
    else
      st.(pending := st.pending + [u])
  }

  function Apply(st: BookState, u: Update): BookState {
    if !st.synced then Buffer(st, u)
    else if u.seqNo < st.lastSeq + 1 then st
    else if u.seqNo > st.lastSeq + 1 then Buffer(st.(gaps := st.gaps + 1, synced := false), u)
    else st.(levels := ApplyDelta(st.levels, u.side, u.price, u.size), lastSeq := u.seqNo)
  }

  /** The first half of ApplySnapshot: everything before the replay of the buffer. */
  function Seed(st: BookState, s: Snapshot): BookState {
    st.(resyncs := st.resyncs + (if !st.synced && st.lastSeq != 0 then 1 else 0),
        levels := LoadSnapshot(s),
        lastSeq := s.seqNo,
        synced := true,
        pending := [])
  }

  /** Hands ups to Apply, one after the other. */
  function ApplyAll(st: BookState, ups: seq<Update>): BookState {
    if ups == [] then st else Apply(ApplyAll(st, ups[..|ups| - 1]), ups[|ups| - 1])
  }

  ghost predicate SortedBySeq(ups: seq<Update>) {
    forall i, j :: 0 <= i < j < |ups| ==> ups[i].seqNo <= ups[j].seqNo
  }

  /** What an unstable sort by sequence number may return: equal numbers in any order. */
  ghost predicate SortedPermutation(order: seq<Update>, ups: seq<Update>) {
    SortedBySeq(order) && multiset(order) == multiset(ups)
  }

  /** ApplySnapshot when the sort put the buffer into the given order. */
  function ApplySnapshot(st: BookState, s: Snapshot, order: seq<Update>): BookState {
    ApplyAll(Seed(st, s), order)
  }

  // ----- Runs -----------------------------------------------------------------------------

  datatype Event = Deliver(update: Update) | Reseed(snapshot: Snapshot, order: seq<Update>)

  ghost predicate Enabled(st: BookState, e: Event) {
    e.Reseed? ==> SortedPermutation(e.order, st.pending)
  }

  function Step(st: BookState, e: Event): BookState {
    match e
    case Deliver(u) => Apply(st, u)
    case Reseed(s, order) => ApplySnapshot(st, s, order)
  }

  function Run(st: BookState, events: seq<Event>): BookState {
    if events == [] then st else Step(Run(st, events[..|events| - 1]), events[|events| - 1])
  }

  ghost predicate ValidRun(st: BookState, events: seq<Event>) {
    events != [] ==>
      && ValidRun(st, events[..|events| - 1])
      && Enabled(Run(st, events[..|events| - 1]), events[|events| - 1])
  }

  ghost predicate EverSeeded(events: seq<Event>) {
    exists i :: 0 <= i < |events| && events[i].Reseed?
  }

  // ----- What the folds mean --------------------------------------------------------------

  /** ups[i] is the last change to (asks?, price) in ups: a Sell changes the asks, all else the bids. */
  ghost predicate LastWrite(ups: seq<Update>, i: int, asks: bool, price: int) {
    && 0 <= i < |ups|
    && ups[i].price == price && (ups[i].side == Sell) == asks
    && forall j :: i < j < |ups| ==> !(ups[j].price == price && (ups[j].side == Sell) == asks)
  }

  /** A level holds exactly what the last change to it said; untouched levels are kept. */
  lemma {:induction false} FoldKeepsLastWrite(l: Levels, ups: seq<Update>, asks: bool, price: int)
    ensures var before, after := (if asks then l.asks else l.bids),
                                 (if asks then Fold(l, ups).asks else Fold(l, ups).bids);
            && (forall i :: LastWrite(ups, i, asks, price) ==>
                  if ups[i].size == 0 then price !in after
                  else price in after && after[price] == ups[i].size)
            && ((forall j :: 0 <= j < |ups| ==> !(ups[j].price == price && (ups[j].side == Sell) == asks)) ==>
                  (price in after <==> price in before) && (price in after ==> after[price] == before[price]))
  {
    if ups != [] {
      var init, u := ups[..|ups| - 1], ups[|ups| - 1];
      FoldKeepsLastWrite(l, init, asks, price);
      DeltaWrites(Fold(l, init), u, asks, price);
      forall i | LastWrite(ups, i, asks, price) && i < |init|
        ensures LastWrite(init, i, asks, price)
      {
      }
    }
  }

  /** One update says what its own level holds and leaves every other level as it was. */
  lemma DeltaWrites(l: Levels, u: Update, asks: bool, price: int)
    ensures var next := ApplyDelta(l, u.side, u.price, u.size);
            var before, after := (if asks then l.asks else l.bids), (if asks then next.asks else next.bids);
            if u.price == price && (u.side == Sell) == asks then
              if u.size == 0 then price !in after else price in after && after[price] == u.size
            else
              (price in after <==> price in before) && (price in after ==> after[price] == before[price])
  {
  }

  /** levels[i] is the last level of its price that is not zero. */
  ghost predicate LastNonzero(levels: seq<Level>, i: int) {
    && 0 <= i < |levels| && levels[i].size != 0
    && forall j :: i < j < |levels| && levels[j].price == levels[i].price ==> levels[j].size == 0
  }

  /** A loaded side holds, for each price, its last nonzero level in the list, and no other price. */
  lemma {:induction false} LoadContents(levels: seq<Level>, p: int)
    ensures forall i :: LastNonzero(levels, i) && levels[i].price == p ==>
              p in Load(levels) && Load(levels)[p] == levels[i].size
    ensures (forall i :: 0 <= i < |levels| && levels[i].price == p ==> levels[i].size == 0) ==> p !in Load(levels)
  {
    if levels != [] {
      var init := levels[..|levels| - 1];
      LoadContents(init, p);
      forall i | LastNonzero(levels, i) && i < |init|
        ensures LastNonzero(init, i)
      {
      }
    }
  }

  lemma {:induction false} LoadHasNoZero(levels: seq<Level>)
    ensures forall p :: p in Load(levels) ==> Load(levels)[p] != 0
  {
    if levels != [] {
      LoadHasNoZero(levels[..|levels| - 1]);
    }
  }

  lemma {:induction false} FoldHasNoZero(l: Levels, ups: seq<Update>)
    requires NoZeroSizes(l)
    ensures NoZeroSizes(Fold(l, ups))
  {
    if ups != [] {
      FoldHasNoZero(l, ups[..|ups| - 1]);
    }
  }

  /** The reported flag is exactly "the book is not synced any more". */
  predicate NeedsSnapshot(st: BookState, u: Update) {
    !st.synced || u.seqNo > st.lastSeq + 1
  }
}
