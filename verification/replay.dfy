/** Exact replay: what ApplySnapshot does to the buffered updates, for every order the
    unstable sort may choose. */
module Replaying {
  import opened Norm
  import opened Engine

  predicate HasSeq(ups: seq<Update>, q: nat) {
    exists i :: 0 <= i < |ups| && ups[i].seqNo == q
  }

  /** n is the end of the unbroken range of numbers that starts just after s. */
  ghost predicate ContiguousEnd(ups: seq<Update>, s: nat, n: nat) {
    && s <= n
    && (forall q :: s < q <= n ==> HasSeq(ups, q))
    && !HasSeq(ups, n + 1)
  }

  /** The elements numbered above n, in the order given. */
  function Newer(ups: seq<Update>, n: nat): seq<Update> {
    if ups == [] then []
    else
      var rest, u := Newer(ups[..|ups| - 1], n), ups[|ups| - 1];
      if u.seqNo > n then rest + [u] else rest
  }

  /** ups[..] numbered s + 1, s + 2, ..., each taken from pool. */
  ghost predicate NumberedFrom(ups: seq<Update>, s: nat, pool: seq<Update>) {
    forall i :: 0 <= i < |ups| ==> ups[i].seqNo == s + 1 + i && ups[i] in pool
  }

  /** The updates a replay applies: for each number in turn, the first of the order that bears it. */
  ghost function Applied(order: seq<Update>, s: nat): (r: seq<Update>)
    ensures NumberedFrom(r, s, order)
  {
    if order == [] then []
    else
      var rest, u := Applied(order[..|order| - 1], s), order[|order| - 1];
      if u.seqNo == s + |rest| + 1 then rest + [u] else rest
  }

  lemma ContiguousEndUnique(a: seq<Update>, b: seq<Update>, s: nat, n: nat, m: nat)
    requires multiset(a) == multiset(b)
    requires ContiguousEnd(a, s, n) && ContiguousEnd(b, s, m)
    ensures n == m
  {
    SameSeqs(a, b, n + 1);
    SameSeqs(a, b, m + 1);
  }

  lemma SameSeqs(a: seq<Update>, b: seq<Update>, q: nat)
    requires multiset(a) == multiset(b)
    ensures HasSeq(a, q) <==> HasSeq(b, q)
  {
    if i :| 0 <= i < |a| && a[i].seqNo == q {
      assert a[i] in multiset(b);
    }
    if i :| 0 <= i < |b| && b[i].seqNo == q {
      assert b[i] in multiset(a);
    }
  }

  lemma {:induction false} NewerMembers(ups: seq<Update>, n: nat)
    ensures forall u :: u in Newer(ups, n) <==> u in ups && u.seqNo > n
    ensures |Newer(ups, n)| <= |ups|
  {
    if ups != [] {
      NewerMembers(ups[..|ups| - 1], n);
      assert ups == ups[..|ups| - 1] + [ups[|ups| - 1]];
    }
  }

  lemma {:induction false} NewerCount(ups: seq<Update>, n: nat, u: Update)
    ensures multiset(Newer(ups, n))[u] == if u.seqNo > n then multiset(ups)[u] else 0
  {
    if ups != [] {
      var init, last := ups[..|ups| - 1], ups[|ups| - 1];
      NewerCount(init, n, u);
      assert ups == init + [last];
    }
  }

  lemma NewerCounts(ups: seq<Update>, n: nat, pool: seq<Update>)
    requires multiset(ups) == multiset(pool)
    ensures forall u :: multiset(Newer(ups, n))[u] == if u.seqNo > n then multiset(pool)[u] else 0
  {
    forall u
      ensures multiset(Newer(ups, n))[u] == if u.seqNo > n then multiset(pool)[u] else 0
    {
      NewerCount(ups, n, u);
    }
  }

  lemma AllSameSeqs(a: seq<Update>, b: seq<Update>)
    requires multiset(a) == multiset(b)
    ensures forall q: nat :: HasSeq(a, q) <==> HasSeq(b, q)
  {
    forall q: nat
      ensures HasSeq(a, q) <==> HasSeq(b, q)
    {
      SameSeqs(a, b, q);
    }
  }

  lemma {:induction false} NewerSorted(ups: seq<Update>, n: nat)
    requires SortedBySeq(ups)
    ensures SortedBySeq(Newer(ups, n))
  {
    if ups != [] {
      var init := ups[..|ups| - 1];
      NewerSorted(init, n);
      NewerMembers(init, n);
      assert forall i :: 0 <= i < |Newer(init, n)| ==> Newer(init, n)[i] in init;
    }
  }

  lemma {:induction false} NewerOfOld(ups: seq<Update>, n: nat)
    requires forall u :: u in ups ==> u.seqNo <= n
    ensures Newer(ups, n) == []
  {
    if ups != [] {
      NewerOfOld(ups[..|ups| - 1], n);
    }
  }

  /** The loop invariant of the replay, after the whole of a sorted order. */
  ghost predicate ReplayedTo(st0: BookState, order: seq<Update>, st: BookState) {
    var n := st.lastSeq;
    && st0.lastSeq <= n
    && (forall q :: st0.lastSeq < q <= n ==> HasSeq(order, q))
    && |Applied(order, st0.lastSeq)| == n - st0.lastSeq
    && st.levels == Fold(st0.levels, Applied(order, st0.lastSeq))
    && st.pending == Newer(order, n)
    && st.resyncs == st0.resyncs && st.dropped == st0.dropped
    && (st.synced ==> st.gaps == st0.gaps && (forall u :: u in order ==> u.seqNo <= n))
    && (!st.synced ==>
          && st.gaps == st0.gaps + 1
          && order != [] && order[|order| - 1].seqNo > n + 1
          && (forall u :: u in order ==> u.seqNo != n + 1))
  }

  lemma HasSeqAppend(ups: seq<Update>, u: Update)
    ensures forall q :: HasSeq(ups + [u], q) <==> HasSeq(ups, q) || u.seqNo == q
  {
    forall q | HasSeq(ups, q) || u.seqNo == q
      ensures HasSeq(ups + [u], q)
    {
      if u.seqNo == q {
        assert (ups + [u])[|ups|].seqNo == q;
      } else {
        var i :| 0 <= i < |ups| && ups[i].seqNo == q;
        assert (ups + [u])[i].seqNo == q;
      }
    }
  }

  /** One more buffered update keeps the loop invariant: the synced case ... */
  lemma ReplayStepSynced(st0: BookState, init: seq<Update>, u: Update, st: BookState)
    requires st.synced && ReplayedTo(st0, init, st)
    ensures ReplayedTo(st0, init + [u], Apply(st, u))
  {
    var order, r, done := init + [u], Apply(st, u), Applied(init, st0.lastSeq);
    assert order[..|order| - 1] == init && order[|order| - 1] == u;
    HasSeqAppend(init, u);
    NewerOfOld(init, st.lastSeq);
    if u.seqNo == st.lastSeq + 1 {
      NewerOfOld(order, u.seqNo);
      assert (done + [u])[..|done|] == done;
    } else {
      assert Applied(order, st0.lastSeq) == done;
    }
  }

  /** ... and the case where the replay has already met a gap. */
  lemma ReplayStepUnsynced(st0: BookState, init: seq<Update>, u: Update, st: BookState)
    requires SortedBySeq(init + [u]) && |init| < MAX_PENDING
    requires !st.synced && ReplayedTo(st0, init, st)
    ensures ReplayedTo(st0, init + [u], Apply(st, u))
  {
    var order := init + [u];
    assert order[..|order| - 1] == init && order[|order| - 1] == u;
    assert order[|init| - 1].seqNo <= order[|init|].seqNo;
    HasSeqAppend(init, u);
    NewerMembers(init, st.lastSeq);
  }

  lemma {:induction false} ReplayInvariant(st0: BookState, order: seq<Update>)
    requires st0.synced && st0.pending == []
    requires SortedBySeq(order) && |order| <= MAX_PENDING
    ensures ReplayedTo(st0, order, ApplyAll(st0, order))
  {
    if order != [] {
      var init, u := order[..|order| - 1], order[|order| - 1];
      assert order == init + [u];
      ReplayInvariant(st0, init);
      var st := ApplyAll(st0, init);
      if st.synced {
        ReplayStepSynced(st0, init, u, st);
      } else {
        ReplayStepUnsynced(st0, init, u, st);
      }
    }
  }

  /** Exact replay. The last number reached is the end of the unbroken range after the snapshot;
      each number up to it was applied once, in order; the new buffer is exactly what lies beyond,
      in sequence order and with nothing dropped; and the book is synced iff nothing does. */
  lemma ExactReplay(st: BookState, s: Snapshot, order: seq<Update>)
    requires |st.pending| <= MAX_PENDING
    requires SortedPermutation(order, st.pending)
    ensures var r := ApplySnapshot(st, s, order);
            && ContiguousEnd(st.pending, s.seqNo, r.lastSeq)
            && (forall u :: multiset(r.pending)[u] == if u.seqNo > r.lastSeq then multiset(st.pending)[u] else 0)
            && SortedBySeq(r.pending) && r.pending == Newer(order, r.lastSeq)
            && (r.synced <==> r.pending == [])
            && r.gaps == st.gaps + (if r.pending == [] then 0 else 1)
            && r.resyncs == st.resyncs + (if !st.synced && st.lastSeq != 0 then 1 else 0)
            && r.dropped == st.dropped
            && NumberedFrom(Applied(order, s.seqNo), s.seqNo, st.pending)
            && |Applied(order, s.seqNo)| == r.lastSeq - s.seqNo
            && r.levels == Fold(LoadSnapshot(s), Applied(order, s.seqNo))
  {
    assert |order| == |multiset(order)| == |multiset(st.pending)| == |st.pending|;
    var st0, r := Seed(st, s), ApplySnapshot(st, s, order);
    ReplayInvariant(st0, order);
    NewerMembers(order, r.lastSeq);
    NewerSorted(order, r.lastSeq);
    NewerCounts(order, r.lastSeq, st.pending);
    AllSameSeqs(order, st.pending);
    SyncedIffNoneNewer(st0, order, r);
    assert forall u :: u in order ==> u in multiset(st.pending);
  }

  lemma SyncedIffNoneNewer(st0: BookState, order: seq<Update>, r: BookState)
    requires ReplayedTo(st0, order, r)
    ensures r.synced <==> r.pending == []
  {
    NewerMembers(order, r.lastSeq);
    if r.synced {
      NewerOfOld(order, r.lastSeq);
    } else {
      assert order[|order| - 1] in order && order[|order| - 1] in r.pending;
    }
  }

  ghost predicate EqualSeqEqualUpdate(ups: seq<Update>) {
    forall a, b :: a in ups && b in ups && a.seqNo == b.seqNo ==> a == b
  }

  lemma {:induction false} SortedPermutationUnique(a: seq<Update>, b: seq<Update>)
    requires SortedBySeq(a) && SortedBySeq(b) && multiset(a) == multiset(b)
    requires EqualSeqEqualUpdate(a)
    ensures a == b
  {
    SameLength(a, b);
    if a != [] {
      PeelLast(a, b);
      SortedPermutationUnique(a[..|a| - 1], b[..|b| - 1]);
      assert a == a[..|a| - 1] + [a[|a| - 1]] && b == b[..|b| - 1] + [b[|b| - 1]];
    }
  }

  lemma PeelLast(a: seq<Update>, b: seq<Update>)
    requires a != [] && b != [] && SortedBySeq(a) && SortedBySeq(b) && multiset(a) == multiset(b)
    requires EqualSeqEqualUpdate(a)
    ensures var a0, b0 := a[..|a| - 1], b[..|b| - 1];
            && a[|a| - 1] == b[|b| - 1]
            && SortedBySeq(a0) && SortedBySeq(b0) && multiset(a0) == multiset(b0) && EqualSeqEqualUpdate(a0)
  {
    LastsAgree(a, b);
    RemoveLast(a);
    RemoveLast(b);
  }

  lemma SameLength(a: seq<Update>, b: seq<Update>)
    requires multiset(a) == multiset(b)
    ensures |a| == |b|
  {
    assert |multiset(a)| == |multiset(b)|;
  }

  lemma RemoveLast(a: seq<Update>)
    requires a != [] && SortedBySeq(a)
    ensures var init := a[..|a| - 1];
            && multiset(init) == multiset(a) - multiset{a[|a| - 1]}
            && SortedBySeq(init)
            && (EqualSeqEqualUpdate(a) ==> EqualSeqEqualUpdate(init))
  {
    assert a == a[..|a| - 1] + [a[|a| - 1]];
  }

  lemma LastsAgree(a: seq<Update>, b: seq<Update>)
    requires a != [] && b != [] && SortedBySeq(a) && SortedBySeq(b) && multiset(a) == multiset(b)
    requires EqualSeqEqualUpdate(a)
    ensures a[|a| - 1] == b[|b| - 1]
  {
    var x, y := a[|a| - 1], b[|b| - 1];
    assert x in multiset(b) && y in multiset(a);
    var i :| 0 <= i < |b| && b[i] == x;
    var j :| 0 <= j < |a| && a[j] == y;
    assert x.seqNo <= y.seqNo <= x.seqNo;
  }

  /** The order among equal numbers never matters to the counters, the buffer's contents or how
      far the book gets ... */
  lemma SortOrderIsIrrelevant(st: BookState, s: Snapshot, a: seq<Update>, b: seq<Update>)
    requires |st.pending| <= MAX_PENDING
    requires SortedPermutation(a, st.pending) && SortedPermutation(b, st.pending)
    ensures var x, y := ApplySnapshot(st, s, a), ApplySnapshot(st, s, b);
            && x.(levels := y.levels, pending := y.pending) == y
            && multiset(x.pending) == multiset(y.pending)
  {
    ExactReplay(st, s, a);
    ExactReplay(st, s, b);
    var x, y := ApplySnapshot(st, s, a), ApplySnapshot(st, s, b);
    ContiguousEndUnique(st.pending, st.pending, s.seqNo, x.lastSeq, y.lastSeq);
    SamePending(x.pending, y.pending, st.pending, x.lastSeq);
  }

  lemma SamePending(a: seq<Update>, b: seq<Update>, pool: seq<Update>, n: nat)
    requires forall u :: multiset(a)[u] == if u.seqNo > n then multiset(pool)[u] else 0
    requires forall u :: multiset(b)[u] == if u.seqNo > n then multiset(pool)[u] else 0
    ensures multiset(a) == multiset(b) && (a == [] <==> b == [])
  {
    assert multiset(a) == multiset(b);
    SameLength(a, b);
  }

  /** ... and not at all when equal numbers mean equal updates. */
  lemma SortOrderIsUnique(st: BookState, s: Snapshot, a: seq<Update>, b: seq<Update>)
    requires EqualSeqEqualUpdate(st.pending)
    requires SortedPermutation(a, st.pending) && SortedPermutation(b, st.pending)
    ensures ApplySnapshot(st, s, a) == ApplySnapshot(st, s, b)
  {
    forall u | u in a
      ensures u in st.pending
    {
      assert u in multiset(st.pending);
    }
    SortedPermutationUnique(a, b);
  }

  /** A snapshot numbered at or above the whole buffer makes the replay a no-op. */
  lemma {:induction false} ReplaySkipsOld(st: BookState, ups: seq<Update>)
    requires st.synced && forall u :: u in ups ==> u.seqNo <= st.lastSeq
    ensures ApplyAll(st, ups) == st
  {
    if ups != [] {
      ReplaySkipsOld(st, ups[..|ups| - 1]);
    }
  }
}
