/** One connection's books: a self-numbered feed per symbol, and the rows handed to persistence. */
module Sessions {
  import opened Norm
  import opened Engine
  import opened Views
  import opened Books
  import opened Numbering
  import opened PersistedLog

  datatype Row = Row(symbol: string, update: Update)

  datatype SessionState = SessionState(feeds: map<string, Feed>, rows: seq<Row>)

  const NEW_SESSION := SessionState(map[], [])

  /** One act on one symbol's book. */
  datatype Item = Item(symbol: string, act: Act)

  ghost function FeedOf(s: SessionState, symbol: string): Feed {
    if symbol in s.feeds then s.feeds[symbol] else NEW_FEED
  }

  function Tag(symbol: string, ups: seq<Update>): seq<Row> {
    seq(|ups|, i requires 0 <= i < |ups| => Row(symbol, ups[i]))
  }

  ghost function Open(s: SessionState, symbol: string): SessionState {
    s.(feeds := s.feeds[symbol := FeedOf(s, symbol)])
  }

  ghost function Take(s: SessionState, item: Item, persist: bool): SessionState {
    var f := FeedOf(s, item.symbol);
    SessionState(
      s.feeds[item.symbol := Perform(f, item.act)],
      if persist then s.rows + Tag(item.symbol, ActRows(f.seqNo, item.act)) else s.rows)
  }

  ghost function TakeAll(s: SessionState, items: seq<Item>, persist: bool): SessionState {
    if items == [] then s
    else Take(TakeAll(s, items[..|items| - 1], persist), items[|items| - 1], persist)
  }

  function FlatMap<T>(xs: seq<T>, f: T -> seq<Item>): seq<Item> {
    if xs == [] then [] else FlatMap(xs[..|xs| - 1], f) + f(xs[|xs| - 1])
  }

  lemma {:induction false} FlatMapAppend<T>(a: seq<T>, b: seq<T>, f: T -> seq<Item>)
    ensures FlatMap(a + b, f) == FlatMap(a, f) + FlatMap(b, f)
  {
    if b == [] {
      assert a + b == a;
    } else {
      var init := b[..|b| - 1];
      assert (a + b)[..|a + b| - 1] == a + init;
      FlatMapAppend(a, init, f);
    }
  }

  // ----- Every symbol's book sees only its own acts ----------------------------------------

  ghost function ActsOf(items: seq<Item>, symbol: string): seq<Act> {
    if items == [] then []
    else
      var rest, last := ActsOf(items[..|items| - 1], symbol), items[|items| - 1];
      if last.symbol == symbol then rest + [last.act] else rest
  }

  ghost function RowsOf(rows: seq<Row>, symbol: string): seq<Update> {
    if rows == [] then []
    else
      var rest, last := RowsOf(rows[..|rows| - 1], symbol), rows[|rows| - 1];
      if last.symbol == symbol then rest + [last.update] else rest
  }

  lemma {:induction false} RowsOfAppend(a: seq<Row>, ups: seq<Update>, tag: string, symbol: string)
    ensures RowsOf(a + Tag(tag, ups), symbol) == RowsOf(a, symbol) + if tag == symbol then ups else []
  {
    if ups == [] {
      assert a + Tag(tag, ups) == a;
    } else {
      var init, u := ups[..|ups| - 1], ups[|ups| - 1];
      RowsOfAppend(a, init, tag, symbol);
      TagNext(a, init, u, tag);
      RowsOfNext(a + Tag(tag, init), Row(tag, u), symbol);
      assert ups == init + [u];
    }
  }

  lemma TagNext(a: seq<Row>, ups: seq<Update>, u: Update, tag: string)
    ensures a + Tag(tag, ups + [u]) == (a + Tag(tag, ups)) + [Row(tag, u)]
  {
  }

  lemma RowsOfNext(rows: seq<Row>, r: Row, symbol: string)
    ensures RowsOf(rows + [r], symbol) == RowsOf(rows, symbol) + if r.symbol == symbol then [r.update] else []
  {
    assert (rows + [r])[..|rows|] == rows;
  }

  /** Whatever the interleaving of symbols, each book and its rows are those of its own acts. */
  lemma {:induction false} SessionsSplit(items: seq<Item>, symbol: string)
    ensures var s := TakeAll(NEW_SESSION, items, true);
            && FeedOf(s, symbol) == RunFeed(ActsOf(items, symbol))
            && RowsOf(s.rows, symbol) == Log(ActsOf(items, symbol))
  {
    if items != [] {
      var init, last := items[..|items| - 1], items[|items| - 1];
      SessionsSplit(init, symbol);
      var s := TakeAll(NEW_SESSION, init, true);
      var f := FeedOf(s, last.symbol);
      RowsOfAppend(s.rows, ActRows(f.seqNo, last.act), last.symbol, symbol);
      if last.symbol == symbol {
        var acts := ActsOf(items, symbol);
        assert acts[..|acts| - 1] == ActsOf(init, symbol);
      }
    }
  }

  lemma {:induction false} TakeAllAppend(s: SessionState, a: seq<Item>, b: seq<Item>, persist: bool)
    ensures TakeAll(s, a + b, persist) == TakeAll(TakeAll(s, a, persist), b, persist)
  {
    if b == [] {
      assert a + b == a;
    } else {
      var init := b[..|b| - 1];
      assert (a + b)[..|a + b| - 1] == a + init;
      TakeAllAppend(s, a, init, persist);
    }
  }

  /** Persisting or not makes no difference to the books; without a sink no row is ever written,
      with one the rows only grow. */
  lemma {:induction false} PersistIsPassive(s: SessionState, items: seq<Item>)
    ensures TakeAll(s, items, true).feeds == TakeAll(s, items, false).feeds
    ensures TakeAll(s, items, false).rows == s.rows <= TakeAll(s, items, true).rows
  {
    if items != [] {
      PersistIsPassive(s, items[..|items| - 1]);
    }
  }

  /** From s to t, changes to one symbol were written: a row each, in order, under the symbol's next
      numbers. */
  ghost predicate RowsOfChanges(s: SessionState, t: SessionState, symbol: string, cs: seq<Change>) {
    var n, from := |s.rows|, FeedOf(s, symbol).seqNo;
    && |t.rows| == n + |cs| && t.rows[..n] == s.rows && FeedOf(t, symbol).seqNo == from + |cs|
    && forall k :: 0 <= k < |cs| ==>
         t.rows[n + k] == Row(symbol, Update(cs[k].side, cs[k].price, cs[k].size, from + 1 + k, false))
  }

  lemma {:induction false} ChangeRows(s: SessionState, symbol: string, cs: seq<Change>)
    ensures RowsOfChanges(s, TakeAll(s, ItemsFor(symbol, AsActs(cs)), true), symbol, cs)
  {
    if cs != [] {
      ChangeRows(s, symbol, cs[..|cs| - 1]);
      ChangeRowsNext(s, symbol, cs);
    }
  }

  lemma ChangeRowsNext(s: SessionState, symbol: string, cs: seq<Change>)
    requires cs != []
    requires RowsOfChanges(s, TakeAll(s, ItemsFor(symbol, AsActs(cs[..|cs| - 1])), true), symbol, cs[..|cs| - 1])
    ensures RowsOfChanges(s, TakeAll(s, ItemsFor(symbol, AsActs(cs)), true), symbol, cs)
  {
    var m := |cs| - 1;
    assert AsActs(cs)[..m] == AsActs(cs[..m]) && AsActs(cs)[..m + 1] == AsActs(cs);
    TakeAllNext(s, symbol, AsActs(cs), m, true);
    OneMoreRow(s, TakeAll(s, ItemsFor(symbol, AsActs(cs[..m])), true), symbol, cs);
  }

  lemma OpenKeepsRows(s: SessionState, t: SessionState, symbol: string, cs: seq<Change>)
    requires RowsOfChanges(s, t, symbol, cs)
    ensures RowsOfChanges(s, Open(t, symbol), symbol, cs)
  {
  }

  lemma OneMoreRow(s: SessionState, t: SessionState, symbol: string, cs: seq<Change>)
    requires cs != [] && RowsOfChanges(s, t, symbol, cs[..|cs| - 1])
    ensures RowsOfChanges(s, Take(t, Item(symbol, TakeChange(cs[|cs| - 1])), true), symbol, cs)
  {
    var c := cs[|cs| - 1];
    var next := Take(t, Item(symbol, TakeChange(c)), true);
    assert next.rows == t.rows + [Row(symbol, Update(c.side, c.price, c.size, FeedOf(t, symbol).seqNo + 1, false))];
  }

  // ----- Items of one frame -----------------------------------------------------------------

  /** acts, all on one symbol. */
  function ItemsFor(symbol: string, acts: seq<Act>): seq<Item> {
    seq(|acts|, i requires 0 <= i < |acts| => Item(symbol, acts[i]))
  }

  lemma {:induction false} ActsOfAppend(a: seq<Item>, b: seq<Item>, symbol: string)
    ensures ActsOf(a + b, symbol) == ActsOf(a, symbol) + ActsOf(b, symbol)
  {
    if b == [] {
      assert a + b == a;
    } else {
      var init := b[..|b| - 1];
      assert (a + b)[..|a + b| - 1] == a + init;
      ActsOfAppend(a, init, symbol);
    }
  }

  lemma {:induction false} ActsOfItemsFor(tag: string, acts: seq<Act>, symbol: string)
    ensures ActsOf(ItemsFor(tag, acts), symbol) == if tag == symbol then acts else []
  {
    if acts != [] {
      var init, items := acts[..|acts| - 1], ItemsFor(tag, acts);
      assert items[..|items| - 1] == ItemsFor(tag, init);
      ActsOfItemsFor(tag, init, symbol);
      assert acts == init + [acts[|acts| - 1]];
    }
  }

  lemma TakeAllNext(s: SessionState, symbol: string, acts: seq<Act>, i: nat, persist: bool)
    requires i < |acts|
    ensures TakeAll(s, ItemsFor(symbol, acts[..i + 1]), persist)
         == Take(TakeAll(s, ItemsFor(symbol, acts[..i]), persist), Item(symbol, acts[i]), persist)
  {
    var items := ItemsFor(symbol, acts[..i + 1]);
    assert items[..i] == ItemsFor(symbol, acts[..i]);
  }

  lemma TakeOne(s: SessionState, symbol: string, a: Act, persist: bool)
    ensures TakeAll(s, ItemsFor(symbol, [a]), persist) == Take(s, Item(symbol, a), persist)
  {
    assert ItemsFor(symbol, [a])[..0] == [];
  }

  /** Opening the book first or last makes no difference. */
  lemma {:induction false} OpenCommutes(s: SessionState, symbol: string, acts: seq<Act>, persist: bool)
    ensures TakeAll(Open(s, symbol), ItemsFor(symbol, acts), persist)
         == Open(TakeAll(s, ItemsFor(symbol, acts), persist), symbol)
    ensures acts != [] ==> Open(TakeAll(s, ItemsFor(symbol, acts), persist), symbol)
                           == TakeAll(s, ItemsFor(symbol, acts), persist)
  {
    if acts != [] {
      var n := |acts| - 1;
      OpenCommutes(s, symbol, acts[..n], persist);
      assert acts[..n + 1] == acts;
      TakeAllNext(s, symbol, acts, n, persist);
      TakeAllNext(Open(s, symbol), symbol, acts, n, persist);
      var t := TakeAll(s, ItemsFor(symbol, acts[..n]), persist);
      TakeOpen(t, Item(symbol, acts[n]), persist);
    }
  }

  lemma TakeBoth(s: SessionState, symbol: string, a: seq<Act>, b: seq<Act>, persist: bool)
    ensures TakeAll(TakeAll(s, ItemsFor(symbol, a), persist), ItemsFor(symbol, b), persist)
         == TakeAll(s, ItemsFor(symbol, a + b), persist)
  {
    TakeAllAppend(s, ItemsFor(symbol, a), ItemsFor(symbol, b), persist);
    assert ItemsFor(symbol, a) + ItemsFor(symbol, b) == ItemsFor(symbol, a + b);
  }

  lemma TakeOpen(s: SessionState, item: Item, persist: bool)
    ensures Take(Open(s, item.symbol), item, persist) == Take(s, item, persist)
    ensures Open(Take(s, item, persist), item.symbol) == Take(s, item, persist)
  {
    var f := Perform(FeedOf(s, item.symbol), item.act);
    assert s.feeds[item.symbol := FeedOf(s, item.symbol)][item.symbol := f] == s.feeds[item.symbol := f];
    assert Take(s, item, persist).feeds[item.symbol := f] == Take(s, item, persist).feeds;
  }

  lemma {:induction false} TakeAllKeepsLawful(s: SessionState, symbol: string, acts: seq<Act>, persist: bool)
    requires Lawful(FeedOf(s, symbol))
    ensures Lawful(FeedOf(TakeAll(s, ItemsFor(symbol, acts), persist), symbol))
  {
    if acts != [] {
      var n := |acts| - 1;
      TakeAllKeepsLawful(s, symbol, acts[..n], persist);
      assert acts[..n + 1] == acts;
      TakeAllNext(s, symbol, acts, n, persist);
      PerformIsLawful(FeedOf(TakeAll(s, ItemsFor(symbol, acts[..n]), persist), symbol), acts[n]);
    }
  }

  /** Changes performed on a seeded feed fold into its levels. */
  lemma {:induction false} TakeChanges(s: SessionState, symbol: string, cs: seq<Change>, persist: bool)
    requires Lawful(FeedOf(s, symbol)) && FeedOf(s, symbol).book.synced
    ensures var f := FeedOf(TakeAll(s, ItemsFor(symbol, AsActs(cs)), persist), symbol);
            Lawful(f) && f.book.synced && f.book.levels == FoldChanges(FeedOf(s, symbol).book.levels, cs)
  {
    if cs != [] {
      var n := |cs| - 1;
      TakeChanges(s, symbol, cs[..n], persist);
      assert AsActs(cs)[..n] == AsActs(cs[..n]) && AsActs(cs)[..n + 1] == AsActs(cs);
      TakeAllNext(s, symbol, AsActs(cs), n, persist);
      var f := FeedOf(TakeAll(s, ItemsFor(symbol, AsActs(cs[..n])), persist), symbol);
      PerformIsLawful(f, TakeChange(cs[n]));
    }
  }

  lemma {:induction false} OthersUntouched(s: SessionState, symbol: string, acts: seq<Act>, other: string, persist: bool)
    requires other != symbol
    ensures FeedOf(TakeAll(s, ItemsFor(symbol, acts), persist), other) == FeedOf(s, other)
  {
    if acts != [] {
      var n := |acts| - 1;
      OthersUntouched(s, symbol, acts[..n], other, persist);
      assert acts[..n + 1] == acts;
      TakeAllNext(s, symbol, acts, n, persist);
    }
  }

  // ----- A session against the acts of one symbol -------------------------------------------

  /** The symbol's book and rows are those of these acts. */
  ghost predicate Tracks(s: SessionState, symbol: string, acts: seq<Act>) {
    FeedOf(s, symbol) == RunFeed(acts) && RowsOf(s.rows, symbol) == Log(acts)
  }

  /** acts, with f after them if it is on the same symbol. */
  function Extended(acts: seq<Act>, f: seq<Act>, same: bool): seq<Act> {
    if same then acts + f else acts
  }

  lemma ExtendedTwice(acts: seq<Act>, f: seq<Act>, n: nat, same: bool)
    requires |f| == n + 1
    ensures Extended(acts, f, same) == Extended(Extended(acts, f[..n], same), [f[n]], same)
  {
    assert f == f[..n] + [f[n]];
  }

  lemma TakeTracks(s: SessionState, symbol: string, acts: seq<Act>, tag: string, a: Act)
    requires Tracks(s, symbol, acts)
    ensures Tracks(Take(s, Item(tag, a), true), symbol, Extended(acts, [a], tag == symbol))
  {
    RowsOfAppend(s.rows, ActRows(FeedOf(s, tag).seqNo, a), tag, symbol);
    assert (acts + [a])[..|acts|] == acts;
  }

  /** A frame on tag extends the acts of symbol only when they are the same. */
  lemma {:induction false} TakeAllTracks(s: SessionState, symbol: string, acts: seq<Act>, tag: string, f: seq<Act>)
    requires Tracks(s, symbol, acts)
    ensures Tracks(TakeAll(s, ItemsFor(tag, f), true), symbol, Extended(acts, f, tag == symbol))
  {
    if f == [] {
      assert acts + [] == acts;
    } else {
      var n := |f| - 1;
      TakeAllTracks(s, symbol, acts, tag, f[..n]);
      assert f[..n + 1] == f;
      TakeAllNext(s, tag, f, n, true);
      var before := Extended(acts, f[..n], tag == symbol);
      TakeTracks(TakeAll(s, ItemsFor(tag, f[..n]), true), symbol, before, tag, f[n]);
      ExtendedTwice(acts, f, n, tag == symbol);
    }
  }

  lemma FrameTracks(s: SessionState, symbol: string, acts: seq<Act>, tag: string, f: seq<Act>)
    requires Tracks(s, symbol, acts)
    ensures var all := Extended(acts, f, tag == symbol);
            && Tracks(TakeAll(s, ItemsFor(tag, f), true), symbol, all)
            && Tracks(Open(TakeAll(s, ItemsFor(tag, f), true), tag), symbol, all)
  {
    TakeAllTracks(s, symbol, acts, tag, f);
  }

  /** Once the symbol has a snapshot, its rows read back as its live book. */
  ghost predicate RowsAgree(s: SessionState, symbol: string) {
    FeedOf(s, symbol).book.synced ==>
      ReadRows(NEW_READER, RowsOf(s.rows, symbol)).levels == FeedOf(s, symbol).book.levels
  }

  lemma RowsAgreeIffLogAgrees(s: SessionState, symbol: string, acts: seq<Act>)
    requires Tracks(s, symbol, acts)
    ensures RowsAgree(s, symbol) <==> LogAgrees(acts)
  {
    SessionsAreLawful(acts);
  }

  // ----- The mutable form -----------------------------------------------------------------

  class SeqBook {
    const book: Book
    var seqNo: nat

    constructor ()
      ensures State() == NEW_FEED && fresh(book)
    {
      book := new Book();
      seqNo := 0;
    }

    ghost function State(): Feed
      reads this, book
    {
      Feed(book.State(), seqNo)
    }

    method Snapshot(bids: seq<Level>, asks: seq<Level>) returns (snap: Norm.Snapshot)
      requires Lawful(State())
      modifies this, book
      ensures State() == Perform(old(State()), TakeSnapshot(bids, asks)) && Lawful(State())
      ensures SnapshotRows(snap) == ActRows(old(seqNo), TakeSnapshot(bids, asks))
    {
      ghost var before := State();
      seqNo := seqNo + 1;
      snap := Norm.Snapshot(bids, asks, seqNo);
      book.ApplySnapshot(snap);
      ghost var order :| SortedPermutation(order, before.book.pending)
                         && book.State() == Engine.ApplySnapshot(before.book, snap, order);
      SnapshotSupersedes(before, bids, asks, order);
      assert book.State() == Seed(before.book, snap);
      PerformIsLawful(before, TakeSnapshot(bids, asks));
    }

    method Change(c: Norm.Change) returns (u: Update)
      requires Lawful(State())
      modifies this, book
      ensures State() == Perform(old(State()), TakeChange(c)) && Lawful(State())
      ensures [u] == ActRows(old(seqNo), TakeChange(c))
    {
      PerformIsLawful(State(), TakeChange(c));
      seqNo := seqNo + 1;
      u := UpdateOf(c, seqNo);
      var _ := book.Apply(u);
    }

    method Trim(n: nat)
      requires Lawful(State())
      modifies book
      ensures State() == Perform(old(State()), TrimTo(n)) && Lawful(State())
    {
      PerformIsLawful(State(), TrimTo(n));
      book.Trim(n);
    }
  }

  class BookTable {
    var books: map<string, SeqBook>
    const persist: bool
    var rows: seq<Row>
    ghost var feeds: map<string, Feed>
    ghost var repr: set<object>

    constructor (persist: bool)
      ensures Valid() && fresh(repr) && State() == NEW_SESSION && this.persist == persist
    {
      books, this.persist, rows, feeds := map[], persist, [], map[];
      repr := {this};
    }

    /** No two symbols share a book, and feeds says what each of them holds. */
    ghost predicate Valid()
      reads this, repr
    {
      && this in repr
      && Distinct() && feeds.Keys == books.Keys
      && forall s :: s in books ==> Matches(s)
    }

    ghost predicate Distinct()
      reads this
    {
      forall s, t :: s in books && t in books && s != t ==> books[s] != books[t] && books[s].book != books[t].book
    }

    ghost predicate Matches(s: string)
      requires s in books && s in feeds
      reads this, repr
    {
      && books[s] in repr && books[s].book in repr
      && books[s].State() == feeds[s] && Lawful(feeds[s])
    }

    ghost function State(): SessionState
      reads this
    {
      SessionState(feeds, rows)
    }

    /** Notes what became of one book while the others stayed as they were. */
    ghost method Record(symbol: string)
      requires this in repr && Distinct() && feeds.Keys + {symbol} == books.Keys
      requires forall s :: s in books && s != symbol ==> Matches(s)
      requires books[symbol] in repr && books[symbol].book in repr && Lawful(books[symbol].State())
      modifies this`feeds
      ensures Valid() && feeds == old(feeds)[symbol := books[symbol].State()]
    {
      feeds := feeds[symbol := books[symbol].State()];
      assert Matches(symbol);
      assert forall s :: s in books && s != symbol ==> old(Matches(s)) && Matches(s);
    }

    method OpenBook(symbol: string)
      requires Valid()
      modifies this
      ensures Valid() && fresh(repr - old(repr)) && symbol in books
      ensures State() == Open(old(State()), symbol)
    {
      if symbol !in books {
        AddBook(symbol);
      }
    }

    method AddBook(symbol: string)
      requires Valid() && symbol !in books
      modifies this
      ensures Valid() && fresh(repr - old(repr)) && symbol in books
      ensures feeds == old(feeds)[symbol := NEW_FEED] && rows == old(rows)
    {
      var sb := new SeqBook();
      assert forall s :: s in books ==> Matches(s) && books[s] != sb && books[s].book != sb.book;
      books := books[symbol := sb];
      repr := repr + {sb, sb.book};
      assert sb.State() == NEW_FEED;
      Record(symbol);
    }

    method Snapshot(symbol: string, bids: seq<Level>, asks: seq<Level>)
      requires Valid() && symbol in books
      modifies this`rows, this`feeds, repr - {this}
      ensures Valid()
      ensures State() == Take(old(State()), Item(symbol, TakeSnapshot(bids, asks)), persist)
    {
      var sb := books[symbol];
      var snap := sb.Snapshot(bids, asks);
      if persist {
        var emitted := EmitSnapshot(snap);
        rows := rows + Tag(symbol, emitted);
      }
      Record(symbol);
    }

    method Change(symbol: string, c: Norm.Change)
      requires Valid() && symbol in books
      modifies this`rows, this`feeds, repr - {this}
      ensures Valid()
      ensures State() == Take(old(State()), Item(symbol, TakeChange(c)), persist)
    {
      var sb := books[symbol];
      var u := sb.Change(c);
      if persist {
        rows := rows + Tag(symbol, [u]);
      }
      Record(symbol);
    }

    method Changes(symbol: string, changes: seq<Norm.Change>)
      requires Valid() && symbol in books
      modifies this`rows, this`feeds, repr - {this}
      ensures Valid()
      ensures State() == TakeAll(old(State()), ItemsFor(symbol, AsActs(changes)), persist)
    {
      ghost var s, acts := State(), AsActs(changes);
      for i := 0 to |changes|
        invariant Valid()
        invariant State() == TakeAll(s, ItemsFor(symbol, acts[..i]), persist)
      {
        TakeAllNext(s, symbol, acts, i, persist);
        Change(symbol, changes[i]);
      }
      assert acts[..|acts|] == acts;
    }

    method Trim(symbol: string, n: nat)
      requires Valid() && symbol in books
      modifies this`rows, this`feeds, repr - {this}
      ensures Valid()
      ensures State() == Take(old(State()), Item(symbol, TrimTo(n)), persist)
    {
      var sb := books[symbol];
      sb.Trim(n);
      assert rows + Tag(symbol, []) == rows;
      Record(symbol);
    }
  }
}
