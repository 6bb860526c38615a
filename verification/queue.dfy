/** The durable-log consumer as a crash-tolerant step protocol: fetch, decode, insert, ack or nak.
    A crash may come between any two steps; the log redelivers whatever is not acked. */
module Queue {
  import opened Norm

  const FETCH_LIMIT: nat := 500

  /** A logged message: its sequence in the stream, and its row if the payload decodes. */
  datatype Msg<T> = Msg(id: nat, row: Option<T>)

  /** Where the consume loop stands. rows and msgs grow together while decoding. */
  datatype Loop<T> =
    | Fetching
    | Decoding(todo: seq<Msg<T>>, msgs: seq<Msg<T>>, rows: seq<T>)
    | Inserting(msgs: seq<Msg<T>>, rows: seq<T>)
    | Acking(msgs: seq<Msg<T>>)
    | Naking(msgs: seq<Msg<T>>)
    | Stopped

  datatype State<T(==)> = State(
    published: set<Msg<T>>,  // everything the log ever took
    log: set<Msg<T>>,        // what it still holds
    inserted: seq<T>,        // rows the sink has written, repeats included
    written: set<Msg<T>>,    // the messages they came from
    loop: Loop<T>)

  ghost function Init<T(!new)>(): State<T> {
    State({}, {}, [], {}, Fetching)
  }

  datatype Step<T> =
    | Publish(msg: Msg<T>)
    | Fetch(batch: seq<Msg<T>>)      // any un-acked messages, in any order, repeats included
    | FetchFails
    | DecodeNext(acked: bool)        // acked: the ack of a poison message got through
    | DecodeDone
    | InsertSucceeds
    | InsertFails(partial: nat)      // a failed insert may have written some of the batch
    | AckNext(arrived: bool)
    | NakNext
    | ContextDone                    // the loop's condition sees cancellation
    | Crash                          // and a restart with nothing in hand

  ghost predicate Enabled<T(!new)>(s: State<T>, e: Step<T>) {
    match e
    case Publish(m) => forall p :: p in s.published ==> p.id != m.id
    case Fetch(batch) => s.loop.Fetching? && |batch| <= FETCH_LIMIT && forall m :: m in batch ==> m in s.log
    case FetchFails => s.loop.Fetching?
    case DecodeNext(_) => s.loop.Decoding? && s.loop.todo != []
    case DecodeDone => s.loop.Decoding? && s.loop.todo == []
    case InsertSucceeds => s.loop.Inserting?
    case InsertFails(partial) => s.loop.Inserting? && partial <= |s.loop.rows|
    case AckNext(_) => s.loop.Acking? && s.loop.msgs != []
    case NakNext => s.loop.Naking? && s.loop.msgs != []
    case ContextDone => s.loop.Fetching?
    case Crash => true
  }

  ghost function Elements<T>(s: seq<T>): set<T> { set x | x in s }

  function AfterReplies<T>(msgs: seq<Msg<T>>, acking: bool): Loop<T> {
    if msgs == [] then Fetching else if acking then Acking(msgs) else Naking(msgs)
  }

  ghost function Apply<T(!new)>(s: State<T>, e: Step<T>): State<T>
    requires Enabled(s, e)
  {
    match e
    case Publish(m) => s.(published := s.published + {m}, log := s.log + {m})
    case Fetch(batch) => s.(loop := Decoding(batch, [], []))
    case FetchFails => s
    case DecodeNext(acked) =>
      var m, l := s.loop.todo[0], s.loop.(todo := s.loop.todo[1..]);
      if m.row.Some? then s.(loop := l.(msgs := l.msgs + [m], rows := l.rows + [m.row.value]))
      else s.(loop := l, log := if acked then s.log - {m} else s.log)
    case DecodeDone =>
      s.(loop := if s.loop.rows == [] then Fetching else Inserting(s.loop.msgs, s.loop.rows))
    case InsertSucceeds =>
      s.(inserted := s.inserted + s.loop.rows, written := s.written + Elements(s.loop.msgs),
         loop := AfterReplies(s.loop.msgs, true))
    case InsertFails(partial) =>
      var k := if partial <= |s.loop.msgs| then partial else 0;
      s.(inserted := s.inserted + s.loop.rows[..partial], written := s.written + Elements(s.loop.msgs[..k]),
         loop := AfterReplies(s.loop.msgs, false))
    case AckNext(arrived) =>
      s.(log := if arrived then s.log - {s.loop.msgs[0]} else s.log, loop := AfterReplies(s.loop.msgs[1..], true))
    case NakNext => s.(loop := AfterReplies(s.loop.msgs[1..], false))
    case ContextDone => s.(loop := Stopped)
    case Crash => s.(loop := Fetching)
  }

  ghost predicate IsRun<T(!new)>(states: seq<State<T>>, steps: seq<Step<T>>) {
    && |states| == |steps| + 1 && states[0] == Init()
    && forall i :: 0 <= i < |steps| ==> Enabled(states[i], steps[i]) && states[i + 1] == Apply(states[i], steps[i])
  }

  // ----- Invariants -----------------------------------------------------------------------

  /** The rows are the decoded messages, one for one. */
  ghost predicate Decoded<T>(msgs: seq<Msg<T>>, rows: seq<T>) {
    |msgs| == |rows| && forall i :: 0 <= i < |msgs| ==> msgs[i].row == Some(rows[i])
  }

  ghost predicate From<T>(msgs: seq<Msg<T>>, pool: set<Msg<T>>) {
    forall i :: 0 <= i < |msgs| ==> msgs[i] in pool
  }

  ghost predicate LoopOk<T(!new)>(s: State<T>) {
    match s.loop
    case Decoding(todo, msgs, rows) => From(todo, s.published) && From(msgs, s.published) && Decoded(msgs, rows)
    case Inserting(msgs, rows) => From(msgs, s.published) && Decoded(msgs, rows) && rows != []
    case Acking(msgs) => From(msgs, s.written)
    case Naking(msgs) => true
    case Fetching => true
    case Stopped => true
  }

  /** A row is written only for a published message that decodes to it. */
  ghost predicate NothingInvented<T(!new)>(s: State<T>) {
    && (forall r :: r in s.inserted <==> exists m :: m in s.written && m.row == Some(r))
    && (forall m :: m in s.written ==> m in s.published && m.row.Some?)
  }

  ghost function WithRow<T(!new)>(msgs: set<Msg<T>>, r: T): set<Msg<T>> {
    set m | m in msgs && m.row == Some(r)
  }

  /** Messages that decode to equal rows are inserted apart. */
  ghost predicate CountedApart<T(!new)>(s: State<T>) {
    forall r :: |WithRow(s.written, r)| <= multiset(s.inserted)[r]
  }

  /** What has left the log was written, unless it never decoded. */
  ghost predicate NothingLost<T(!new)>(s: State<T>) {
    && s.log <= s.published
    && forall m :: m in s.published && m !in s.log ==> m in s.written || m.row.None?
  }

  ghost predicate Inv<T(!new)>(s: State<T>) {
    LoopOk(s) && NothingInvented(s) && NothingLost(s) && CountedApart(s)
  }

  /** Writing a decoded batch adds its rows and its messages together. */
  lemma WriteKeepsRows<T(!new)>(s: State<T>, t: State<T>, msgs: seq<Msg<T>>, rows: seq<T>)
    requires NothingInvented(s) && From(msgs, s.published) && Decoded(msgs, rows)
    requires t.inserted == s.inserted + rows && t.written == s.written + Elements(msgs) && t.published == s.published
    ensures NothingInvented(t)
  {
    forall r
      ensures r in t.inserted <==> exists m :: m in t.written && m.row == Some(r)
    {
      if r in rows {
        var i :| 0 <= i < |rows| && rows[i] == r;
        assert msgs[i] in t.written && msgs[i].row == Some(r);
      }
      if m :| m in t.written && m.row == Some(r) {
        if m in Elements(msgs) {
          var i :| 0 <= i < |msgs| && msgs[i] == m;
          assert rows[i] == r;
        }
      }
    }
  }

  lemma {:induction false} BatchCounts<T(!new)>(msgs: seq<Msg<T>>, rows: seq<T>, r: T)
    requires Decoded(msgs, rows)
    ensures |WithRow(Elements(msgs), r)| <= multiset(rows)[r]
  {
    if msgs == [] {
      assert WithRow(Elements(msgs), r) == {};
    } else {
      var n := |msgs| - 1;
      BatchCounts(msgs[..n], rows[..n], r);
      assert rows == rows[..n] + [rows[n]];
      assert msgs == msgs[..n] + [msgs[n]];
      var rest := WithRow(Elements(msgs[..n]), r);
      assert WithRow(Elements(msgs), r) == if rows[n] == r then rest + {msgs[n]} else rest;
    }
  }

  lemma WriteKeepsCounts<T(!new)>(s: State<T>, t: State<T>, msgs: seq<Msg<T>>, rows: seq<T>)
    requires CountedApart(s) && Decoded(msgs, rows)
    requires t.inserted == s.inserted + rows && t.written == s.written + Elements(msgs)
    ensures CountedApart(t)
  {
    forall r
      ensures |WithRow(t.written, r)| <= multiset(t.inserted)[r]
    {
      BatchCounts(msgs, rows, r);
      var earlier, batch := WithRow(s.written, r), WithRow(Elements(msgs), r);
      assert WithRow(t.written, r) == earlier + batch;
      assert |earlier + batch| == |earlier| + |batch| - |earlier * batch|;
      assert multiset(t.inserted)[r] == multiset(s.inserted)[r] + multiset(rows)[r];
    }
  }

  lemma InsertKeepsInv<T(!new)>(s: State<T>, e: Step<T>)
    requires Inv(s) && Enabled(s, e) && (e.InsertSucceeds? || e.InsertFails?)
    ensures Inv(Apply(s, e))
  {
    var t, msgs, rows := Apply(s, e), s.loop.msgs, s.loop.rows;
    if e.InsertSucceeds? {
      WriteKeepsRows(s, t, msgs, rows);
      WriteKeepsCounts(s, t, msgs, rows);
    } else {
      WriteKeepsRows(s, t, msgs[..e.partial], rows[..e.partial]);
      WriteKeepsCounts(s, t, msgs[..e.partial], rows[..e.partial]);
    }
  }

  lemma DecodeKeepsInv<T(!new)>(s: State<T>, e: Step<T>)
    requires Inv(s) && Enabled(s, e) && (e.DecodeNext? || e.DecodeDone?)
    ensures Inv(Apply(s, e))
  {
    var t := Apply(s, e);
    assert NothingInvented(t);
    assert NothingLost(t);
  }

  lemma StepKeepsInv<T(!new)>(s: State<T>, e: Step<T>)
    requires Inv(s) && Enabled(s, e)
    ensures Inv(Apply(s, e))
  {
    var t := Apply(s, e);
    match e
    case InsertSucceeds => InsertKeepsInv(s, e);
    case InsertFails(_) => InsertKeepsInv(s, e);
    case DecodeNext(_) => DecodeKeepsInv(s, e);
    case DecodeDone => DecodeKeepsInv(s, e);
    case Publish(m) => assert NothingInvented(t) && NothingLost(t) && LoopOk(t);
    case AckNext(_) => assert NothingInvented(t) && NothingLost(t);
    case _ =>
  }

  lemma {:induction false} RunsKeepInv<T(!new)>(states: seq<State<T>>, steps: seq<Step<T>>, i: nat)
    requires IsRun(states, steps) && i < |states|
    ensures Inv(states[i])
  {
    if i == 0 {
      assert Inv(Init<T>());
    } else {
      RunsKeepInv(states, steps, i - 1);
      StepKeepsInv(states[i - 1], steps[i - 1]);
    }
  }

  /** At least once, through any crashes, lost acks and failed inserts: of the messages that decode
      to a row, as many as have left the log were inserted, each counted apart; one that has left
      the log without an insert never decoded; and nothing else is ever inserted. */
  lemma AtLeastOnce<T(!new)>(states: seq<State<T>>, steps: seq<Step<T>>, i: nat)
    requires IsRun(states, steps) && i < |states|
    ensures var s := states[i];
            && (forall r :: |WithRow(s.published - s.log, r)| <= multiset(s.inserted)[r])
            && (forall m :: m in s.published && m !in s.log && m !in s.written ==> m.row.None?)
            && (forall r :: r in s.inserted ==> exists m :: m in s.published && m.row == Some(r))
  {
    RunsKeepInv(states, steps, i);
    var s := states[i];
    forall r
      ensures |WithRow(s.published - s.log, r)| <= multiset(s.inserted)[r]
    {
      var gone, written := WithRow(s.published - s.log, r), WithRow(s.written, r);
      assert written == gone + (written - gone);
    }
  }

  // ----- One round of the loop ------------------------------------------------------------

  function RowsOf<T>(batch: seq<Msg<T>>): seq<T> {
    if batch == [] then []
    else
      var rest, m := RowsOf(batch[..|batch| - 1]), batch[|batch| - 1];
      if m.row.Some? then rest + [m.row.value] else rest
  }

  function Decodable<T>(batch: seq<Msg<T>>): seq<Msg<T>> {
    if batch == [] then []
    else
      var rest, m := Decodable(batch[..|batch| - 1]), batch[|batch| - 1];
      if m.row.Some? then rest + [m] else rest
  }

  lemma {:induction false} DecodableMembers<T>(batch: seq<Msg<T>>)
    ensures |Decodable(batch)| == |RowsOf(batch)|
    ensures forall m :: m in Decodable(batch) <==> m in batch && m.row.Some?
  {
    if batch != [] {
      DecodableMembers(batch[..|batch| - 1]);
      assert batch == batch[..|batch| - 1] + [batch[|batch| - 1]];
    }
  }

  function DecodeSteps<T>(batch: seq<Msg<T>>, arrives: Msg<T> -> bool): seq<Step<T>> {
    seq(|batch|, i requires 0 <= i < |batch| => DecodeNext(arrives(batch[i])))
  }

  function AckSteps<T>(msgs: seq<Msg<T>>, arrives: Msg<T> -> bool): seq<Step<T>> {
    seq(|msgs|, i requires 0 <= i < |msgs| => AckNext(arrives(msgs[i])))
  }

  function NakSteps<T>(msgs: seq<Msg<T>>): seq<Step<T>> {
    seq(|msgs|, _ => NakNext)
  }

  function Settlement<T>(msgs: seq<Msg<T>>, insertWorks: bool, partial: nat, arrives: Msg<T> -> bool): seq<Step<T>> {
    if insertWorks then [InsertSucceeds] + AckSteps(msgs, arrives) else [InsertFails(partial)] + NakSteps(msgs)
  }

  /** The protocol steps of one round: fetch, decode everything, then one insert, if there is
      anything to insert, and a reply to every message that decoded. */
  function Round<T>(batch: seq<Msg<T>>, insertWorks: bool, partial: nat, arrives: Msg<T> -> bool): seq<Step<T>> {
    var msgs := Decodable(batch);
    [Fetch(batch)] + DecodeSteps(batch, arrives) + [DecodeDone]
    + if msgs == [] then [] else Settlement(msgs, insertWorks, partial, arrives)
  }

  /** These steps of the protocol lead from the start to s. */
  ghost predicate Reached<T(!new)>(steps: seq<Step<T>>, s: State<T>) {
    exists states: seq<State<T>> :: IsRun(states, steps) && states[|steps|] == s
  }

  lemma ReachedNext<T(!new)>(steps: seq<Step<T>>, s: State<T>, e: Step<T>)
    requires Reached(steps, s) && Enabled(s, e)
    ensures Reached(steps + [e], Apply(s, e))
  {
    var states: seq<State<T>> :| IsRun(states, steps) && states[|steps|] == s;
    assert IsRun(states + [Apply(s, e)], steps + [e]);
  }

  /** The consumer's view: the log, and the sink it inserts into. Whether the insert works, how
      much a failing one wrote, and which acks get through are the environment's choice. steps
      records the protocol steps that led here. */
  class Consumer<T(!new, ==)> {
    ghost var published: set<Msg<T>>
    ghost var written: set<Msg<T>>
    ghost var steps: seq<Step<T>>
    var log: set<Msg<T>>
    var inserted: seq<T>

    constructor ()
      ensures At(Fetching) == Init() && Valid(Fetching)
    {
      published, written, steps, log, inserted := {}, {}, [], {}, [];
      new;
      assert IsRun([Init<T>()], steps);
    }

    ghost function At(loop: Loop<T>): State<T>
      reads this
    {
      State(published, log, inserted, written, loop)
    }

    ghost predicate Valid(loop: Loop<T>)
      reads this
    {
      Reached(steps, At(loop))
    }

    /** One fetched batch, from decoding to the last ack or nak, each a step of the protocol.
        Undecodable messages are acked at once; the others only after the insert. */
    method ConsumeBatch(batch: seq<Msg<T>>, insertWorks: bool, partial: nat, arrives: Msg<T> -> bool)
      requires Valid(Fetching) && |batch| <= 500 && forall m :: m in batch ==> m in log
      requires partial <= |RowsOf(batch)|
      modifies this
      ensures Valid(Fetching) && published == old(published)
      ensures steps == old(steps) + Round(batch, insertWorks, partial, arrives)
      ensures inserted == old(inserted) + if insertWorks then RowsOf(batch) else RowsOf(batch)[..partial]
      ensures forall m :: m in log <==> m in old(log) && !(m in batch && arrives(m) && (insertWorks || m.row.None?))
    {
      DecodableMembers(batch);
      var msgs, rows := Receive(batch, arrives);
      if |rows| == 0 {
        return;
      }
      Settle(msgs, rows, insertWorks, partial, arrives);
    }

    /** The fetch and the decoding. */
    method Receive(batch: seq<Msg<T>>, arrives: Msg<T> -> bool) returns (msgs: seq<Msg<T>>, rows: seq<T>)
      requires Valid(Fetching) && |batch| <= FETCH_LIMIT && forall m :: m in batch ==> m in log
      modifies this`log, this`steps
      ensures Valid(if rows == [] then Fetching else Inserting(msgs, rows))
      ensures rows == RowsOf(batch) && msgs == Decodable(batch)
      ensures steps == old(steps) + ([Fetch(batch)] + DecodeSteps(batch, arrives) + [DecodeDone])
      ensures forall m :: m in log <==> m in old(log) && !(m in batch && arrives(m) && m.row.None?)
    {
      ReachedNext(steps, At(Fetching), Fetch(batch));
      steps := steps + [Fetch(batch)];
      msgs, rows := Decode(batch, arrives);
      ReachedNext(steps, At(Decoding([], msgs, rows)), DecodeDone);
      steps := steps + [DecodeDone];
    }

    /** The insert and the replies. */
    method Settle(msgs: seq<Msg<T>>, rows: seq<T>, insertWorks: bool, partial: nat, arrives: Msg<T> -> bool)
      requires Valid(Inserting(msgs, rows)) && partial <= |rows| == |msgs| && msgs != []
      modifies this`log, this`steps, this`inserted, this`written
      ensures Valid(Fetching) && steps == old(steps) + Settlement(msgs, insertWorks, partial, arrives)
      ensures inserted == old(inserted) + if insertWorks then rows else rows[..partial]
      ensures forall m :: m in log <==> m in old(log) && !(m in msgs && arrives(m) && insertWorks)
    {
      if insertWorks {
        ReachedNext(steps, At(Inserting(msgs, rows)), InsertSucceeds);
        steps := steps + [InsertSucceeds];
        inserted := inserted + rows;
        written := written + Elements(msgs);
        AckAll(msgs, arrives);
      } else {
        ReachedNext(steps, At(Inserting(msgs, rows)), InsertFails(partial));
        steps := steps + [InsertFails(partial)];
        inserted := inserted + rows[..partial];
        written := written + Elements(msgs[..partial]);
        NakAll(msgs);
      }
    }

    method Decode(batch: seq<Msg<T>>, arrives: Msg<T> -> bool) returns (msgs: seq<Msg<T>>, rows: seq<T>)
      requires Valid(Decoding(batch, [], []))
      modifies this`log, this`steps
      ensures Valid(Decoding([], msgs, rows)) && rows == RowsOf(batch) && msgs == Decodable(batch)
      ensures steps == old(steps) + DecodeSteps(batch, arrives)
      ensures forall m :: m in log <==> m in old(log) && !(m in batch && arrives(m) && m.row.None?)
    {
      msgs, rows := [], [];
      assert batch[0..] == batch;
      for i := 0 to |batch|
        invariant Valid(Decoding(batch[i..], msgs, rows)) && rows == RowsOf(batch[..i]) && msgs == Decodable(batch[..i])
        invariant steps == old(steps) + DecodeSteps(batch[..i], arrives)
        invariant forall m :: m in log <==> m in old(log) && !(m in batch[..i] && arrives(m) && m.row.None?)
      {
        var m := batch[i];
        ReachedNext(steps, At(Decoding(batch[i..], msgs, rows)), DecodeNext(arrives(m)));
        steps := steps + [DecodeNext(arrives(m))];
        assert batch[i..][1..] == batch[i + 1..];
        assert batch[..i + 1] == batch[..i] + [m];
        if m.row.None? {
          log := if arrives(m) then log - {m} else log;
        } else {
          rows := rows + [m.row.value];
          msgs := msgs + [m];
        }
      }
      assert batch[..|batch|] == batch;
    }

    method AckAll(msgs: seq<Msg<T>>, arrives: Msg<T> -> bool)
      requires msgs != [] && Valid(Acking(msgs))
      modifies this`log, this`steps
      ensures Valid(Fetching) && steps == old(steps) + AckSteps(msgs, arrives)
      ensures forall m :: m in log <==> m in old(log) && !(m in msgs && arrives(m))
    {
      assert msgs[0..] == msgs;
      for i := 0 to |msgs|
        invariant Valid(AfterReplies(msgs[i..], true))
        invariant steps == old(steps) + AckSteps(msgs[..i], arrives)
        invariant forall m :: m in log <==> m in old(log) && !(m in msgs[..i] && arrives(m))
      {
        ReachedNext(steps, At(Acking(msgs[i..])), AckNext(arrives(msgs[i])));
        steps := steps + [AckNext(arrives(msgs[i]))];
        assert msgs[i..][1..] == msgs[i + 1..];
        assert msgs[..i + 1] == msgs[..i] + [msgs[i]];
        log := if arrives(msgs[i]) then log - {msgs[i]} else log;
      }
      assert msgs[..|msgs|] == msgs;
    }

    /** A nak leaves the log as it is: the message will be delivered again. */
    method NakAll(msgs: seq<Msg<T>>)
      requires msgs != [] && Valid(Naking(msgs))
      modifies this`steps
      ensures Valid(Fetching) && steps == old(steps) + NakSteps(msgs)
    {
      assert msgs[0..] == msgs;
      for i := 0 to |msgs|
        invariant Valid(AfterReplies(msgs[i..], false))
        invariant steps == old(steps) + NakSteps(msgs[..i])
      {
        ReachedNext(steps, At(Naking(msgs[i..])), NakNext);
        steps := steps + [NakNext];
        assert msgs[i..][1..] == msgs[i + 1..];
        assert NakSteps(msgs[..i + 1]) == NakSteps(msgs[..i]) + [NakNext];
      }
      assert msgs[..|msgs|] == msgs;
    }
  }
}
