/** The batcher as a state machine: producers, the run loop with its retries, and Close. Every
    select, ticker, retry wait and insert outcome is a choice; a run is any sequence of them. */
module Batcher {

  datatype Config = Config(maxRows: nat, buffer: nat)

  predicate ValidConfig(c: Config) { c.maxRows >= 1 && c.buffer >= 1 }

  /** Whatever is configured, both bounds end up positive: a positive setting is taken as it is, and
      otherwise a batch is 10,000 rows and the channel holds two batches. */
  function WithDefaults(maxRows: int, buffer: int): (c: Config)
    ensures ValidConfig(c)
    ensures maxRows > 0 ==> c.maxRows == maxRows
    ensures maxRows <= 0 ==> c.maxRows == 10_000
    ensures buffer > 0 ==> c.buffer == buffer
    ensures buffer <= 0 ==> c.buffer == 2 * c.maxRows
  {
    var rows := if maxRows <= 0 then 10_000 else maxRows;
    Config(rows, if buffer <= 0 then 2 * rows else buffer)
  }

  /** Where the run loop goes when the flush it is in returns. */
  datatype Return = ToSelect | ToDrain | ToExit

  /** failures counts the Inserts of the batch in hand that failed and are being retried; late says
      that the batch was started after cancellation. */
  datatype Loop =
    | Selecting
    | Draining
    | Inserting(back: Return, failures: nat, late: bool)
    | Waiting(back: Return, failures: nat, late: bool)
    | Exited

  datatype State<T> = State(
    queue: seq<T>,          // rows in the channel
    buf: seq<T>,            // rows the run loop holds
    loop: Loop,
    stop: bool,             // Close was called
    cancelled: bool,        // Close's deadline fired
    accepted: seq<T>,       // rows whose Add went through the channel
    acceptedAtClose: seq<T>,
    inserted: seq<seq<T>>)  // batches the inserter took

  function Init<T>(): State<T> {
    State([], [], Selecting, false, false, [], [], [])
  }

  datatype Step<T> =
    | AddSends(row: T)      // the channel had room
    | AddReturns            // Add saw stop and returned without queueing
    | CloseCalled
    | DeadlineFires
    | Receive               // select or drain takes a row
    | Tick                  // the ticker fires
    | SeesStop              // select takes the stop case
    | QueueEmpty            // the drain loop finds nothing
    | InsertSucceeds
    | InsertFails
    | RetryTimer
    | GivesUp               // the retry wait sees cancellation

  function AfterFlush(back: Return): Loop {
    match back
    case ToSelect => Selecting
    case ToDrain => Draining
    case ToExit => Exited
  }

  /** Starts a flush: with nothing buffered it returns at once. */
  function Flush<T>(s: State<T>, back: Return): State<T> {
    if s.buf == [] then s.(loop := AfterFlush(back)) else s.(loop := Inserting(back, 0, s.cancelled))
  }

  /** Appends the next row and flushes a full buffer. */
  function Take<T>(c: Config, s: State<T>, back: Return): State<T>
    requires s.queue != []
  {
    var t := s.(buf := s.buf + [s.queue[0]], queue := s.queue[1..]);
    if |t.buf| >= c.maxRows then Flush(t, back) else t.(loop := AfterFlush(back))
  }

  predicate Enabled<T>(c: Config, s: State<T>, e: Step<T>) {
    match e
    case AddSends(_) => |s.queue| < c.buffer
    case AddReturns => s.stop
    case CloseCalled => !s.stop
    case DeadlineFires => s.stop && !s.cancelled
    case Receive => (s.loop.Selecting? || s.loop.Draining?) && s.queue != []
    case Tick => s.loop.Selecting?
    case SeesStop => s.loop.Selecting? && s.stop
    case QueueEmpty => s.loop.Draining? && s.queue == []
    case InsertSucceeds => s.loop.Inserting?
    case InsertFails => s.loop.Inserting?
    case RetryTimer => s.loop.Waiting?
    case GivesUp => s.loop.Waiting? && s.cancelled
  }

  /** A failed Insert writes nothing. */
  function Apply<T>(c: Config, s: State<T>, e: Step<T>): State<T>
    requires Enabled(c, s, e)
  {
    match e
    case AddSends(row) => s.(queue := s.queue + [row], accepted := s.accepted + [row])
    case AddReturns => s
    case CloseCalled => s.(stop := true, acceptedAtClose := s.accepted)
    case DeadlineFires => s.(cancelled := true)
    case Receive => Take(c, s, if s.loop.Selecting? then ToSelect else ToDrain)
    case Tick => Flush(s, ToSelect)
    case SeesStop => s.(loop := Draining)
    case QueueEmpty => Flush(s, ToExit)
    case InsertSucceeds => s.(inserted := s.inserted + [s.buf], buf := [], loop := AfterFlush(s.loop.back))
    case InsertFails =>
      if s.cancelled then s.(buf := [], loop := AfterFlush(s.loop.back))
      else s.(loop := Waiting(s.loop.back, s.loop.failures + 1, s.loop.late))
    case RetryTimer => s.(loop := Inserting(s.loop.back, s.loop.failures, s.loop.late))
    case GivesUp => s.(buf := [], loop := AfterFlush(s.loop.back))
  }

  ghost predicate IsRun<T>(c: Config, states: seq<State<T>>, steps: seq<Step<T>>) {
    && |states| == |steps| + 1 && states[0] == Init()
    && forall i :: 0 <= i < |steps| ==> Enabled(c, states[i], steps[i]) && states[i + 1] == Apply(c, states[i], steps[i])
  }

  function Flatten<T>(batches: seq<seq<T>>): seq<T> {
    if batches == [] then [] else Flatten(batches[..|batches| - 1]) + batches[|batches| - 1]
  }

  /** a is b with some elements left out, order kept. */
  ghost predicate Subsequence<T>(a: seq<T>, b: seq<T>) {
    if a == [] then true
    else if b == [] then false
    else (a[|a| - 1] == b[|b| - 1] && Subsequence(a[..|a| - 1], b[..|b| - 1])) || Subsequence(a, b[..|b| - 1])
  }

  lemma {:induction false} SubsequenceAppend<T>(a: seq<T>, b: seq<T>, x: seq<T>)
    requires Subsequence(a, b)
    ensures Subsequence(a + x, b + x) && Subsequence(a, b + x)
  {
    if x == [] {
      assert a + x == a && b + x == b;
    } else {
      var y := x[..|x| - 1];
      SubsequenceAppend(a, b, y);
      assert (a + x)[..|a + x| - 1] == a + y && (b + x)[..|b + x| - 1] == b + y;
    }
  }

  // ----- Invariants -----------------------------------------------------------------------

  /** Rows the run loop has already disposed of: written, or dropped after cancellation. */
  ghost predicate Disposed<T>(s: State<T>, past: seq<T>) {
    && past + s.buf + s.queue == s.accepted
    && Subsequence(Flatten(s.inserted), past)
    && (!s.cancelled ==> past == Flatten(s.inserted))
  }

  ghost predicate Bounded<T>(c: Config, s: State<T>) {
    && |s.queue| <= c.buffer && |s.buf| <= c.maxRows
    && (forall b :: b in s.inserted ==> 1 <= |b| <= c.maxRows)
    && (s.loop.Selecting? || s.loop.Draining? ==> |s.buf| < c.maxRows)
    && (s.loop.Inserting? || s.loop.Waiting? ==> s.buf != [])
    && (s.loop.Exited? ==> s.buf == [])
  }

  /** The run loop has found the channel empty after Close: it has exited or is in its last flush. */
  predicate Leaving(l: Loop) {
    l.Exited? || ((l.Inserting? || l.Waiting?) && l.back == ToExit)
  }

  ghost predicate ShutdownOk<T>(s: State<T>) {
    && (s.cancelled ==> s.stop)
    && (!s.stop ==> s.acceptedAtClose == [] && !s.loop.Draining? && !s.loop.Exited?)
    && ((s.loop.Inserting? || s.loop.Waiting?) && s.loop.back != ToSelect ==> s.stop)
    && (s.stop ==> s.acceptedAtClose <= s.accepted)
    && (s.stop && Leaving(s.loop) ==>
          |s.acceptedAtClose| <= |s.accepted| - |s.queue|)
  }

  /** A batch started after cancellation has one Insert at most: it fails into no wait. */
  ghost predicate RetriesOk<T>(s: State<T>) {
    && (s.loop.Inserting? && s.loop.late ==> s.cancelled && s.loop.failures == 0)
    && (s.loop.Waiting? ==> !s.loop.late && s.loop.failures >= 1)
  }

  ghost predicate Inv<T(!new)>(c: Config, s: State<T>) {
    && Bounded(c, s) && ShutdownOk(s) && RetriesOk(s)
    && exists past :: Disposed(s, past)
  }

  lemma FlattenNext<T>(batches: seq<seq<T>>, b: seq<T>)
    ensures Flatten(batches + [b]) == Flatten(batches) + b
  {
    assert (batches + [b])[..|batches|] == batches;
  }

  lemma DisposedStep<T>(c: Config, s: State<T>, e: Step<T>, past: seq<T>) returns (past': seq<T>)
    requires Enabled(c, s, e) && Disposed(s, past)
    ensures Disposed(Apply(c, s, e), past')
  {
    past' := past;
    match e
    case AddSends(row) => assert past + s.buf + (s.queue + [row]) == (past + s.buf + s.queue) + [row];
    case Receive => MoveRow(past, s.buf, s.queue);
    case InsertSucceeds => past' := DisposeBatch(s, past, Apply(c, s, e));
    case InsertFails =>
      if s.cancelled {
        past' := DisposeBatch(s, past, Apply(c, s, e));
      }
    case GivesUp => past' := DisposeBatch(s, past, Apply(c, s, e));
    case _ =>
  }

  lemma MoveRow<T>(past: seq<T>, buf: seq<T>, queue: seq<T>)
    requires queue != []
    ensures past + (buf + [queue[0]]) + queue[1..] == past + buf + queue
  {
  }

  /** The batch in hand is written, or dropped after cancellation. */
  lemma DisposeBatch<T>(s: State<T>, past: seq<T>, t: State<T>) returns (past': seq<T>)
    requires Disposed(s, past)
    requires t.buf == [] && t.queue == s.queue && t.accepted == s.accepted && t.cancelled == s.cancelled
    requires t.inserted == s.inserted + [s.buf] || (s.cancelled && t.inserted == s.inserted)
    ensures Disposed(t, past')
  {
    past' := past + s.buf;
    assert past' + [] + s.queue == past + s.buf + s.queue;
    FlattenNext(s.inserted, s.buf);
    SubsequenceAppend(Flatten(s.inserted), past, s.buf);
  }

  lemma BoundsStep<T>(c: Config, s: State<T>, e: Step<T>)
    requires ValidConfig(c) && Enabled(c, s, e) && Bounded(c, s)
    ensures Bounded(c, Apply(c, s, e))
  {
    match e
    case Receive => TakeBounds(c, s, if s.loop.Selecting? then ToSelect else ToDrain);
    case _ =>
  }

  lemma TakeBounds<T>(c: Config, s: State<T>, back: Return)
    requires ValidConfig(c) && Bounded(c, s) && (s.loop.Selecting? || s.loop.Draining?) && s.queue != []
    requires back != ToExit
    ensures Bounded(c, Take(c, s, back))
  {
  }

  lemma ShutdownStep<T>(c: Config, s: State<T>, e: Step<T>)
    requires Enabled(c, s, e) && ShutdownOk(s) && |s.queue| <= |s.accepted|
    ensures ShutdownOk(Apply(c, s, e))
  {
  }

  lemma StepKeepsInv<T(!new)>(c: Config, s: State<T>, e: Step<T>)
    requires ValidConfig(c) && Enabled(c, s, e) && Inv(c, s)
    ensures Inv(c, Apply(c, s, e))
  {
    var past :| Disposed(s, past);
    var past' := DisposedStep(c, s, e, past);
    assert |s.queue| <= |past + s.buf + s.queue|;
    BoundsStep(c, s, e);
    ShutdownStep(c, s, e);
    RetriesStep(c, s, e);
  }

  lemma RetriesStep<T>(c: Config, s: State<T>, e: Step<T>)
    requires Enabled(c, s, e) && RetriesOk(s)
    ensures RetriesOk(Apply(c, s, e))
  {
  }

  lemma {:induction false} RunsKeepInv<T(!new)>(c: Config, states: seq<State<T>>, steps: seq<Step<T>>, i: nat)
    requires ValidConfig(c) && IsRun(c, states, steps) && i < |states|
    ensures Inv(c, states[i])
  {
    if i == 0 {
      assert Disposed(Init<T>(), []);
    } else {
      RunsKeepInv(c, states, steps, i - 1);
      StepKeepsInv(c, states[i - 1], steps[i - 1]);
    }
  }

  lemma RunsAreBounded<T(!new)>(c: Config, states: seq<State<T>>, steps: seq<Step<T>>, i: nat)
    requires ValidConfig(c) && IsRun(c, states, steps) && i < |states|
    ensures Bounded(c, states[i])
  {
    RunsKeepInv(c, states, steps, i);
  }

  // ----- What the runs guarantee ----------------------------------------------------------

  /** Before cancellation nothing is lost, repeated or reordered: written batches, then the buffer,
      then the channel, are exactly the accepted rows; batches hold 1..MaxRows rows and at most
      MaxRows + Buffer rows are in flight. */
  lemma ConservationAndOrder<T(!new)>(c: Config, states: seq<State<T>>, steps: seq<Step<T>>, i: nat)
    requires ValidConfig(c) && IsRun(c, states, steps) && i < |states|
    ensures var s := states[i];
            && (!s.cancelled ==> Flatten(s.inserted) + s.buf + s.queue == s.accepted)
            && (forall b :: b in s.inserted ==> 1 <= |b| <= c.maxRows)
            && |s.buf| + |s.queue| <= c.maxRows + c.buffer
  {
    RunsKeepInv(c, states, steps, i);
  }

  /** A Close that returns without its deadline firing has written every row whose Add returned
      before it was called, exactly once and in order. */
  lemma CleanShutdown<T(!new)>(c: Config, states: seq<State<T>>, steps: seq<Step<T>>, i: nat)
    requires ValidConfig(c) && IsRun(c, states, steps) && i < |states|
    requires states[i].loop.Exited? && !states[i].cancelled
    ensures states[i].acceptedAtClose <= Flatten(states[i].inserted) <= states[i].accepted
  {
    RunsKeepInv(c, states, steps, i);
    var s := states[i];
    var past :| Disposed(s, past);
    assert s.accepted == past + s.queue;
    assert s.stop;
    assert |s.acceptedAtClose| <= |past|;
    assert past == s.accepted[..|past|];
  }

  predicate FoundEmpty<T(!new)>(steps: seq<Step<T>>) {
    exists j :: 0 <= j < |steps| && steps[j].QueueEmpty?
  }

  /** The rows that Add sent after the run loop had found the channel empty. */
  ghost function LateRows<T(!new)>(steps: seq<Step<T>>): seq<T> {
    if steps == [] then []
    else
      var init, e := steps[..|steps| - 1], steps[|steps| - 1];
      LateRows(init) + if e.AddSends? && FoundEmpty(init) then [e.row] else []
  }

  predicate NoneLate<T(!new)>(steps: seq<Step<T>>) {
    forall j, k :: 0 <= j < k < |steps| && steps[j].QueueEmpty? ==> !steps[k].AddSends?
  }

  lemma {:induction false} LateRowsIff<T(!new)>(steps: seq<Step<T>>)
    ensures LateRows(steps) == [] <==> NoneLate(steps)
  {
    if steps != [] {
      var init := steps[..|steps| - 1];
      LateRowsIff(init);
      assert NoneLate(steps) <==> NoneLate(init) && !(steps[|steps| - 1].AddSends? && FoundEmpty(init));
    }
  }

  lemma FoundEmptyNext<T(!new)>(steps: seq<Step<T>>, i: nat)
    requires i < |steps|
    ensures FoundEmpty(steps[..i + 1]) <==> FoundEmpty(steps[..i]) || steps[i].QueueEmpty?
    ensures LateRows(steps[..i + 1])
         == LateRows(steps[..i]) + if steps[i].AddSends? && FoundEmpty(steps[..i]) then [steps[i].row] else []
  {
    var next := steps[..i + 1];
    assert next[..i] == steps[..i] && next[i] == steps[i];
    assert forall j :: 0 <= j < i ==> next[j] == steps[..i][j];
  }

  lemma LeavingStep<T>(c: Config, s: State<T>, e: Step<T>)
    requires Enabled(c, s, e)
    ensures Leaving(Apply(c, s, e).loop) <==> Leaving(s.loop) || e.QueueEmpty?
    ensures e.QueueEmpty? ==> s.queue == Apply(c, s, e).queue == []
    ensures Leaving(s.loop) ==> Apply(c, s, e).queue == s.queue + if e.AddSends? then [e.row] else []
  {
  }

  /** Once the run loop has found the channel empty it never receives again, deadline or not: the
      channel then holds the late rows and no others. */
  lemma {:induction false} ChannelHoldsLateRows<T(!new)>(c: Config, states: seq<State<T>>, steps: seq<Step<T>>, i: nat)
    requires IsRun(c, states, steps) && i < |states|
    ensures Leaving(states[i].loop) <==> FoundEmpty(steps[..i])
    ensures if Leaving(states[i].loop) then states[i].queue == LateRows(steps[..i]) else LateRows(steps[..i]) == []
  {
    if i > 0 {
      ChannelHoldsLateRows(c, states, steps, i - 1);
      FoundEmptyNext(steps, i - 1);
      LeavingStep(c, states[i - 1], steps[i - 1]);
    }
  }

  lemma ExitLeavesChannel<T(!new)>(c: Config, states: seq<State<T>>, steps: seq<Step<T>>, i: nat)
    requires ValidConfig(c) && IsRun(c, states, steps) && i < |states|
    requires states[i].loop.Exited? && !states[i].cancelled
    ensures Flatten(states[i].inserted) + states[i].queue == states[i].accepted
  {
    RunsKeepInv(c, states, steps, i);
    var s := states[i];
    var past :| Disposed(s, past);
    assert past + [] == past;
  }

  /** After a Close whose deadline did not fire, the written rows and the late rows are the accepted
      ones, so every accepted row is written exactly when no Add sent a row after the run loop had
      found the channel empty. */
  lemma CleanExitIff<T(!new)>(c: Config, states: seq<State<T>>, steps: seq<Step<T>>, i: nat)
    requires ValidConfig(c) && IsRun(c, states, steps) && i < |states|
    requires states[i].loop.Exited? && !states[i].cancelled
    ensures Flatten(states[i].inserted) + LateRows(steps[..i]) == states[i].accepted
    ensures Flatten(states[i].inserted) == states[i].accepted <==> NoneLate(steps[..i])
  {
    ExitLeavesChannel(c, states, steps, i);
    ChannelHoldsLateRows(c, states, steps, i);
    LateRowsIff(steps[..i]);
  }

  /** What the callers can do about it: when no Add is still running once Close is called, nothing
      is left behind. */
  lemma NoAddDuringClose<T(!new)>(c: Config, states: seq<State<T>>, steps: seq<Step<T>>, i: nat)
    requires ValidConfig(c) && IsRun(c, states, steps) && i < |states|
    requires states[i].loop.Exited? && !states[i].cancelled
    requires forall k :: 0 <= k < i && steps[k].AddSends? ==> !states[k].stop
    ensures Flatten(states[i].inserted) == states[i].accepted
  {
    forall j, k | 0 <= j < k < i && steps[j].QueueEmpty?
      ensures !steps[k].AddSends?
    {
      RunsKeepInv(c, states, steps, k);
      ChannelHoldsLateRows(c, states, steps, k);
      assert steps[..k][j].QueueEmpty?;
    }
    CleanExitIff(c, states, steps, i);
  }

  /** An Add that races with Close may leave its row in the channel for good. */
  lemma StrandedRow<T>(c: Config, row: T) returns (states: seq<State<T>>, steps: seq<Step<T>>)
    requires ValidConfig(c)
    ensures steps == [CloseCalled, SeesStop, QueueEmpty, AddSends(row)] && IsRun(c, states, steps)
    ensures states[4].loop.Exited? && !states[4].cancelled
    ensures states[4].accepted == [row] == states[4].queue && Flatten(states[4].inserted) == []
  {
    steps := [CloseCalled, SeesStop, QueueEmpty, AddSends(row)];
    var closed := Init<T>().(stop := true);
    var left := closed.(loop := Exited);
    states := [Init(), closed, closed.(loop := Draining), left, left.(queue := [row], accepted := [row])];
  }

  /** This outcome of an Insert is its batch's last. */
  predicate EndsBatch<T>(c: Config, s: State<T>, e: Step<T>)
    requires s.loop.Inserting?
  {
    Enabled(c, s, e) && Apply(c, s, e).buf == [] && Apply(c, s, e).loop == AfterFlush(s.loop.back)
  }

  /** Even when the deadline fires, what was written is the accepted rows in order with some left
      out, and the batches started after that get one Insert at most: either outcome ends them. */
  lemma AbruptShutdown<T(!new)>(c: Config, states: seq<State<T>>, steps: seq<Step<T>>, i: nat)
    requires ValidConfig(c) && IsRun(c, states, steps) && i < |states|
    ensures var s := states[i];
            && Subsequence(Flatten(s.inserted), s.accepted)
            && (s.loop.Waiting? ==> !s.loop.late)
            && (s.loop.Inserting? && s.loop.late ==> EndsBatch(c, s, InsertSucceeds) && EndsBatch(c, s, InsertFails))
  {
    RunsKeepInv(c, states, steps, i);
    var past :| Disposed(states[i], past);
    WrittenInOrder(states[i], past);
    LateBatchEnds(c, states[i]);
  }

  lemma WrittenInOrder<T>(s: State<T>, past: seq<T>)
    requires Disposed(s, past)
    ensures Subsequence(Flatten(s.inserted), s.accepted)
  {
    SubsequenceAppend(Flatten(s.inserted), past, s.buf + s.queue);
    assert past + (s.buf + s.queue) == s.accepted;
  }

  lemma LateBatchEnds<T>(c: Config, s: State<T>)
    requires RetriesOk(s)
    ensures s.loop.Inserting? && s.loop.late ==> EndsBatch(c, s, InsertSucceeds) && EndsBatch(c, s, InsertFails)
  {
  }

  /** What starts an Insert: a row that fills the batch, or a tick or the end of the drain with rows
      in hand. */
  lemma FlushTriggers<T>(c: Config, s: State<T>, e: Step<T>)
    requires Enabled(c, s, e) && !s.loop.Inserting? && !s.loop.Waiting?
    ensures Apply(c, s, e).loop.Inserting? <==>
            (e.Receive? && |s.buf| + 1 >= c.maxRows) || ((e.Tick? || e.QueueEmpty?) && s.buf != [])
    ensures Apply(c, s, e).buf == if e.Receive? then s.buf + [s.queue[0]] else s.buf
  {
  }

  /** The batch that a tick found in hand is the one being inserted, or has been written. */
  ghost predicate TickServed<T>(before: State<T>, s: State<T>) {
    || s.cancelled
    || Flatten(before.inserted) + before.buf <= Flatten(s.inserted)
    || ((s.loop.Inserting? || s.loop.Waiting?) && s.buf == before.buf && s.inserted == before.inserted)
  }

  lemma TickServedStep<T>(c: Config, before: State<T>, s: State<T>, e: Step<T>)
    requires Enabled(c, s, e) && TickServed(before, s)
    ensures TickServed(before, Apply(c, s, e))
  {
    match e
    case InsertSucceeds => FlattenNext(s.inserted, s.buf);
    case _ =>
  }

  /** Whatever a tick finds in hand is written by the time the run loop selects again. */
  lemma {:induction false} TickFlushes<T(!new)>(c: Config, states: seq<State<T>>, steps: seq<Step<T>>, j: nat, i: nat)
    requires ValidConfig(c) && IsRun(c, states, steps) && j < i < |states| && steps[j].Tick?
    ensures TickServed(states[j], states[i])
    ensures states[i].loop.Selecting? && !states[i].cancelled ==>
              Flatten(states[j].inserted) + states[j].buf <= Flatten(states[i].inserted)
  {
    if i == j + 1 {
      var s := states[j];
      assert s.buf == [] ==> Flatten(s.inserted) + s.buf == Flatten(s.inserted);
    } else {
      TickFlushes(c, states, steps, j, i - 1);
      TickServedStep(c, states[j], states[i - 1], steps[i - 1]);
    }
  }

  // ----- Termination ----------------------------------------------------------------------

  function LoopRank(l: Loop): nat {
    match l
    case Exited => 0
    case Inserting(_, _, _) => 1
    case Waiting(_, _, _) => 2
    case Draining => 3
    case Selecting => 4
  }

  /** Rows left in the channel, then whether a batch is in hand, then the loop's place. */
  function Remaining<T>(s: State<T>): nat {
    16 * |s.queue| + (if s.buf == [] then 0 else 8) + LoopRank(s.loop)
  }

  predicate IsLoopStep<T>(e: Step<T>) {
    !(e.AddSends? || e.AddReturns? || e.CloseCalled? || e.DeadlineFires?)
  }

  /** A tick that finds nothing to flush changes nothing. */
  predicate IdleTick<T>(s: State<T>, e: Step<T>) {
    e.Tick? && s.buf == []
  }

  lemma LoopStepShrinks<T>(c: Config, s: State<T>, e: Step<T>)
    requires Bounded(c, s) && Enabled(c, s, e) && IsLoopStep(e) && s.cancelled
    ensures if IdleTick(s, e) then Apply(c, s, e) == s else Remaining(Apply(c, s, e)) < Remaining(s)
  {
  }

  /** Once the deadline has fired and no Add succeeds any more, the run loop takes at most
      Remaining further steps, idle ticks aside ... */
  lemma {:induction false} CancelledLoopTerminates<T(!new)>(c: Config, states: seq<State<T>>, steps: seq<Step<T>>, i: nat, j: nat)
    requires ValidConfig(c) && IsRun(c, states, steps) && i <= j < |states| && states[i].cancelled
    requires forall k :: i <= k < j ==> IsLoopStep(steps[k]) && !IdleTick(states[k], steps[k])
    ensures j - i <= Remaining(states[i]) - Remaining(states[j]) && states[j].cancelled
  {
    if i < j {
      CancelledLoopTerminates(c, states, steps, i, j - 1);
      RunsAreBounded(c, states, steps, j - 1);
      LoopStepShrinks(c, states[j - 1], steps[j - 1]);
    }
  }

  /** ... and until it has exited, it always has a step to take that is not idle. */
  lemma CancelledLoopNeverSticks<T(!new)>(c: Config, s: State<T>)
    requires s.cancelled && s.stop && !s.loop.Exited?
    ensures exists e: Step<T> :: IsLoopStep(e) && Enabled(c, s, e) && !IdleTick(s, e)
  {
    var e: Step<T> := match s.loop
      case Selecting => SeesStop
      case Draining => (if s.queue == [] then QueueEmpty else Receive)
      case Inserting(_, _, _) => InsertFails
      case _ => GivesUp;
    assert IsLoopStep(e) && Enabled(c, s, e) && !IdleTick(s, e);
  }
}
