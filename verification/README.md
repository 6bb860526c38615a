# tickstore: verified model of the order-book pipeline

This project models how tickstore turns venue text into order books and persisted rows, and proves
what that pipeline keeps over whole runs.

* `norm.dfy`, `fixed.dfy`, `fixed_laws.dfy`, `wire.dfy`: canonical values and the exact decimal codec.
* `golib.dfy`, `engine.dfy`, `views.dfy`, `book.dfy`: the book engine. `Engine` and `Views` say on
  plain values what the mutable class `Books.Book` does; every method of the class is proved equal to
  that. An unstable sort and map iteration order are left open by the contracts in `GoLib`.
* `replay.dfy`, `runs.dfy`, `accounting.dfy`: what the engine guarantees over every run.
* `numbering.dfy`, `sessions.dfy`, `persisted_log.dfy`: self-numbered feeds, a connection's table of
  books (one object per symbol), and the rows handed to persistence.
* `coinbase.dfy`, `okx.dfy`, `okx_chain.dfy`, `kraken.dfy`, `kraken_window.dfy`, `checksum.dfy`: the
  three connectors from decoded frame to book, and what each integrity scheme buys.
* `batcher.dfy`, `queue.dfy`, `tape.dfy`: the batching sink, the durable-log consumer and the live
  tape, as step protocols.

`dafny verify dfyconfig.toml` checks everything.

## Main results

* **Safety over runs.** Under any loss, repetition or reordering of authentic updates and any
  authentic snapshots, a book always equals the venue's book at `lastSeq`, synced or not.
* **Exact replay and convergence.** A snapshot with a buffer leads to exactly one state, whatever
  order the sort picks; the book converges precisely when what the buffer kept has no hole after the
  snapshot, however long the backlog was.
* **Accounting.** Each update handed over is applied, ignored, pending or dropped; `gaps - resyncs`
  says "a gap is outstanding" exactly when no recovery was made at `lastSeq` zero.
* **Connectors.** Coinbase books are the last snapshot plus every later change; an OKX session
  survives exactly while each instrument's frames form a contiguous segment of the venue's chain;
  Kraken's trimmed book is the venue's ten best levels after every frame, and an honest frame is
  refused exactly when its checksum is not the CRC of the venue's own texts.
* **Persistence.** Emitted rows read back as the live book after every frame exactly when no empty
  snapshot has levels to clear and no trim has levels to cut: for Coinbase and OKX only the first
  matters, Kraken trims after every frame. The batcher neither loses, repeats nor reorders rows before
  cancellation, and a clean Close leaves exactly the rows that were sent after the run loop had found
  the channel empty. The consumer is at-least-once through any crash, equal rows counted apart; the
  tape skips only evicted trades.
* **Codec.** Parsing succeeds exactly on numerals whose scaled value is an integer of magnitude at
  most 2^63 - 1; formatting gives the one canonical spelling, and the two round-trip both ways.

## Where the code and its comments differ

The model follows the code.

* `internal/venue/coinbase/book.go:163` says pre-snapshot updates are replayed once the snapshot
  arrives. The snapshot takes a larger number than every buffered update (lines 151-152), so the
  replay skips them all (`Numbering.SnapshotSupersedes`).
* `internal/book/book.go:35` calls `resyncs` the snapshots applied to recover from a gap, but line 79
  does not count a recovery made while `lastSeq` is zero (`Accounting.SnapshotAtZeroUndercounts`).
* `internal/book/book.go:107-108` says a coming snapshot will cover the updates dropped at the cap. One
  that is more than MAX_PENDING numbers behind the last of an in-order backlog does not, and leaves the
  book unsynced (`Runs.InOrderBacklog`).
* `internal/venue/book.go:13-14` speaks of sending every level of a snapshot, one row each; a snapshot
  without levels therefore leaves no trace in the rows (`PersistedLog.EmptySnapshotLeavesStaleRows`).
* `internal/venue/book.go:5-6` says the sink receives the level changes of a book. Kraken's trim
  (`internal/venue/kraken/book.go:205-208`) removes levels without telling the sink, so a level that
  was pushed out of the window stays in the rows (`PersistedLog.PushedOutLevelStaysInRows`, exact
  condition in `KrakenWindow.PersistedRowsReplay`).
* `internal/live/registry.go:127` promises up to `limit` trades; a limit of zero returns one whenever
  there is one (`Tape.PollIsExact`). The only caller, `internal/dashboard/server.go:166`, passes 100.
* `internal/sink/batcher.go:185` says Close stops accepting rows. An Add racing with Close may still
  put a row into the channel, where it can stay (`Batcher.StrandedRow`); `Batcher.CleanExitIff` says
  exactly when every accepted row is written, and `Batcher.NoAddDuringClose` what a caller can do.

## Assumptions

Sequence counters do not wrap; checksum precisions are in 0..8; a failed Insert of the batcher writes
nothing (the queue's failed Insert may write any part of its batch); the venue assumptions of
`Runs.Authentic`, `OkxChain.Authentic` and `KrakenWindow.HonestFrame` are spelled out in those
predicates; the CRC32 is a parameter.

## Model

| member | source | states |
|---|---|---|
| `Books.Book.constructor` | internal/book/book.go:41-48 | a new book is empty, unsynced, with nothing buffered or counted |
| `Books.Book.Apply` | internal/book/book.go:54-73 | the whole new state on each branch: buffered, ignored, gap, applied; the result is true exactly when the book is left unsynced |
| `Books.Book.ApplySnapshot` | internal/book/book.go:78-105 | the new state is the snapshot followed by the buffer, in some order the sort allows |
| `Books.Book.LoadSide` | internal/book/book.go:82-93 | the loaded side of a snapshot list, zero sizes skipped |
| `Books.Book.Buffer` | internal/book/book.go:109-115 | append, dropping and counting the oldest at the cap |
| `Books.Book.ApplyDelta` | internal/book/book.go:118-128 | only the named level of the named side is set or cleared |
| `Books.Book.Trim` | internal/book/book.go:134-137 | each side keeps n levels, or all if fewer, every bid kept above every bid cut and every ask kept below every ask cut; nothing else changes |
| `Books.TrimSide` | internal/book/book.go:139-156 | sort-and-delete keeps exactly the prices that fewer than n prices better: the highest of a bid side, the lowest of an ask side |
| `Books.Book.TopOfBook` | internal/book/views.go:11-18 | no bid is above the returned bid and no ask below the returned ask, both as they rest; ok exactly when neither side is empty |
| `Books.Book.Depth` | internal/book/views.go:22-34 | both sides are the depth-n view, bids falling and asks rising in price; n <= 0 gives every level |
| `Books.Extreme` | internal/book/views.go:37-49 | one pass in any map order finds the highest or the lowest level, or that there is none |
| `Books.SortedLevels` | internal/book/views.go:53-65 | every level of a side, strictly sorted by price in the asked direction, whatever the map order |
| `Engine.FoldKeepsLastWrite` | internal/book/book.go:118-128 | after any updates each level is what the last update to it said, untouched levels are kept |
| `Engine.LoadContents` | internal/book/book.go:82-93 | a loaded side holds the last nonzero level of each price in the list and nothing else |
| `Replaying.ExactReplay` | internal/book/book.go:78-105 | lastSeq ends at the unbroken range after the snapshot, each number up to it applied once in order, the new buffer is exactly what lies beyond, sorted, synced iff it is empty, counters and dropped exact |
| `Replaying.SortOrderIsIrrelevant` | internal/book/book.go:99-104 | every order the unstable sort may pick gives the same counters, lastSeq, synced flag and buffer contents |
| `Replaying.SortOrderIsUnique` | internal/book/book.go:99-104 | when equal numbers mean equal updates, every order gives the same state |
| `Runs.SafetyOverRuns` | internal/book/book.go:54-128 | in every reachable state a seeded book equals the venue's book at lastSeq, an unseeded one is empty, and the buffer is authentic and bounded |
| `Runs.NeverStoresZero` | internal/book/book.go:78-128 | over any run at all, no stored level has size zero |
| `Runs.InOrderIsTruth` | internal/book/book_test.go:201-227 | the reference: a seeded book fed the stream in order equals the venue's book |
| `Runs.SnapshotConverges` | internal/book/book.go:78-105 | an authentic snapshot of any book with an authentic buffer leaves it synced iff the buffer has no hole after the snapshot, and then at the in-order state of the highest number |
| `Runs.BacklogConverges` | internal/book/book.go:54-115 | any backlog, in any order and beyond the cap: the buffer is its last MAX_PENDING, the excess is counted as dropped, and the next snapshot converges iff what was kept has no hole |
| `Runs.InOrderBacklog` | internal/book/book.go:107-115 | a backlog that arrived in order is recovered iff the snapshot reaches its start and is at most 100,000 numbers behind its end |
| `Runs.ResyncConverges` | internal/book/book.go:54-115 | after a gap or before any snapshot, with h..n delivered in any order: in-order state of max(s, n) iff s >= h - 1, otherwise the whole buffer is kept and a gap counted |
| `Accounting.RunsBalance` | internal/book/book.go:54-115 | every update handed over is exactly one of applied, ignored, pending, dropped, and dropped counts the last kind |
| `Accounting.RunsAreLawful` | internal/book/book.go:54-115 | buffer bounded, empty when synced, non-empty after a gap; gaps = resyncs + recoveries at lastSeq zero + outstanding gap |
| `Accounting.ChargeFollowsBook` | internal/book/book.go:54-115 | an update is entered as applied iff lastSeq moved, as ignored iff nothing changed, and the oldest of the buffer as dropped iff the counter moved |
| `Accounting.OnlyNewUpdatesDrop` | internal/book/book.go:97-115 | replay never drops; a drop happens exactly when a buffer of 100,000 meets a new update it must keep |
| `Accounting.CountersAgreeIff` | internal/book/book.go:78-81 | gaps - resyncs is the outstanding gap iff no recovery happened at lastSeq zero |
| `Accounting.PositiveSnapshotsCount` | internal/book/book.go:78-81 | with snapshot numbers from one the counter law always holds and lastSeq tells seeded from new |
| `Accounting.SnapshotAtZeroUndercounts` | internal/book/book.go:79-81 | a concrete run with one gap, recovered, and no resync counted |
| `Views.DepthIsUnique` | internal/book/views.go:20-34 | Depth(n) is the one strictly sorted list of the n best levels |
| `Views.DepthInOrder` | internal/book/views.go:20-34 | bids from the highest price down, asks from the lowest up, as many as asked for or as there are, and whatever is not listed lies beyond all that is |
| `Views.TrimKeepsBest` | internal/book/book.go:130-156 | the same for what a trim keeps and cuts, in plain prices |
| `Views.TrimThenDepth` | internal/book/book.go:130-137 | the full view after Trim(n) is Depth(n) before it |
| `Views.TrimsCompose` | internal/book/book.go:130-156 | Trim(m) after Trim(n) is Trim(min(m, n)) |
| `Views.SameWindow` | internal/book/book.go:130-133 | a side that contains the window and otherwise only levels of the true book has the same window |
| `Numbering.SnapshotSupersedes` | internal/venue/coinbase/book.go:151-166 | a self-numbered snapshot skips everything buffered, in any sort order |
| `Numbering.SessionsAreLawful` | internal/venue/coinbase/book.go:87-92 | a seeded feed is synced at its counter, buffer empty, gaps = resyncs = 0; unseeded it is empty |
| `Numbering.SessionLevels` | internal/venue/coinbase/book.go:142-177 | a seeded feed's levels are the plain fold of its acts |
| `Numbering.LevelsSinceSnapshot` | internal/venue/coinbase/book.go:151-166 | nothing before the last snapshot affects the levels |
| `PersistedLog.EmitSnapshot` | internal/venue/book.go:15-31 | every level becomes one snapshot row, bids as Buy then asks as Sell, in order, each field as it was |
| `PersistedLog.LogIsNumbered` | internal/venue/coinbase/book.go:151-175 | snapshots and changes are numbered from one without holes, and rows bear those numbers in order, only the rows of one snapshot sharing theirs |
| `PersistedLog.ReadSnapshot` | internal/venue/book.go:13-31 | a snapshot's rows read back as the levels the engine loads, unless there were none |
| `PersistedLog.LogAgreesIff` | internal/venue/book.go:5-31 | the rows read back as the live book after every act of any session iff every empty snapshot finds nothing to clear and every trim of a seeded book finds nothing to cut |
| `PersistedLog.FramesAgreeIff` | internal/venue/book.go:5-31 | the same condition decides agreement after every frame: within a frame the rows cannot go wrong and come right again |
| `PersistedLog.EmptySnapshotLeavesStaleRows` | internal/venue/book.go:13-31 | a concrete log that keeps a level the live book has cleared |
| `PersistedLog.PushedOutLevelStaysInRows` | internal/venue/kraken/book.go:205-208 | a concrete ten-level session whose rows keep a bid that the trim has cut |
| `Sessions.SeqBook.Snapshot` | internal/venue/coinbase/book.go:151-154 | takes the next number, reseeds the book, and the rows to emit |
| `Sessions.SeqBook.Change` | internal/venue/coinbase/book.go:168-175 | takes the next number, applies the update, and the row to emit |
| `Sessions.BookTable.OpenBook` | internal/venue/kraken/book.go:167-171 | a missing book is created, existing ones are untouched |
| `Sessions.BookTable.Snapshot` | internal/venue/coinbase/book.go:146-154 | only the named book moves, and its snapshot rows follow all earlier rows if there is a sink |
| `Sessions.BookTable.Change` | internal/venue/coinbase/book.go:168-175 | only the named book moves, and its row follows all earlier rows if there is a sink |
| `Sessions.BookTable.Changes` | internal/venue/okx/book.go:193-203 | a list of changes is the sequence of its single changes |
| `Sessions.BookTable.Trim` | internal/venue/kraken/book.go:205-208 | only the named book is trimmed, no number is taken and no row emitted |
| `Sessions.SessionsSplit` | internal/venue/coinbase/book.go:117-118 | each symbol's book and rows are those of its own acts, however symbols interleave |
| `Sessions.ChangeRows` | internal/venue/okx/book.go:193-203 | a list of changes writes one row each, in order, tagged with its symbol, under that symbol's next numbers |
| `Sessions.PersistIsPassive` | internal/venue/book.go:5-18 | persisting or not makes no difference to any book; without a sink no row is kept, with one the rows only grow |
| `Wire.ReadLevel` | internal/venue/kraken/bookparse.go:26-41 | price first, then size, at eight decimals, with the first error |
| `Wire.ReadLevels` | internal/venue/coinbase/bookparse.go:119-134 | every level in order, or the error of the first bad one |
| `Wire.ParseAllIsPointwise` | internal/venue/coinbase/bookparse.go:119-134 | a list parses exactly when each element does, to those values |
| `Coinbase.ReadChanges` | internal/venue/coinbase/bookparse.go:85-116 | every change in order, or the error of the first bad one |
| `Coinbase.ChangesFrameMeans` | internal/venue/coinbase/bookparse.go:72-117 | exactly which frames are updates, a malformed time included, and what each change says |
| `Coinbase.SnapshotFrameMeans` | internal/venue/coinbase/bookparse.go:51-70 | exactly which frames are snapshots and what they show |
| `Coinbase.Connector.Receive` | internal/venue/coinbase/book.go:120-139 | a parsed frame does its acts, a bad one is skipped, and the session ends iff the frame is of kind "error" |
| `Coinbase.OtherFramesMean` | internal/venue/coinbase/bookparse.go:37-48 | exactly which frames are the venue's refusal, its acknowledgement, or of no known kind |
| `Coinbase.Connector.DispatchSnapshot` | internal/venue/coinbase/book.go:144-157 | one snapshot act on the frame's symbol |
| `Coinbase.Connector.DispatchChanges` | internal/venue/coinbase/book.go:158-177 | one change act per update in order, and no book opened for none |
| `Coinbase.BookIsSnapshotPlusChanges` | internal/venue/coinbase/book.go:142-177 | in every session a seeded book is synced at the counter, nothing buffered or counted, levels the last snapshot folded with every later change |
| `Coinbase.PersistedRowsReplay` | internal/venue/coinbase/book.go:151-175 | a session's rows for a symbol read back as its live book after every frame since the first snapshot iff no empty snapshot has levels to clear |
| `Okx.ReadBookLevels` | internal/venue/okx/bookparse.go:22-39 | every row in order, or the first error: too few fields, price, size |
| `Okx.RowsMean` | internal/venue/okx/bookparse.go:21-39 | exactly which rows parse, and to which levels |
| `Okx.Connector.ApplyBook` | internal/venue/okx/book.go:139-186 | new books, rows and link, and the error, on every branch including a frame whose asks fail after its bids applied |
| `Okx.Connector.ApplySnapshotFrame` | internal/venue/okx/book.go:149-166 | both sides parse before anything is applied; the link moves to the snapshot's seqId |
| `Okx.Connector.ApplyChanges` | internal/venue/okx/book.go:172-180 | bids then asks; the link moves only when both applied |
| `Okx.RowErrors` | internal/venue/okx/bookparse.go:22-39 | a row fails for having fewer than two fields, else for a bad price, else for a bad size |
| `Okx.FrameErrors` | internal/venue/okx/book.go:149-186 | why a frame ends the session: a gap first, then its bids, then its asks |
| `Okx.RejectedFrame` | internal/venue/okx/book.go:149-180 | a frame with a gap, with bad bids, or a snapshot with a bad side changes no book, link or row; its book is opened |
| `Okx.LinkedFrame` | internal/venue/okx/book.go:172-204 | a linked update applies and writes its bids and then its asks, or its bids alone when the asks are bad, and only the whole frame moves the link |
| `OkxChain.FrameStep` | internal/venue/okx/book.go:72-77 | an authentic frame is accepted iff it is a snapshot or starts where the book stands, and leaves the book where it ends |
| `OkxChain.ChainSafety` | internal/venue/okx/book.go:139-204 | under any delivery of authentic frames the session goes on iff every instrument's frames form contiguous segments, and then each book is the venue's at lastSeqID |
| `OkxChain.SessionBooks` | internal/venue/okx/book.go:158-204 | in any session, whatever the frames, a seeded book is lawful and is its last snapshot folded with what was applied since |
| `OkxChain.PersistedRowsReplay` | internal/venue/okx/book.go:158-204 | an instrument's rows read back as its live book after every frame since the first snapshot, rejected frames included, iff no empty snapshot has levels to clear |
| `Kraken.Connector.ApplyBook` | internal/venue/kraken/book.go:166-223 | new books and rows and the error on every branch: parse errors keep earlier levels, trimming only after success, checksum only with a known precision |
| `Kraken.Connector.ApplyText` | internal/venue/kraken/book.go:228-245 | a level that parses is applied and emitted, one that does not changes nothing |
| `Kraken.Connector.ApplySide` | internal/venue/kraken/book.go:227-248 | the changes up to the first bad level are applied, with its error |
| `Kraken.Connector.Validate` | internal/venue/kraken/book.go:210-218 | a mismatch exactly when the precision is known and the sums differ |
| `Kraken.Connector.ChecksumOf` | internal/venue/kraken/book.go:212-213 | the CRC over the depth-ten views of the book |
| `Kraken.Connector.OnInstrument` | internal/venue/kraken/book.go:141-143 | from then on looking up the pair finds this precision, whatever it was before, and every other pair's lookup is as it was |
| `Kraken.PrefixOfGood` | internal/venue/kraken/book.go:227-236 | level-by-level parsing agrees with parsing the whole list |
| `Kraken.GoodPrefixMeans` | internal/venue/kraken/book.go:227-236 | what is applied parses level for level, up to the first level that does not, with its error |
| `Kraken.UpdateFrame` | internal/venue/kraken/book.go:196-248 | an update applies and writes every level before the first bad one, bids then asks, and trims to ten only if there is none |
| `Kraken.SnapshotFrame` | internal/venue/kraken/book.go:173-208 | a snapshot reseeds the book with its ten best levels a side, or changes nothing if a level is bad |
| `Kraken.FrameErrors` | internal/venue/kraken/book.go:173-223 | why a frame fails: its bids first, then its asks, only then its checksum, and that only with a known precision |
| `KrakenWindow.FrameKeepsWindow` | internal/venue/kraken/book.go:197-208 | apply-then-trim takes the venue's old window to its new one, pushed-out levels unmentioned |
| `KrakenWindow.SessionShowsWindow` | internal/venue/kraken/book.go:166-223 | after every frame of any honest session each seeded book is the venue's ten best levels per side |
| `KrakenWindow.HonestChecksumsMatch` | internal/venue/kraken/book.go:205-218 | on an honest session a mismatch is found iff the frame's checksum is not the CRC of the venue's own level texts, stripped, asks from the lowest up then bids from the highest down |
| `KrakenWindow.HonestFrameRefusedIff` | internal/venue/kraken/book.go:166-223 | the connector refuses an honest frame of a seeded book for exactly that reason, and never before the pair's precision is known |
| `KrakenWindow.SessionsAreNumbered` | internal/venue/kraken/book.go:189-247 | in any session seeded books are synced at the counter, nothing buffered or counted |
| `KrakenWindow.PersistedRowsReplay` | internal/venue/kraken/book.go:189-208 | a symbol's rows read back as its live book after every frame since the first snapshot iff no empty snapshot has levels to clear and no frame leaves more than ten levels on a side |
| `Checksum.BookChecksum` | internal/venue/kraken/checksum.go:28-39 | the CRC of ask fields then bid fields |
| `Checksum.AppendSide` | internal/venue/kraken/checksum.go:30-35 | appends price then quantity of the first ten levels |
| `Checksum.FieldAgreesWithCodec` | internal/venue/kraken/checksum.go:16-22 | the field of a parsed decimal is its text without dot and leading zeros, iff it is not zero |
| `Checksum.InputSpellsTexts` | internal/venue/kraken/checksum.go:24-39 | the CRC's bytes are the venue's own level texts stripped, asks from the best up then bids from the best down |
| `Checksum.FieldTruncates` | internal/venue/kraken/checksum.go:16-22 | a field spells the value cut to the precision, without leading zeros |
| `Checksum.NegatedField` | internal/venue/kraken/checksum.go:16-22 | cutting is toward zero: a negative field is a minus sign and the positive one, or "0" |
| `Checksum.SmallBook` | internal/venue/kraken/checksum.go:28-39 | a concrete book with different price and quantity precisions, and its byte string |
| `Checksum.TrimKeepsChecksumInput` | internal/venue/kraken/book.go:205-208 | trimming to ten does not change the CRC's bytes |
| `Fixed.ParseFixed` | internal/norm/fixed.go:23-78 | the result and each error kind, with no int64 step overflowing |
| `Fixed.CheckDigits` | internal/norm/fixed.go:82-89 | true exactly on ASCII digits |
| `Fixed.ReadDigits` | internal/norm/fixed.go:56-66 | the stepwise test fails exactly when the digits exceed 2^63 - 1 |
| `Fixed.ReadScaled` | internal/norm/fixed.go:56-73 | reading and padding fail exactly when the scaled value exceeds 2^63 - 1 |
| `FixedLaws.ParseIsExact` | internal/norm/fixed.go:16-23 | parsing gives v iff dp is in 0..18 and the string is a numeral whose value times 10^dp is the integer v of magnitude at most 2^63 - 1 |
| `FixedLaws.ParseClassifies` | internal/norm/fixed.go:56-77 | a numeral that scales to an integer is accepted or overflows by its size alone |
| `FixedLaws.ErrorsClassified` | internal/norm/fixed.go:33-55 | non-numerals are empty or have a bad character; too-precise exactly when no integer scaling exists |
| `FixedLaws.NothingToRead` | internal/norm/fixed.go:24-45 | a bad scale is refused first; then exactly six strings, "" and a bare sign or dot, are empty |
| `FixedLaws.SignsOnlySign` | internal/norm/fixed.go:27-77 | a plus sign changes nothing, a minus sign only the sign of the result |
| `FixedLaws.MagnitudeIsAbs` | internal/norm/fixed.go:102-107 | negating in uint64 gives the absolute value for every int64 |
| `FixedLaws.FormatDenotes` | internal/norm/fixed.go:91-113 | every int64 formats to a numeral with exactly dp fraction digits denoting it |
| `FixedLaws.FormatIsTheSpelling` | internal/norm/fixed.go:91-113 | a string is the formatted value iff it is its one canonical spelling: a sign only if negative, no leading zeros, exactly dp digits after a dot that is there iff dp is not zero |
| `FixedLaws.ParseOfFormat` | internal/norm/fixed_test.go:101-118 | parse of format is the identity except for the least int64, which overflows |
| `FixedLaws.FormatOfParseIsCanonical` | internal/norm/fixed.go:91-93 | two accepted strings format alike iff they denote the same number |
| `Batcher.WithDefaults` | internal/sink/batcher.go:45-65 | positive settings are kept; otherwise a batch is 10,000 rows and the channel holds two batches |
| `Batcher.ConservationAndOrder` | internal/sink/batcher.go:101-183 | before cancellation written batches, buffer and channel are the accepted rows in order; batches hold 1..MaxRows rows; in flight at most MaxRows + Buffer |
| `Batcher.FlushTriggers` | internal/sink/batcher.go:115-148 | an Insert starts exactly when a received row fills the batch, or a tick or the end of the drain finds rows in hand |
| `Batcher.TickFlushes` | internal/sink/batcher.go:115-132 | in every run what a tick finds in hand is written, right after all batches before it, by the time the loop selects again |
| `Batcher.CleanShutdown` | internal/sink/batcher.go:185-200 | without a deadline every row whose Add returned before Close is written exactly once in order |
| `Batcher.ChannelHoldsLateRows` | internal/sink/batcher.go:133-148 | once the drain has found the channel empty nothing is received again, deadline or not: the channel holds exactly the rows sent since |
| `Batcher.CleanExitIff` | internal/sink/batcher.go:185-200 | at an exit without a deadline the written and the late rows are the accepted ones, and everything accepted is written iff no Add sent a row after the drain found the channel empty |
| `Batcher.NoAddDuringClose` | internal/sink/batcher.go:98-106 | if no Add sends once Close has been called, everything accepted is written |
| `Batcher.StrandedRow` | internal/sink/batcher.go:98-106 | a concrete run that accepts a row and exits cleanly without writing it |
| `Batcher.AbruptShutdown` | internal/sink/batcher.go:152-183 | with a deadline the written rows are an in-order subsequence, and either outcome of the one Insert of a batch started after it ends that batch |
| `Batcher.CancelledLoopTerminates` | internal/sink/batcher.go:124-149 | after the deadline the loop takes at most a bounded number of steps, idle ticks aside |
| `Batcher.CancelledLoopNeverSticks` | internal/sink/batcher.go:152-183 | until it exits the cancelled loop always has a step to take |
| `Queue.AtLeastOnce` | internal/queue/queue.go:103-156 | in every reachable state each row has been inserted at least as often as messages decoding to it have left the log, only undecodable ones leave without an insert, nothing else is inserted |
| `Queue.Consumer.ConsumeBatch` | internal/queue/queue.go:127-153 | one round's exact effect on log and sink, and the exact protocol steps it takes, naks included, from one reachable state to another |
| `Queue.Consumer.Decode` | internal/queue/queue.go:129-137 | rows are the decodable messages in order; poison messages are acked |
| `Queue.Consumer.AckAll` | internal/queue/queue.go:151-153 | exactly the messages whose ack arrives leave the log |
| `Queue.Consumer.NakAll` | internal/queue/queue.go:144-150 | one nak for each decoded message, the log as it was |
| `Tape.Registry.OnTrade` | internal/live/registry.go:93-107 | the ring is the last 500 trades under consecutive ids |
| `Tape.Registry.LatestTradeId` | internal/live/registry.go:121-125 | the number of trades so far |
| `Tape.Registry.TradesSince` | internal/live/registry.go:129-149 | the rows show, venue, symbol, side, size and price, the trades after the cursor among the last 500, oldest first, as many as there are up to the limit (one for a limit of zero); the cursor moves to the last |
| `Tape.PollIsConsecutive` | internal/live/registry.go:127-149 | a poll returns consecutive ring entries after the cursor |
| `Tape.PollStartsFirst` | internal/live/registry.go:127-137 | a poll with anything to return starts with the first ring entry after the cursor |
| `Tape.PollIsExact` | internal/live/registry.go:129-149 | as many entries as there are up to the limit, and the cursor of the last; the limit is exceeded iff it is zero and there is an entry |
| `Tape.PollsSkipOnlyEvicted` | internal/live/registry.go:127-149 | over any interleaving outputs are strictly increasing and skip only trades evicted when the cursor passed them |
| `Tape.PromptPollsAreComplete` | internal/live/registry.go:119-149 | a client never more than 500 behind receives every trade exactly once |
| `Tape.RowsParseBack` | internal/live/registry.go:138-142 | a row names its trade's venue, symbol and side and spells its numbers, which parse back, the least int64 excepted |

## Left out

- Books.Book.Apply: sequence numbers are unbounded; `lastSeq + 1` wrapping at 2^64 is not modelled.
- Books.Book.ApplySnapshot: venue, symbol and timestamps of books, updates and snapshots are not carried; the engine never reads them.
- Sessions.BookTable.Changes: the row of a change goes to one in-memory list; what the sink does with it is the batcher's and the queue's part.
- Coinbase.Connector.Receive: a frame's time is only absent, well-formed or malformed, as tickstore's parser tells them apart; the instant it names is not carried. JSON decoding comes before the model.
- Kraken.Connector.ApplyBook: a precision outside 0..8, which would index out of range, is excluded by type; the CRC32 is a parameter.
- Okx.Connector.ApplyBook: the link fields live in a map of the connector beside the books, not inside each book's record.
- Fixed.ParseFixed: error messages are reduced to their kind; strings are sequences of characters rather than bytes, and any non-digit is a bad character either way.
- Batcher.ConservationAndOrder: the run loop, producers and Close are a state machine on values, so the reuse of the buffer's backing array after an Insert is not modelled; backoff lengths, jitter and the ticker are free choices.
- Queue.AtLeastOnce: the log is a set of messages with redelivery and no expiry; the publisher and the broker are not modelled.
- Tape.Registry.OnTrade: the last-trade map and the registry's book snapshots, quotes and ladders are display state; the time column and the lock are not modelled.
- Observer callbacks, metrics, logging, reconnects and websocket sessions: I/O around the modelled frames.
- Trade normalizers, symbol splitting, bucket and query helpers, configuration, dashboard handlers: one-branch facts that would only add easy members.
- ClickHouse SQL, migrations and history queries: their meaning lives in the database.
