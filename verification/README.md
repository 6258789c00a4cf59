# A verified model of blit's sequence numbers, channels and frames

This project models the parts of blit in which two representations of the same thing have
to agree for good: row numbers that outlive the grid's own numbering, a channel protocol
with credit, payload codecs written in two languages, a pattern wait that may neither miss
nor invent a line, and the frame bytes that one side packs and the other unpacks. `dafny
verify dfyconfig.toml` checks all of it.

| file | what it covers |
|---|---|
| `Grid.dfy`, `Scrollback.dfy` | the emulator's grid as a contract, and the driver's row numbers over every run |
| `SeqText.dfy` | reading rows by number with a byte budget, and by distance from the bottom |
| `LineMatcher.dfy`, `WaitPattern.dfy` | `blit wait --pattern`: the incremental matcher, the client, the server and the two queues between them |
| `CursorContract.dfy`, `WaitPages.dfy` | what the driver's reader really gives that client: resumed reads and budgeted pages |
| `DriverCursor.dfy`, `WaitDriver.dfy` | the same over the driver's own chunks: the cursor it reports, and the wait with its reader behind the server |
| `SendCredit.dfy`, `Invocation.dfy` | send credit with cumulative acknowledgements, and the invocation loop on top of it |
| `Utf8.dfy`, `Wire.dfy`, `Response.dfy` | strict UTF-8, the invocation codec, and the provider's responses as the client reads them |
| `ModeTracker.dfy` | the driver's scan for mode changes and the packed mode word |
| `CellCodec.dfy`, `Frame.dfy` | the twelve-byte cell, hyperlink interning, a whole frame |
| `GlyphAtlas.dfy` | the shelf allocator and the glyph cache of the browser |
| `Follow.dfy` | following an extension's output with every lost record accounted for |
| `ForwardSpec.dfy` | the grammar of port forwards |

Objects whose methods update fields are classes, loops are loops, and each is proved
against a specification function whose properties are proved separately. The emulator, the
terminal server and the network are foreign: the grid appears as the contract written in
the driver's comments (`crates/alacritty-driver/src/lib.rs:402-417`, `539-553`,
`579-587`), the server of the pattern wait as the cursor contract `AnswerOk`, and stdin,
the DOM, regular expressions, hashes and clocks as arbitrary parameters.

## Findings

Where the code does less than its comments or its callers suggest, the model follows the
code and says exactly when the property holds.

- **`oldest_seq` can fall** (`OldestCanFall`). On the alternate screen it reports
  `rotated_lines`; coming back with a non-empty history it drops to the first retained row.
  `OldestFallsOnlyLeavingAlt` shows these are the only such steps, and
  `OldestNeverFallsOnPrimary` what remains true.
- **Two sensors, one gap.** A chunk that rotates exactly the scrollback limit into an empty
  history is still counted; any other one that rotates at least the limit is counted short
  (`CountedExactly`, `LargeRotationIsMissed`). Lines rotated on the way to the alternate
  screen are only deferred: the parked offset keeps them, and the chunk that comes back adds
  them (`ReturnPays`, `DeferredIsPaid`). They are lost for good when the history was empty, so
  that there was no offset to park (`FirstRowsAreMissed`), or when the offset saturates at the
  limit; `AccountedExactly` says that this is all, and that nothing is ever counted twice.
- **A resize that overflows the history moves every number**, by the rows that fall off
  (`DriftOf`); for the cursor this is `ResizeMovesCursor` and `ResizeCanMoveCursor`.
- **A resize on the alternate screen renumbers the primary one.** Both grids are resized,
  but the correction reads the history of the current one, which is always empty. The rows of
  the primary screen keep their numbers if and only if the parked offset moved by as many rows
  as were pushed into the history or pulled out of it, full or not; if it stays parked, if and
  only if none were (`ResizeOnAltShiftsNames`, `ResizeOnAltRenames`, `FullHistoryRenames`).
- **`end_seq = 0` is not empty** while row 0 is retained: the exclusive end saturates and
  row 0 is returned (`EndIsExclusive`, `EndZeroReadsRowZero`).
- **A read resumed at the cursor is not always the continuation of the one before.** The
  pattern wait relies on it. `ResumedReadExact` gives the exact condition and `ContractMet`
  ties it to the contract the client is proved against. It fails in three ways, each shown
  for a whole family of screens. A blank printed just before the cursor is trimmed from the
  first read and lost when text follows (`BlankIsLost`; `"Continue? "` and the answer typed
  after it run together). Text standing at or past the cursor is read twice, in particular
  the last character of a full row whose wrap is pending (`PendingWrapIsRepeated`). Rows that
  fall off between two reads are skipped, because the client ignores the eviction flag
  (`EvictedRowsAreSkipped`). With the cursor on a fresh row, as after a newline, every later
  read resumes for as long as that row is held (`FreshRowResumes`).
- **Truncated pages are appended without a newline** by the pattern wait. The text matched
  is the text put out if and only if every page ends on a soft-wrapped row
  (`ChunksAreTheOutput`). Wherever the first page ends on a hard row end, the lines on either
  side of the break can match as one (`LinesAreGlued`); four thousand lines of 80 bytes suffice
  for the budget and the limit the client has (`GluedByDefault`).
- **An exit during the probe is lost.** `probe_cursor` drops everything but its reply, so a
  process that exits before the reply arrives is never reported, and the wait can only time
  out (`NoLostWakeup`; `ExitDuringProbeIsMissed` is the run).
- **Zero-width marks on a blank cell are dropped** (`SpaceLosesMarks`), which a combining mark
  after a space produces. The only other cells that do not read back are those in named
  colours from 256 on other than the defaults (`DecodeUndoesEncode`); the format keeps the
  low byte, but no colour sequence known here selects them.
- **Two kinds of parsed specs do not parse back once printed**: a `tcp` spec with a slash in
  an address, which can be typed behind `tcp/` (`TypedSlashIsLost`), and any spec with an
  address that opens with a bracket and has no colon, as in `[[a]:1:h:2`
  (`TypedBracketIsLost`). `ParsedSpecSurvives` shows that these are all.
- **The glyph atlas never grows.** `ensure_capacity` is only asked for the glyphs already
  held, and as many as the smallest atlas can hold never need a larger one, although
  `size_for_glyphs` counts the columns of the largest (`HeldGlyphsFit`, `DrawAll`). When the
  atlas is full, further glyphs are refused rather than given a larger atlas.
- **The erase test for an empty parameter list never fires**: a final byte always pushes a
  parameter first, so `CSI J` erases with parameter 0 and resets nothing (`EraseResets`).

## Model

| member | source | states |
|---|---|---|
| Scrollback.TerminalDriver.Process | crates/alacritty-driver/src/lib.rs:493-512 | from every state, one chunk advances `rotated_lines` by exactly the rows it rotated out of the primary viewport if and only if it is countable, and its rows are counted by the time the terminal is back on the primary screen if and only if it is accountable |
| Scrollback.TerminalDriver.ArmScrollProbe | crates/alacritty-driver/src/lib.rs:518-528 | the display offset is left at one, or at zero when there is no history, whatever it was |
| Scrollback.TerminalDriver.ReadScrollProbe | crates/alacritty-driver/src/lib.rs:535-560 | `scrolled_lines` grows by what the offset probe saw and `rotated_lines` by the larger of the two sensors, history growth counting only when no screen was crossed |
| Scrollback.TerminalDriver.Resize | crates/alacritty-driver/src/lib.rs:567-599 | any resize, on either screen: `rotated_lines` follows the signed change of the current history; when only rows change on the primary screen the cursor keeps its number if and only if the history had room for the rows pushed into it |
| Scrollback.TerminalDriver.CursorSeq | crates/alacritty-driver/src/lib.rs:853-857 | the number of the row the cursor is on, by which that row is found, the first number of the screen if the cursor is above it, and the cursor's own column |
| Scrollback.ProbeExact | crates/alacritty-driver/src/lib.rs:402-417 | the offset probe alone equals the true rotation exactly when the history was non-empty and the rotation stayed below the limit, or nothing rotated |
| Scrollback.ScrolledExactly | crates/alacritty-driver/src/lib.rs:535-538 | `scrolled_lines` never grows by more than the rotation of a chunk on the primary screen, and by all of it exactly when the probe is exact |
| Scrollback.GrowthExact | crates/alacritty-driver/src/lib.rs:539-553 | history growth alone equals the true rotation exactly when the history had room for all of it |
| Scrollback.CountedExactly | crates/alacritty-driver/src/lib.rs:518-560 | for every list of scrolls, writes and screen crossings from every state, the larger of the two sensors equals the true rotation if and only if the chunk is countable: ending on the alternate screen it rotates nothing; on the primary one fewer rows than the limit, or exactly the limit into an empty history; coming back from the alternate one it finds the probe parked, or an offset that saturates to just that count |
| Scrollback.AccountedExactly | crates/alacritty-driver/src/lib.rs:402-560 | counting what the parked offset still holds, no chunk is ever counted for more than its rotation, and it is counted in full if and only if nothing rotated, or the probe was armed and did not saturate, or it stayed on the primary screen and filled an empty history |
| Scrollback.ReturnPays | crates/alacritty-driver/src/lib.rs:535-560 | a chunk that comes back from the alternate screen adds all that the parked offset has gathered, saturated at the limit |
| Scrollback.DeferredIsPaid | crates/alacritty-driver/src/lib.rs:493-560 | rows rotated in the chunk that enters the alternate screen are counted by the chunk that leaves it, if there was a history and the total stays below the limit |
| Scrollback.FirstRowsAreMissed | crates/alacritty-driver/src/lib.rs:518-528 | without a history they never are |
| Scrollback.AdvanceKeepsNames | crates/alacritty-driver/src/lib.rs:493-512 | across any chunk, a sequence number that is still held names the row with the same content, unless the application wrote to that row |
| Scrollback.ResizeMovesRows | crates/alacritty-driver/src/lib.rs:567-599 | a resize of rows only moves every row it retains by exactly the rows pushed or pulled, whether or not they fit the history |
| Scrollback.ResizeMovesCursor | crates/alacritty-driver/src/lib.rs:579-599 | the correction of `rotated_lines` cancels the cursor's own move exactly when nothing falls off the history |
| Scrollback.DriftOf | crates/alacritty-driver/src/lib.rs:493-599 | how far the numbers of one step fall behind: not at all for exactly the exact steps; never below zero for output; by the rows that fall off for a resize on the primary screen; by what the parked offset misses for one on the alternate screen |
| Scrollback.StepKeepsInv | crates/alacritty-driver/src/lib.rs:493-599 | every exact step keeps the counter, with what is still owed, at least the history length (no saturating subtraction clips), and the first number held never falls |
| Scrollback.RunMovesNames | crates/alacritty-driver/src/lib.rs:493-599 | over every run whatever of chunks, crossings and row-only resizes on either screen, a row that is held and not overwritten goes by its old number less the sum of the drifts |
| Scrollback.RunCountsAll | crates/alacritty-driver/src/lib.rs:493-599 | over every run of exact steps between two moments on the primary screen, `rotated_lines` advances by exactly the rows that moved, on the way to the alternate screen and back included |
| Scrollback.RunKeepsNames | crates/alacritty-driver/src/lib.rs:493-599 | over every run of exact steps (accountable chunks, resizes that fit, resizes on the alternate screen that the parked offset makes good), a number names the same row for as long as the row is held and not overwritten |
| Scrollback.HistoryRowsAreUndisturbed | crates/alacritty-driver/src/lib.rs:493-599 | for a row that stays in the history no assumption about the application is needed |
| Scrollback.BaseNeverFalls | crates/alacritty-driver/src/lib.rs:493-599 | over every run of exact steps nothing drifts and the first number of the primary grid never decreases |
| Scrollback.OldestFallsOnlyLeavingAlt | crates/alacritty-driver/src/lib.rs:861-863 | among exact steps `oldest_seq` decreases at exactly those that leave the alternate screen while the primary history is non-empty (see the findings) |
| Scrollback.OldestNeverFallsOnPrimary | crates/alacritty-driver/src/lib.rs:861-863 | between any two moments on the primary screen of a run of exact steps it never decreases |
| Scrollback.OldestCanFall | crates/alacritty-driver/src/lib.rs:861-863 | a terminal on which it does |
| Scrollback.LargeRotationIsMissed | crates/alacritty-driver/src/lib.rs:535-560 | a chunk that rotates more than the limit, and is counted short |
| Scrollback.ResizeOnAltShiftsNames | crates/alacritty-driver/src/lib.rs:567-599 | a row-only resize on the alternate screen, of any history, leaves `rotated_lines` alone; every row of the primary screen changes its number by the rows pushed or pulled less what the parked offset gained, and by all of them if it stays parked (see the findings) |
| Scrollback.ResizeOnAltRenames | crates/alacritty-driver/src/lib.rs:567-599 | a full-screen program, a shorter window, and a number that names the next row afterwards |
| Scrollback.FullHistoryRenames | crates/alacritty-driver/src/lib.rs:567-599 | the same on a full history, whose length does not change |
| Scrollback.ResizeCanMoveCursor | crates/alacritty-driver/src/lib.rs:567-599 | a resize without scrollback, and a cursor number that changes |
| SeqText.RowText | crates/alacritty-driver/src/lib.rs:776-797 | the text of a range of columns, spacers skipped, zero-width marks kept, trailing space kept only on a soft-wrapped row |
| SeqText.ReadSeqText | crates/alacritty-driver/src/lib.rs:872-951 | the imperative reader returns the page specified by the longest run of rows that fits the budget, with the resume cursor, truncation and eviction flags |
| SeqText.FittingIsLongest | crates/alacritty-driver/src/lib.rs:923-949 | the rows of a page are the longest prefix within the byte budget, and at least one row |
| SeqText.PageText | crates/alacritty-driver/src/lib.rs:872-951 | each page holds exactly the rows from its start to its end, and is no longer than the larger of the budget and its first row |
| SeqText.PagesPartition | crates/alacritty-driver/src/lib.rs:872-951 | resuming from `next_seq`/`next_col` until a page is not truncated terminates and covers every requested row once, in order |
| SeqText.PagesJoinToFullText | crates/alacritty-driver/src/lib.rs:872-951 | the pages joined by one newline wherever the last row does not soft-wrap equal the unbudgeted text |
| SeqText.UnbudgetedRead | crates/alacritty-driver/src/lib.rs:872-951 | a budget the text fits returns all of it in one untruncated page |
| SeqText.GetTextRange | crates/alacritty-driver/src/lib.rs:799-845 | the tail-addressed reader returns the rows between two distances from the bottom, clipped to what is held |
| SeqText.SeqReadIsTailRead | crates/alacritty-driver/src/lib.rs:799-951 | the two readers return the same string for every range of held rows read to the last column, every start column and wrap pattern, when the budget does not bind |
| SeqText.EndIsExclusive | crates/alacritty-driver/src/lib.rs:896-921 | the exclusive end excludes its row for every request except `end_seq = 0` from row 0 while row 0 is held |
| SeqText.EndZeroReadsRowZero | crates/alacritty-driver/src/lib.rs:896-921 | reading up to 0 returns row 0 on every terminal that still holds it |
| SeqText.RowReadsAsLaid | crates/alacritty-driver/src/lib.rs:776-797 | a row reads as the characters laid out in it: wide ones once, marks kept, cells never written to as blanks, trailing space only if it soft-wraps |
| SeqText.SelectionInOneRow | crates/alacritty-driver/src/lib.rs:799-845 | a selection within a row is that row between its two columns, however narrow |
| SeqText.SelectionCutsItsLastRow | crates/alacritty-driver/src/lib.rs:799-845 | a selection that ends before the last column is the sequence-addressed read of the rows before its last, and that row up to its last column |
| SeqText.SelectionIsClipped | crates/alacritty-driver/src/lib.rs:799-845 | a selection that starts above the first row held starts with it, at its first column; one above it or upside down is empty |
| SeqText.BoundedReadsMeet | crates/alacritty-driver/src/lib.rs:896-921 | a read bounded by a row, and one from where it left off, are the read of everything |
| SeqText.EvictionIsReported | crates/alacritty-driver/src/lib.rs:912-917 | rows are reported missing exactly when the read starts before the first one held, and it then starts there |
| SeqText.RunKeepsText | crates/alacritty-driver/src/lib.rs:872-951 | over any run, reading a history row by its number less the drift gives the text it had before; by its number, if all steps are exact |
| LineMatcher.FirstMatch | crates/cli/src/agent.rs:947-968 | the in-place matcher: the first matching complete line or the unfinished tail, otherwise the longest suffix of the tail within the limit is kept |
| LineMatcher.DropFront | crates/cli/src/agent.rs:960-966 | the cut falls on the first character boundary that leaves at most `max` bytes |
| LineMatcher.ReturnIsDropped | crates/cli/src/agent.rs:952-956 | a line is tested without the carriage return of its line end, and otherwise as it is |
| LineMatcher.KeepIsLongest | crates/cli/src/agent.rs:959-966 | what is kept is the longest suffix of at most `max` bytes |
| LineMatcher.PendingIsTail | crates/cli/src/agent.rs:947-968 | after any chunks without a match, what is kept depends only on the text, not on where it was split |
| LineMatcher.SplittingIsIrrelevant | crates/cli/src/agent.rs:947-968 | two ways of splitting the same text leave the same bounded state |
| LineMatcher.NothingMissed | crates/cli/src/agent.rs:947-968 | without a match so far, every complete line up to the pending limit was tested whole, and so was the unfinished line after every chunk |
| LineMatcher.OnlyOutputIsFound | crates/cli/src/agent.rs:947-968 | a reported string matches and is the end of a complete or partial line of the output |
| LineMatcher.MatchesWholeLines | crates/cli/src/agent.rs:942-968 | with no line over the limit, the incremental matcher reports exactly what rescanning the whole output after every chunk would |
| WaitPattern.WaitForPattern | crates/cli/src/agent.rs:975-1075 | having subscribed and read once from the probed cursor, the receive loop reacts to what comes in as the client of the runs does |
| WaitPattern.SessionIsRun | crates/cli/src/agent.rs:996-1066 | over every run, the loop given the messages its client took, the deadline and the end of the connection ends with the run's outcome, sends what that client sent and is left as it is |
| WaitPattern.WaitInRun | crates/cli/src/agent.rs:975-1075 | the same of the whole wait, from the probe on |
| WaitPattern.FirstEndDecides | crates/cli/src/agent.rs:996-1066 | whichever comes first of a message that ends the wait, a refused read, the deadline and the end of the connection decides, and nothing behind it is looked at |
| WaitPattern.EndHasACause | crates/cli/src/agent.rs:998-1030 | the wait times out only at the deadline, and fails only on a refused read or a lost connection |
| WaitPattern.AtMostOneRead | crates/cli/src/agent.rs:996-1066 | in every run with a FIFO server at most one read is out, and the in-flight flag says exactly whether there is one |
| WaitPattern.WaitIsSound | crates/cli/src/agent.rs:970-1075 | in every run with a server that meets the cursor contract: success is for the end of a line put out after the probe; an exit is reported only when everything put out up to it was read and no line up to the limit matches |
| WaitPattern.NoLostWakeup | crates/cli/src/agent.rs:986-1066 | under the same contract, a wait still waiting when all queues are empty has read and ruled out everything; the process has then exited if and only if it had exited while the probe was being answered, and that exit is never reported (see the findings) |
| WaitPattern.ExitDuringProbeIsMissed | crates/cli/src/agent.rs:986-994 | from every start at which the process has exited with nothing more to say, a run in which the client subscribes, reads, and waits on for good |
| WaitPattern.StepKeepsInv | crates/cli/src/agent.rs:996-1066 | every step of client, server and wire keeps the protocol invariant |
| WaitPages.ChunksAreTheOutput | crates/cli/src/agent.rs:1036-1048 | the chunks the client appends are the output if and only if every page ends on a soft-wrapped row |
| WaitPages.LinesAreGlued | crates/cli/src/agent.rs:1036-1048 | for every read of every screen whose first page ends on a hard row end: a pattern for its last line run together with the first line of the next page matches, though no line of the text does |
| WaitPages.RepeatedRowsAreGlued | crates/cli/src/agent.rs:1036-1048 | any line repeated until the budget is exceeded is such a screen: it is found twice over on one line |
| WaitPages.GluedByDefault | crates/cli/src/agent.rs:984-986 | with the client's own budget and pending limit, four thousand lines of 80 bytes do |
| WaitDriver.ReadOn | crates/alacritty-driver/src/lib.rs:872-951 | what was read up to a cursor or a row after a soft wrap, and what a read from there returns, are the text put out |
| WaitDriver.PageReads | crates/alacritty-driver/src/lib.rs:872-951 | every page, whole or cut short after a soft wrap, moves the place reached by exactly its text |
| WaitDriver.StepKeeps | crates/cli/src/agent.rs:996-1066 | every step of client, wire, server and driver keeps the record of what was read |
| WaitDriver.RunIsWait | crates/cli/src/agent.rs:996-1066 | every run over the driver's own replies is a run against the cursor contract |
| WaitDriver.DriverWaitIsSound | crates/cli/src/agent.rs:970-1075 | over every run in which the reads resume and pages break at soft wraps: success is for the end of a line on the terminal after the probe; an exit is reported only when everything on it was read and no line up to the limit matches |
| CursorContract.ResumedReadExact | crates/alacritty-driver/src/lib.rs:872-951 | the text read up to the cursor and the reply to a read resumed there are together the text put out, for every pair of views the second of which continues the first, if and only if nothing was written at or past the cursor, no trimmed blank before it turned into a gap, and no unread row fell off |
| CursorContract.ContractMet | crates/cli/src/agent.rs:1021-1048 | an untruncated reply of the driver meets the cursor contract of the pattern wait under exactly that condition |
| CursorContract.SessionReadsAll | crates/cli/src/agent.rs:1021-1048 | over any session in which every read meets the condition, the replies appended are the text put out |
| CursorContract.FreshRowResumes | crates/alacritty-driver/src/lib.rs:872-951 | with the cursor at the start of a row not written yet, the condition holds as long as that row is held |
| CursorContract.BlankIsLost | crates/alacritty-driver/src/lib.rs:776-797 | a blank printed just before the cursor is lost whenever text is printed after it |
| CursorContract.PendingWrapIsRepeated | crates/alacritty-driver/src/lib.rs:853-857 | on every full row with a wrap pending the last character is read twice |
| CursorContract.EvictedRowsAreSkipped | crates/alacritty-driver/src/lib.rs:912-917 | a row that falls off between two reads is missing from what the client is given |
| DriverCursor.CursorIsReported | crates/alacritty-driver/src/lib.rs:853-857 | after a chunk that leaves the cursor at a line and column of the screen, the driver reports the number of that row and that column |
| DriverCursor.ReadsTheGrid | crates/alacritty-driver/src/lib.rs:853-951 | the reader sees the rows of the grid, with the cursor where the emulator has it |
| DriverCursor.ChunkIsReadOn | crates/alacritty-driver/src/lib.rs:853-951 | for a chunk that writes at and past the grid's own cursor: reading to the end answers with that cursor, and the read resumed there returns the text from that cell on, repeating nothing before it while its row is held; the two are together what was put out exactly under the cursor contract's condition |
| SendCredit.SendCredit.RecordSend | crates/cli/src/extension_command.rs:759-768 | a send adds its length and one boundary, or changes nothing on overflow |
| SendCredit.SendCredit.ApplyAck | crates/cli/src/extension_command.rs:770-787 | an acknowledgement is accepted exactly when it is in range and on a boundary, and drops the boundaries it covers; a refused one changes nothing |
| SendCredit.CanSendExactly | crates/cli/src/extension_command.rs:742-757 | with any number of messages outstanding, a payload may go exactly when sending it keeps the window and the bound on messages |
| SendCredit.OverflowIsAnError | crates/cli/src/extension_command.rs:742-757 | counters that do not fit 64 bits are an error, unless too many messages are outstanding anyway |
| SendCredit.AckAcceptedExactly | crates/cli/src/extension_command.rs:770-787 | an acknowledgement is accepted exactly when it is the total of whole messages sent and of no fewer than were acknowledged before |
| SendCredit.AckKeepsSound | crates/cli/src/extension_command.rs:770-787 | whatever the peer sends, unacknowledged bytes stay within the window and the boundaries strictly increase between the acknowledged and the sent count |
| SendCredit.HonestAckAccepted | crates/cli/src/extension_command.rs:770-787 | a cumulative acknowledgement of whole messages, however delayed, is accepted and settles exactly those messages |
| SendCredit.CreditIsSafe | crates/cli/src/extension_command.rs:725-787 | over every FIFO run with an honest peer: none refused, bytes within the window, messages within the limit, boundaries exactly the strictly increasing running totals of the unacknowledged messages |
| SendCredit.SendableWhenSettled | crates/cli/src/extension_command.rs:742-757 | once everything is acknowledged a payload can go exactly when it is no longer than the window |
| Invocation.SendData | crates/cli/src/extension_command.rs:995-1007 | a payload goes out exactly when it has credit and a legal size, and is then recorded |
| Invocation.FlushPending | crates/cli/src/extension_command.rs:887-898 | the pending payload goes out as soon as it has credit, and nothing else changes |
| Invocation.ReadChunk | crates/cli/src/extension_command.rs:973-990 | a read takes a non-empty piece of stdin into the pending payload, or records the end and queues EOF |
| Invocation.Deliver | crates/cli/src/extension_command.rs:923-949 | a DATA payload is decoded, delivered once and acknowledged with the running total; an EXIT closes normally with its code; one that does not decode closes as cancelled, and an overflow of the count does not close at all |
| Invocation.Cancel | crates/cli/src/extension_command.rs:963-972 | a cancellation sends CANCEL only with credit and closes as cancelled either way |
| Invocation.Handle | crates/cli/src/extension_command.rs:900-991 | one wake-up keeps every invariant of the loop; an ACK changes exactly the credit or ends the loop |
| Invocation.RunInvocation | crates/cli/src/extension_command.rs:874-992 | for every order of events: INVOKE first; stdin sent, pending and unread always concatenate to the original input; EOF at most once and last; every DATA payload up to the end delivered in order and acknowledged; the exit code is 130 or that of the final EXIT; and the open loop is never held back by credit once everything is acknowledged; behind INVOKE nothing is sent but non-empty stdin, its end, and after a cancellation at most one CANCEL; a failure is due to the event named, and closes the channel as that event demands |
| Invocation.OtherInserted | crates/cli/src/extension_command.rs:963-966 | a message that carries no stdin can be sent ahead of the pending payload without reordering stdin |
| Invocation.ReceiveResponse | crates/cli/src/extension_command.rs:874-992 | fed the payloads of any response the provider can send, whatever else arrives short of a cancellation, an invocation that does not fail ends with that response's exit code and has delivered all of it; with nothing else it does not fail |
| Invocation.ReceiveServed | crates/cli/src/extension_command.rs:874-992 | fed all that a served invocation sends: if it did not parse, the handler threw or the response broke a limit, the client ends with exit code 1 and the message on stderr, otherwise with the handler's response |
| Invocation.InvocationIsSettled | crates/cli/src/extension_command.rs:770-787 | the acknowledgement of an invocation that parses gives the client its whole window back, and an invocation that does not parse gets none |
| Wire.ByteWriter.U16 | extensions/typescript/blit.ts:149-152 | appends two little-endian bytes |
| Wire.ByteWriter.U32 | extensions/typescript/blit.ts:154-162 | appends four little-endian bytes |
| Wire.ByteReader.Take | extensions/typescript/blit.ts:226-237 | returns the next bytes and advances, or fails past the end and stays where it was |
| Wire.ByteReader.U32 | extensions/typescript/blit.ts:207-215 | reads back a little-endian word |
| Wire.ByteReader.Text | extensions/typescript/blit.ts:239-241 | reads strict UTF-8 of a given length |
| Wire.ByteReader.Done | extensions/typescript/blit.ts:247-249 | succeeds exactly at the end |
| Wire.ValidateInvocationArgs | crates/cli/src/extension_command.rs:673-706 | accepts exactly the argument lists within the four limits |
| Wire.ValidExactly | crates/cli/src/extension_command.rs:676-706 | the lists accepted: at most 1024 arguments of at most 64 KiB, one MiB in all, and no more than that once encoded |
| Wire.EncodeInvoke | crates/cli/src/extension_command.rs:708-723 | encodes exactly the accepted lists, into at most one channel payload |
| Wire.DecodeInvocation | extensions/typescript/command.ts:242-256 | the reader returns the request specified by the grammar of the payload, or fails |
| Wire.DecodeUndoesEncode | crates/cli/src/extension_command.rs:708-723 | the provider reads back every argument list that passes validation, and the stdin flag |
| Wire.EncodeUndoesDecodeInvocation | extensions/typescript/command.ts:242-256 | whatever the provider accepts re-encodes to the same bytes |
| Wire.AcceptedIsPrefixFree | extensions/typescript/command.ts:242-256 | no accepted payload is a proper prefix of another |
| Wire.ExtensionOrTruncationRejected | extensions/typescript/command.ts:242-256 | every extension and every truncation of an encoded payload is rejected |
| Wire.EncodingInjective | crates/cli/src/extension_command.rs:708-723 | no two accepted argument lists share an encoding |
| Utf8.EncodeUtf8 | extensions/typescript/blit.ts:38-65 | the encoder writes the octets of each code point of section 3 of RFC 3629, with U+FFFD for an unpaired surrogate |
| Utf8.DecodeUtf8 | extensions/typescript/blit.ts:72-139 | the decoder returns the code units, or the index of the first bad octet |
| Utf8.DecodeAcceptsGrammar | extensions/typescript/blit.ts:72-139 | the decoder accepts exactly the octet strings of the grammar in section 4 of RFC 3629 |
| Utf8.FailsAtFirstBadOctet | extensions/typescript/blit.ts:72-139 | where decoding fails, everything before is well formed and no character starts there |
| Utf8.EncodeUndoesDecode | extensions/typescript/blit.ts:38-139 | re-encoding what was decoded gives the same octets |
| Utf8.DecodeUndoesEncode | extensions/typescript/blit.ts:38-139 | decoding what was encoded gives the text with each unpaired surrogate replaced by U+FFFD, pairs as in section 2 of RFC 2781 |
| Utf8.DecodeInjective | extensions/typescript/blit.ts:72-139 | no two octet strings decode to the same text |
| Response.MediaTypesAgree | crates/cli/src/extension_command.rs:1220-1243 | the provider's regular expression with its length check and the client's split accept the same media types |
| Response.TestMediaType | extensions/typescript/command.ts:293-295 | the match of the regular expression |
| Response.BytePayload | extensions/typescript/command.ts:279-291 | a stream payload is its kind and its bytes, nothing for no data, refused exactly when over the message limit |
| Response.SendResponse | extensions/typescript/command.ts:297-358 | a response is sent whole and the channel closed normally exactly when it meets every limit; otherwise nothing at all is sent |
| Response.ClientRecoversResponse | crates/cli/src/extension_command.rs:1043-1102 | the client accepts every payload of a sendable response and recovers stdout, stderr, result, exit code (two's complement) and detail |
| Response.DecodesExactly | crates/cli/src/extension_command.rs:1043-1102 | the client accepts exactly the payloads of legal outputs: a LOG level up to 4, one RESULT of a valid type, an EXIT with a 32-bit code, and UTF-8 text |
| Response.PayloadsHaveOneExit | extensions/typescript/command.ts:303-350 | the payloads of a response end in an EXIT and contain no other |
| Response.AwaitAccepted | extensions/typescript/command.ts:208-226 | skips to the next connection to our listener, or ends when the listener closes |
| Response.AwaitInvocation | extensions/typescript/command.ts:228-240 | skips to the first DATA of the channel, or gives up when it closes |
| Response.WaitsForConnection | extensions/typescript/command.ts:208-226 | nothing but a connection to our listener, or its end, ends the wait for one |
| Response.WaitsForItsData | extensions/typescript/command.ts:228-240 | a connection is served with the first DATA of its own channel, or not at all if that channel closes first; packets of other channels are dropped |
| Response.EndsWithListener | extensions/typescript/command.ts:213-215 | once our listener is closed nothing is served any more |
| Response.FailureIsReported | extensions/typescript/command.ts:413-423 | an invocation that does not parse, a handler that throws and a response that breaks a limit reach the client as the message on stderr and exit code 1 if that report fits the channel, and as a cancelled close without data otherwise |
| Response.ResponseIsDelivered | extensions/typescript/command.ts:401-412 | a response that can be sent reaches the client whole |
| Response.ErrorIsTheFirst | extensions/typescript/command.ts:303-349 | the error reported is the first limit broken, in the order output, result, code, detail, credit |
| Response.EmptyResponse | extensions/typescript/command.ts:297-345 | a response with nothing in it is an exit with code 0 |
| Response.ServeInvocation | extensions/typescript/command.ts:401-424 | what is sent for an invocation, packet by packet: the acknowledgement if it parses, then the handler's response if it can be sent, otherwise a report of exactly what went wrong, otherwise a cancelled close |
| Response.ServedEndsOnce | extensions/typescript/command.ts:401-424 | each served invocation ends in one EXIT and a normal close, or in a cancelled close with no data, after at most one acknowledgement |
| Response.SendableWithoutError | extensions/typescript/command.ts:303-349 | a response can be sent exactly when no limit refuses it; otherwise the first broken limit is the error reported |
| Response.ServeCommands | extensions/typescript/command.ts:376-426 | the whole log is what each accepted and invoked session is sent, in order, with this handler's responses |
| ModeTracker.ModeTracker.Process | crates/alacritty-driver/src/lib.rs:102-180 | feeding bytes one by one is the fold of the transition function, and keeps the packed fields in range |
| ModeTracker.FeedConcat | crates/alacritty-driver/src/lib.rs:102-180 | splitting the input anywhere, even inside a control sequence, gives the same state and the same combined action |
| ModeTracker.FeedBounded | crates/alacritty-driver/src/lib.rs:182-261 | for every byte stream mouse mode stays at most 4, encoding at most 3 and cursor style at most 6 |
| ModeTracker.SequenceApplies | crates/alacritty-driver/src/lib.rs:55-66 | a printed control sequence (section 5.4 of ECMA-48) is read back as its first eight parameters saturated to 16 bits, and returns to ground |
| ModeTracker.PrivateModesApply | crates/alacritty-driver/src/lib.rs:198-232 | a printed private-mode sequence sets or resets exactly those modes, in order |
| ModeTracker.NamedModesChange | crates/alacritty-driver/src/lib.rs:198-261 | a printed private-mode sequence sets or resets exactly the modes it names: the last mouse mode named wins, and one is cleared only by its own number |
| ModeTracker.OthersChangeNothing | crates/alacritty-driver/src/lib.rs:182-213 | any other sequence of parameters changes no mode |
| ModeTracker.EscapesApply | crates/alacritty-driver/src/lib.rs:108-131 | a full reset, the keypad modes and a form feed |
| ModeTracker.ResetAndStyle | crates/alacritty-driver/src/lib.rs:189-206 | a soft reset clears the application modes and the cursor style only; a cursor style out of range is the default one |
| ModeTracker.SequencesAreGivenUp | crates/alacritty-driver/src/lib.rs:132-176 | an escape starts a new sequence, and a byte that cannot be part of one ends it without effect |
| ModeTracker.EraseResets | crates/alacritty-driver/src/lib.rs:207-213 | which erase sequences reset the used rows |
| ModeTracker.FieldsAreDisjoint | crates/browser/src/lib.rs:726-782 | no two packed fields share a bit: every accessor of the browser recovers what the driver packed |
| ModeTracker.ModeTracker.Pack | crates/alacritty-driver/src/lib.rs:263-291 | the packed word shows every accessor the current mode |
| CellCodec.EncodeCell | crates/alacritty-driver/src/lib.rs:1314-1435 | writes exactly the twelve bytes of the cell in place, and the overflow map exactly when they cannot hold the text |
| CellCodec.DecodeSeesShown | crates/browser/src/lib.rs:861-907 | for every cell the browser's reading succeeds, with the same flags and the text and colours the format carries |
| CellCodec.DecodeUndoesEncode | crates/alacritty-driver/src/lib.rs:1310-1445 | the browser reads exactly what the cell says if and only if its named colours are in the palette and it is not a blank with zero-width marks (see the findings) |
| CellCodec.SpaceLosesMarks | crates/alacritty-driver/src/lib.rs:1406-1411 | a plain space with any marks reads back as a plain space |
| CellCodec.FromUtf8Of | crates/browser/src/lib.rs:892-896 | the bytes of a short text read back as that text |
| Frame.LinkCollector.Record | crates/alacritty-driver/src/lib.rs:1278-1307 | a cell is marked as a link exactly when its target is acceptable, has or gets an id and the cell exists; then it resolves to that target, and no other cell changes |
| Frame.LinkCollector.Intern | crates/alacritty-driver/src/lib.rs:1282-1294 | equal targets get the same id, new ones the next, none past the last |
| Frame.LinkCollector.SameIdSameTarget | crates/alacritty-driver/src/lib.rs:1258-1264 | two linked cells carry the same id exactly when they have the same target |
| Frame.FrameAt | crates/alacritty-driver/src/lib.rs:1154-1216 | for every scroll offset, position `(r, c)` of the frame reads back as the cell of grid row `history - offset + r` wherever the format can carry it, a link only to that cell's target; positions outside the grid stay zero |
| Frame.LiveViewport | crates/alacritty-driver/src/lib.rs:1172-1174 | not scrolled back, the first row shown is the one after the history |
| Frame.OldestViewport | crates/alacritty-driver/src/lib.rs:1175-1185 | scrolled back all the way, it is the oldest row |
| Frame.ScrollingMovesRows | crates/alacritty-driver/src/lib.rs:1172-1185 | scrolling back by one more row moves every row down by one |
| Frame.OutsideIsBlank | crates/alacritty-driver/src/lib.rs:1178-1189 | rows above the oldest and below the last are blank |
| Frame.ViewportAt | crates/alacritty-driver/src/lib.rs:1171-1189 | row `r` of the viewport is grid row `history - offset + r`, cell by cell |
| Frame.BuildFrame | crates/alacritty-driver/src/lib.rs:1163-1216 | the loop over the visible cells; while ids last every acceptable target is kept |
| Frame.FrameReadsBack | crates/browser/src/lib.rs:861-907 | in a built frame content codes are only 0 to 4 or 7, the overflow map holds exactly the cells with code 7, and every faithful cell reads back as it is |
| GlyphAtlas.AllocationsAreApart | crates/browser/src/lib.rs:510-536 | over any list of requests on an empty atlas, refused ones and shelf wraps included, all areas with padding are pairwise disjoint and inside the atlas |
| GlyphAtlas.AllocateApart | crates/browser/src/lib.rs:510-536 | a new area overlaps no earlier one |
| GlyphAtlas.TakesItsCapacity | crates/browser/src/lib.rs:474-508 | of any number of areas of one size an empty atlas takes exactly its capacity |
| GlyphAtlas.MixedAreasBounded | crates/browser/src/lib.rs:510-536 | whatever mix of sizes is asked for, an atlas hands out no more areas than the smallest of them would fill it with |
| GlyphAtlas.HeldGlyphsFit | crates/browser/src/lib.rs:474-497 | as many glyphs as the smallest atlas can hold never ask for a larger one |
| GlyphAtlas.RowsAreNeeded | crates/browser/src/lib.rs:474-490 | the side computed is that of the rows the count needs in an atlas of the largest width, and no more, or of one cell if that is wider |
| GlyphAtlas.DrawFrame | crates/browser/src/lib.rs:1110-1187 | a frame keeps the atlas at its first size and within what that size has room for |
| GlyphAtlas.DrawAll | crates/browser/src/lib.rs:1094-1187 | over every session of frames, of narrow and wide glyphs, new metrics, dropped caches and refused canvases, the atlas never grows |
| GlyphAtlas.DrawingCaches | crates/browser/src/lib.rs:558-632 | clearing and drawing a new glyph leaves every cached slot showing its own glyph |
| GlyphAtlas.DrawableExactly | crates/browser/src/lib.rs:556-558 | a key is drawable exactly when its bytes are one character |
| GlyphAtlas.VersionMoves | crates/browser/src/lib.rs:370-386 | every change of the version is seen: it is the next 32-bit number, and never the same |
| GlyphAtlas.GlyphAtlas.Invalidate | crates/browser/src/lib.rs:370-386 | empties the slot table and starts over, keeping the canvas |
| GlyphAtlas.GlyphAtlas.EnsureCanvasSized | crates/browser/src/lib.rs:396-444 | keeps everything when the canvas already fits, empties the atlas when it is made or resized, and changes nothing cached when the browser refuses |
| GlyphAtlas.GlyphAtlas.EnsureMetrics | crates/browser/src/lib.rs:450-472 | new metrics empty the atlas, the same ones keep it |
| GlyphAtlas.GlyphAtlas.SizeForGlyphs | crates/browser/src/lib.rs:474-497 | the smallest allowed size that covers the computed side, as far as the largest does |
| GlyphAtlas.GlyphAtlas.EnsureCapacity | crates/browser/src/lib.rs:499-508 | grows to the wanted size and is then empty, or stays as it is; never shrinks; and asked for the glyphs it holds, as its only caller does, it stays as it is |
| GlyphAtlas.GlyphAtlas.AllocateSlot | crates/browser/src/lib.rs:510-536 | the next area on the shelf or on a new one, disjoint from all earlier areas |
| GlyphAtlas.GlyphAtlas.EnsureGlyph | crates/browser/src/lib.rs:538-635 | returns the cached slot unchanged, or draws the glyph in a new area; every cached slot keeps showing its glyph, and an area taken in vain stays taken; every cached slot has the size its glyph needs, wide or narrow |
| Follow.FollowLoop | crates/cli/src/extension.rs:380-540 | the loop is the fold of those effects, checking the end first each time |
| Follow.FollowEnds | crates/cli/src/extension.rs:402-437 | in every mode the follow ends at the first event after which it is over, or that breaks it off, with the code and cause that the events consumed demand, and goes on until then |
| Follow.OwnedCode | crates/cli/src/extension.rs:410-448 | a stopped extension is reported with the code of its last exit, 1 if that was not a normal one, 0 if there was none, and 130 after an interrupt |
| Follow.DetachedCode | crates/cli/src/extension.rs:410-428 | a detached follow returns 0 exactly when it saw the extension run, 1 when it stopped or was blocked before that or a request was refused, 130 when it was interrupted |
| Follow.PollIsOut | crates/cli/src/extension.rs:441-456 | one poll is out at a time, unanswered since it was sent |
| Follow.FirstRecordExpected | crates/cli/src/extension.rs:395-400 | nothing is lost before the first record replayed, or the one after the status the follow starts from |
| Follow.LostRecordsAreExact | crates/cli/src/extension.rs:388-437 | over every run records seen plus records reported lost cover the distance of the expected number if and only if records arrived in increasing order, and otherwise exceed it |
| Follow.FollowAccounts | crates/cli/src/extension.rs:388-558 | the same for the command: next expected = first expected + seen + lost, including the correction at the end of replay |
| Follow.AttachWaitsForReplay | crates/cli/src/extension.rs:410-437 | attached, STOPPED or BLOCKED never ends the command before replay reaches the snapshot, and the code of a stop comes from the last EXIT above the snapshot |
| ForwardSpec.SplitFields | crates/cli/src/forward.rs:103-130 | the character loop splits exactly as the recursive-descent grammar of fields with atomic brackets |
| ForwardSpec.ParseUndoesDisplay | crates/cli/src/forward.rs:38-101 | parsing a printed spec gives it back if and only if bind and host are non-empty, the target port is not zero, both addresses print as one field, and (without a kind prefix) contain no slash |
| ForwardSpec.DisplayInjective | crates/cli/src/forward.rs:38-56 | no two such specs print alike |
| ForwardSpec.ParsedSpecSurvives | crates/cli/src/forward.rs:38-101 | a spec that the parser returned survives printing if and only if no address without a colon opens with a bracket and, without a kind prefix, none has a slash |
| ForwardSpec.AcceptedExactly | crates/cli/src/forward.rs:58-101 | what is accepted without a kind prefix: three or four fields, with two ports, a bind address and a host that are not empty, and a target port that is not zero |
| ForwardSpec.RefusedFor | crates/cli/src/forward.rs:70-101 | what is refused, and why: the first rule broken, in the order shape, target port, host, local port, bind address |
| ForwardSpec.PortsAre | crates/cli/src/forward.rs:77-92 | a port is read as a number exactly when it is a way to write it in decimal, with zeros in front or a sign |
| ForwardSpec.KindsAre | crates/cli/src/forward.rs:59-70 | the three kinds are taken off, and any other prefix is refused |
| ForwardSpec.TypedBracketIsLost | crates/cli/src/forward.rs:38-130 | an address that opens with a bracket and has no colon can be typed in brackets, and does not parse back once printed |
| ForwardSpec.TypedSlashIsLost | crates/cli/src/forward.rs:38-70 | every address with a slash can be typed behind `tcp/`, and the spec it parses to prints to something that does not parse back |

## Left out

- `Scrollback.RunKeepsNames`: its steps are exact, that is, chunks are accountable and resizes of the primary screen fit its history; `Scrollback.RunMovesNames` says where the numbers go otherwise.
- `Scrollback.RunMovesNames`: no resizes that change columns, and no history clears inside a chunk; the driver promises no correspondence there.
- Overflow of the driver's 64-bit counters; they are unbounded here.
- `Scrollback.TerminalDriver.Resize`: the emulator's reflow is a parameter; its rows-only form is a shape (rows pushed, rows pulled, offset left anywhere in the history) that keeps the cursor on the screen. `used_rows` is not modelled.
- The agreement of the mode tracker's alternate-screen flag with the grid's: both are modelled, but not the escape sequences that could make them differ (47 and 1047 against 1049).
- `SeqText.GetTextRange`: distances from the bottom of 2^31 and more, which wrap in the source.
- `Invocation.RunInvocation`: the loop's local variables are kept in one value; output writers and channel sends do not fail; the channel handshake before the loop is not modelled.
- `Response.ServeCommands`: listening, registration and the envelope bytes of packets; a `host.send` that throws.
- The 64-bit writer and reader and LOG messages from the provider, which it never sends; LOG is still decoded by the client.
- `discover` and `upload`: one request and one reply at a time over maps of names and chunks.
- `Follow.FollowLoop`: uploads inside the loop, rendering, and waiting for the unfollow reply, which drop or delay packets; the count of records seen exists for the statement only.
- `WaitPattern.WaitForPattern`: sends do not fail, exit statuses are reported as they are without the exit-code table, and the fallback for servers without a journal is not modelled.
- `WaitPattern.WaitIsSound`: speaks of the text a server meeting `AnswerOk` reports as put out; `WaitDriver.DriverWaitIsSound` puts the driver's reader in its place. A cursor carries the number of its issue, so that two for the same cell are told apart; the wire has no such field and nothing reads it.
- `WaitDriver.DriverWaitIsSound`: reads resume under the condition of `CursorContract.ContractMet`, and truncated pages break at soft wraps as in `WaitPages.ChunksAreTheOutput`; outside these conditions the wait can miss or invent a line, as the findings say. The grid does not change after the exit.
- `WaitPattern.NoLostWakeup`: rests on the same contract, and says what holds when all queues are empty, not that they ever are.
- `CursorContract.ResumedReadExact`: the second view continues the first, that is, rows and cells before the cursor have not been rewritten in between.
- `LineMatcher.NothingMissed`: of a complete line longer than the pending limit only the part still kept is tested, so nothing is claimed about it.
- Regular expressions: an arbitrary predicate on strings.
- `CellCodec.EncodeCell`: the five underline styles are one flag, and the hash written for long text is a parameter; nothing reads it back.
- Named colour numbers: foreground is 256 and background 257, as in `alacritty_terminal`, which is not part of this model.
- `Frame.FrameAt`: titles, wrap flags and the frame's wire encoding are not modelled.
- A wide character's continuation cell resolving to the link of its lead cell.
- `GlyphAtlas.GlyphAtlas.EnsureGlyph`: the sums the allocator forms fit in 32 bits, as the source assumes; what the glyph looks like inside its slot is not modelled.
- `GlyphAtlas.DrawAll`: fewer than 0x7000_0000 glyph requests and cell sizes below 2^31 pixels, so that no 32-bit sum overflows.
- `ModeTracker.ModeTracker.Process`: which rows count as used after a reset.
- `ForwardSpec.ParseUndoesDisplay`: addresses are strings; resolution and TLS options are not modelled.
- Search, titles, mouse encoding, selection, the interactive multiplexer, and the file, git and key-value commands.
