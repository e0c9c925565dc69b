# Working-time terminal and timesheet: verified model

A Dafny model of a working-time recording system: the RFID terminal's firmware,
the terminal service it talks to, and the web backend's timesheet and export
logic. The verifier checks the whole project with

    dafny verify dfyconfig.toml

## What is modelled

**The durable outbox of the terminal.** Two append-only journals on flash, one of
actions and one of completion marks, with checksummed frames, repair of a torn
tail, and compaction by swapping files. Storage is a map from paths to bytes and
every storage call is a step. A power loss cuts an append or a write to any
prefix and leaves any rename or remove done or not done. `OutboxFormat`, `OutboxFrames`
and `Journal` are the record format and its reader; `Flash` is the storage;
`OutboxRecovery`, `OutboxQueue` and `OutboxRuns` carry the crash theorems up to
whole runs; `OutboxStore` holds the classes and loops of the code, each proved to
issue exactly the storage calls those theorems are about. The hard fact under it
is `OutboxFrames.NoFrameWithin`: the search that tells a torn tail from a damaged
journal cannot be fooled by bytes inside a torn frame, whatever the checksum.

**The hash chain.** `HashChain` models the export's verification and shows that it
reports valid exactly when the rows form one linear chain; `ChainWriters` models
the writers of the log and shows that every serial run of them exports as valid.
`AlteredRows` is the other half: a row of such a run that is changed in a field its
writer hashed is reported. `Texts` is the joining of texts both rest on.

**The timesheet event algebra.** Interval lists are checked and compiled to events
(`Timesheet`), replayed as paid spans (`WorkSpans`), compared with recorded work
(`NoDoubleCounting`, `MergedSequence`), read back by date (`EditableDays`), and
replaced through voids in a log that only grows (`EffectiveEvents`, `Replacement`,
`ReplacementReplay`, `ReplacedDay`). `Sorting` is the stable sort they share.

**Delivery.** `WorkDay` is the working-day automaton, `Delivery` the tables with
receipts under arbitrary repetition, loss and reordering, `TerminalService` the
transactions and the batch endpoint, `DeviceController` the device's side over the
queue of `OutboxRuns`, `SignedActions` the text both sides sign and check, and
`EndToEnd` joins that queue with the tables.

**Month closing and calendar arithmetic** (`MonthClosing`, `MonthReplays` for what
the replays of two months say about the week they share, `Calendar`), **the
incremental HTTP response parser** (`HttpParser`, `HttpGrammar` for the grammar of
section 7.1 of RFC 9112, `HttpFraming` for the body lengths of its section 6.3, and `HttpAccepted` for what is
taken of arbitrary bytes), **the cache with two slots** (`CacheCodec`,
`CacheStore`), and **the two-task network worker** (`NetworkWorker` for all
interleavings, `WorkerTasks` for the code of each step).

## What the proofs found

- A manual list with paid time that ends on the very second a recorded span starts
  passes the conflict check. With the recorded event first among equal times, the
  recorded start goes unseen and time is lost. `NoDoubleCounting.SpansAddUp` shows
  that this is the only way the spans fail to add up, and
  `NoDoubleCounting.TouchingShiftsLoseTime` is an instance.
- A list inside an unpaid break passes the conflict check and adds up, but it is
  flagged as a sequence anomaly, so the month cannot be closed, and the break is no
  longer shown. `MergedSequence.MergedSequenceIsClean` and
  `ReplacedDay.ShownBesideTheLog` give the exact condition,
  `ReplacedDay.BreakAroundIsDropped` an instance.
- A void is stored at its target's original time. If a correction moved the target
  far enough back, a replay window shows the target but misses its void, and the
  replaced event stays. `ReplacementReplay.ReplacementTakesEffect` gives the exact
  condition, `ReplacementReplay.MovedEventSurvivesItsVoid` an instance that the
  day's check accepts.
- Each month is closed on a replay of its own window. A correction stored beyond the
  earlier month's window can move a shift that month has already paid, and the
  week's quota is spent twice. `MonthReplays.ReplaysAgree` says exactly when two
  replays agree, `MonthReplays.QuotaSpentTwice` is an instance.
- Replay reads at most ten thousand rows, the oldest. Beyond them the terminal
  service decides on a log that no longer moves and accepts the same command again
  and again (`TerminalService.ShapeEndsWithThePage`, with
  `TerminalService.ClockInsWithoutEnd` as an instance), and manual changes are not
  seen (`ReplacementReplay.BehindAFullPage`).
- A chunked response with a tab in a trailer or chunk extension, or with an octet
  above 0x7F in a chunk extension, is refused, although RFC 9112 allows it.
  `HttpGrammar.ChunkedCompletesExactly` shows that nothing else allowed is refused.
  The model follows the code.
- Telling a torn tail or a torn cache file apart needs nothing of the checksum:
  both theorems hold for every checksum function.

## Reading the model

Checksums, hashes, signatures and request identifiers are parameters, so each
theorem holds for every such function. Only the chain theorems assume something
of the hash: that it ranks above the parts it digests, and those about altered rows
and signed texts that no two texts share one, the usual idealisations;
`ChainWriters.SomeHostIsLawful` and `AlteredRows.SomeHostIsCollisionFree` show that
the assumptions can be met. Zone
arithmetic, clocks, database keys and the answers of the network are parameters
too. A method that changes state is proved against a function or predicate of the
state before it; the lemmas named beside it are about that function. Those that say
what an operation decides speak of the fields themselves and write limits as numbers.
Storage that
reports failures is a constant of the storage class: with it set, the methods
promise nothing about contents, because the code promises nothing then.

## Model

| member | source | states |
|---|---|---|
| OutboxFormat.ActionCodecInverse | firmware/terminal/src/storage/outbox_codec.cpp:695-763 | encoding succeeds exactly on valid actions, and a record decodes to an action exactly when it is that action's encoding: the codec is a bijection between valid actions and accepted records |
| OutboxFormat.ActionsARecordHolds | firmware/terminal/src/storage/outbox_codec.cpp:63-108 | the valid actions, field by field: a card of four to ten bytes in upper-case hexadecimal, a signature and a link of thirty-two bytes in lower case or no link, one of four commands, a sequence number, and texts within their lengths that no separator can be in |
| OutboxFormat.DecodeOfFrame | firmware/terminal/src/storage/outbox_codec.cpp:163-188 | decoding an encoded action or completion mark gives it back |
| OutboxFormat.FrameOfDecode | firmware/terminal/src/storage/outbox_codec.cpp:713-763 | whatever is accepted is valid and re-encodes to the same bytes, so no two records decode alike |
| OutboxFormat.SealedBytes | firmware/terminal/src/storage/outbox_codec.cpp:144-161 | a frame that passes header and checksum is the framing of its own payload |
| OutboxFormat.AcceptedHeaders | firmware/terminal/src/storage/outbox_codec.cpp:207-231 | a header is accepted with a length of 13 to 1024 exactly when it is the header of a frame of that length, and each of the four errors is given exactly for the first part that is wrong |
| OutboxFrames.NoPayloadWithin | firmware/terminal/src/storage/outbox_codec.cpp:271-296 | no action payload starts after two zero bytes inside another one and ends before it |
| OutboxFrames.NoFrameWithin | firmware/terminal/src/storage/outbox_codec.cpp:252-269 | no complete decodable frame lies strictly inside an encoded frame, whatever the checksum function |
| OutboxFrames.NoValidLaterFrame | firmware/terminal/src/storage/outbox_codec.cpp:271-296 | the search for a later valid frame finds none in a torn frame |
| OutboxFrames.CutFrameIsTruncated | firmware/terminal/src/storage/outbox_codec.cpp:298-334 | every strict non-empty prefix of a frame is read as Truncated, never as Length or as another item |
| OutboxFrames.OutboxCodecIsLawful | firmware/terminal/src/storage/outbox_codec.cpp:298-398 | the two record formats satisfy the laws the crash theorems are proved from |
| Journal.ReadBack | firmware/terminal/src/storage/outbox_codec.cpp:298-347 | reading concatenated frames followed by a torn one gives exactly the complete items, and Truncated exactly when a tail is there |
| Journal.AcceptedBytes | firmware/terminal/src/storage/outbox_codec.cpp:400-447 | what a reader returned is valid and encodes to exactly the valid prefix it reported |
| Journal.CutJournalIsReadBack | firmware/terminal/src/storage/outbox_codec.cpp:400-447 | a journal cut at any byte reads back as the longest run of whole items before the cut |
| OutboxRecovery.RecoveryIsIdempotent | firmware/terminal/src/storage/outbox_codec.cpp:551-595 | in every state a power loss can produce, recovery succeeds and leaves the settled items at rest; interrupted at any point of any call it leaves a state that settles on the same items |
| OutboxRecovery.OldIsNeverRestored | firmware/terminal/src/storage/outbox_codec.cpp:461-468 | in those states recovery never renames the old file back and never removes the current one |
| OutboxRecovery.AnyStateRecovers | firmware/terminal/src/storage/outbox_codec.cpp:551-595 | from any state of its files at all, recovery leaves what can be salvaged of a journal at rest as the current file alone, or reports an error and touches nothing, exactly where nothing can be read |
| OutboxRecovery.RepairRecovers | firmware/terminal/src/storage/outbox_codec.cpp:484-516 | repairing a torn tail keeps the valid prefix through every interruption |
| OutboxRecovery.ActivateRecovers | firmware/terminal/src/storage/outbox_codec.cpp:470-482 | activating a whole fresh file keeps its items through every interruption |
| OutboxRecovery.SwapReplaces | firmware/terminal/src/storage/outbox_codec.cpp:484-516 | the swap of files shows either the state before it or the new items, at every interruption |
| OutboxQueue.BeginRecovers | firmware/terminal/src/storage/outbox_codec.cpp:765-780 | begin succeeds on every recoverable outbox and changes neither the queue nor the marks, however often it is itself interrupted |
| OutboxQueue.FrameAppended | firmware/terminal/src/storage/outbox_codec.cpp:813-844 | one appended frame interrupted anywhere is there whole or not at all |
| OutboxQueue.ExchangeReplaces | firmware/terminal/src/storage/outbox_codec.cpp:879-923 | a journal exchanged for another, interrupted anywhere, is the one or the other |
| OutboxQueue.ClearForgets | firmware/terminal/src/storage/outbox_codec.cpp:644-679 | clearing the completion marks, interrupted anywhere, leaves all of them or none |
| OutboxQueue.CompactIsSafe | firmware/terminal/src/storage/outbox_codec.cpp:879-923 | compaction drops exactly the completed actions; an interruption leaves the queue before, the one after, or the one before with its completed actions pending again |
| OutboxQueue.ScanOfReady | firmware/terminal/src/storage/outbox_codec.cpp:602-642 | the scan visits exactly the journalled actions and counts exactly the marked ones |
| OutboxRuns.ScanOfQueue | firmware/terminal/src/storage/outbox_codec.cpp:602-642 | the scan of stored files returns the actions and the completed count of the queue they represent |
| OutboxRuns.AppendRefines | firmware/terminal/src/storage/outbox_codec.cpp:813-844 | append on files does what append on a queue of 10000 does: a repeat changes nothing, a taken id is refused, a full queue is compacted first, and every interruption leaves the queue before or after or a reopened one |
| OutboxRuns.AppendIsAnswered | firmware/terminal/src/storage/outbox_codec.cpp:813-844 | on stored files: an identical repeat is answered without an error and changes nothing, another action under a journalled id is refused, and a new action becomes the last pending one exactly while fewer than 10000 are pending; at 10000 the answer is Capacity and nothing changes |
| OutboxRuns.CompleteIsAnswered | firmware/terminal/src/storage/outbox_codec.cpp:846-877 | on stored files: completing the first pending id removes that action, completing a completed id changes nothing, both without an error; any other id changes nothing and is an error, NotFound exactly if nothing is pending and the id is a text |
| OutboxRuns.CompleteRefines | firmware/terminal/src/storage/outbox_codec.cpp:846-877 | complete on files removes the head of the queue and nothing else, and answers anything but the head or a completed id with an error |
| OutboxRuns.CompactQueue | firmware/terminal/src/storage/outbox_codec.cpp:879-923 | compact on files is compact on the queue |
| OutboxRuns.OperationsRefineTheQueue | firmware/terminal/src/storage/outbox_codec.cpp:782-923 | every operation on files refines the operation on the bounded queue, errors and interruptions included |
| OutboxRuns.EveryRunHasAHistory | firmware/terminal/src/storage/outbox_codec.cpp:765-923 | every run of operations, power losses and restarts from empty storage follows one growing log of actions, finished in order, and each started outbox is ready |
| OutboxRuns.NothingPendingIsLost | firmware/terminal/src/storage/outbox_codec.cpp:782-877 | an action once in the log is pending, at its place, at every later time until it is finished; the pending list is a suffix of the log without repeated ids |
| OutboxStore.ReadHeader | firmware/terminal/src/storage/outbox_codec.cpp:207-231 | the method reads the header length the format defines |
| OutboxStore.ReadCompleteFrame | firmware/terminal/src/storage/outbox_codec.cpp:233-250 | exactly the frame bytes at the offset, or the error of header, length or checksum |
| OutboxStore.ValidFrame | firmware/terminal/src/storage/outbox_codec.cpp:252-269 | decides the existence of a valid frame at the offset |
| OutboxStore.FindValidLaterFrame | firmware/terminal/src/storage/outbox_codec.cpp:271-296 | the scanning loop decides whether some later offset holds a valid frame |
| OutboxStore.ReadNextFrame | firmware/terminal/src/storage/outbox_codec.cpp:307-345 | the item and bytes of the next frame, with the Truncated or Length decision |
| OutboxStore.JournalReader.Next | firmware/terminal/src/storage/outbox_codec.cpp:298-398 | the n-th call returns the n-th item of the journal's reading with its exact bytes, then the final error |
| OutboxStore.InspectJournal | firmware/terminal/src/storage/outbox_codec.cpp:400-447 | the reader loop computes the reading of the whole file |
| OutboxStore.VerifyJournal | firmware/terminal/src/storage/outbox_codec.cpp:453-459 | accepts exactly the whole files with the expected number of items |
| OutboxStore.CopyBlocks | firmware/terminal/src/storage/outbox_codec.cpp:484-516 | the block loop appends exactly the first bytes of the source, block by block |
| OutboxStore.CopyPrefix | firmware/terminal/src/storage/outbox_codec.cpp:484-516 | rewrites the fresh file with exactly the valid prefix |
| OutboxStore.SwapIn | firmware/terminal/src/storage/outbox_codec.cpp:470-516 | issues exactly the swap's storage calls |
| OutboxStore.AtomicRepairPrefix | firmware/terminal/src/storage/outbox_codec.cpp:484-516 | issues exactly the repair's storage calls, in order |
| OutboxStore.ActivateCandidate | firmware/terminal/src/storage/outbox_codec.cpp:470-482 | issues exactly the activation's storage calls |
| OutboxStore.RestoreOld | firmware/terminal/src/storage/outbox_codec.cpp:461-468 | issues exactly the restoring storage calls |
| OutboxStore.PromoteTruncatedOld | firmware/terminal/src/storage/outbox_codec.cpp:518-549 | issues exactly the promotion's storage calls |
| OutboxStore.RecoverJournal | firmware/terminal/src/storage/outbox_codec.cpp:551-595 | chooses the branch and issues exactly the calls the crash theorems are about |
| OutboxStore.ScanCompleted | firmware/terminal/src/storage/outbox_codec.cpp:613-629 | matches each completion mark with the next action, or reports the mismatch |
| OutboxStore.ScanPending | firmware/terminal/src/storage/outbox_codec.cpp:631-640 | visits the remaining actions in order |
| OutboxStore.ScanQueue | firmware/terminal/src/storage/outbox_codec.cpp:602-642 | both loops together compute the scan, with the exact bytes of every action |
| OutboxStore.Exchange | firmware/terminal/src/storage/outbox_codec.cpp:906-923 | issues exactly the exchange's storage calls |
| OutboxStore.AtomicallyClearCompletions | firmware/terminal/src/storage/outbox_codec.cpp:644-679 | issues exactly the clearing calls |
| OutboxStore.FindDuplicates | firmware/terminal/src/storage/outbox_codec.cpp:818-833 | tells an exact repeat from a conflicting use of an id |
| OutboxStore.OutboxCodecsArePaired | firmware/terminal/src/storage/outbox_codec.cpp:93-188 | the crash theorems hold of the outbox's own two formats, for every checksum function |
| OutboxStore.Outbox.Begin | firmware/terminal/src/storage/outbox_codec.cpp:765-780 | ends with the plan's error having issued exactly the plan's calls |
| OutboxStore.Outbox.List | firmware/terminal/src/storage/outbox_codec.cpp:782-796 | a prefix of the pending actions, as long as the limit and fifty allow |
| OutboxStore.Outbox.PendingCount | firmware/terminal/src/storage/outbox_codec.cpp:798-811 | the number of pending actions |
| OutboxStore.Outbox.Append | firmware/terminal/src/storage/outbox_codec.cpp:813-844 | issues exactly the calls of the append that refines the queue, and on a ready outbox ends with the answer and the queue that the fields of queue and action decide |
| OutboxStore.Outbox.Complete | firmware/terminal/src/storage/outbox_codec.cpp:846-877 | issues exactly the calls of the completion that refines the queue, and on a ready outbox ends with the answer and the queue that the ids of its actions decide |
| OutboxStore.Outbox.Compact | firmware/terminal/src/storage/outbox_codec.cpp:879-923 | issues exactly the calls of the compaction that refines the queue |
| HashChain.V3Candidates | backend/pb_hooks/compliance_helpers.js:363-390 | the four nested loops build exactly the admissible field lists |
| HashChain.V2Candidates | backend/pb_hooks/compliance_helpers.js:391-409 | the two nested loops build exactly the admissible field lists |
| HashChain.V1Candidates | backend/pb_hooks/compliance_helpers.js:410-450 | one field list per reading of the time, by the writer the identifier betrays |
| HashChain.EventHashMatches | backend/pb_hooks/compliance_helpers.js:351-454 | true exactly when some admissible field list hashes to the stored hash; AlteredRows says which rows those are |
| HashChain.VerifyChain | backend/pb_hooks/compliance_helpers.js:536-573 | the three loops report the errors, roots, tips and verified count of the specification |
| HashChain.NoErrorsMeansChecks | backend/pb_hooks/compliance_helpers.js:536-573 | no error is reported exactly when every hash matches and is distinct, no predecessor is missing, and there is one root and one tip |
| HashChain.PredecessorRanksBelow | backend/pb_hooks/compliance_helpers.js:351-454 | a verified row ranks above the predecessor it names, so no cycle verifies |
| HashChain.WalkCovers | backend/pb_hooks/compliance_helpers.js:536-573 | walking back from the only tip meets every row |
| HashChain.ValidExactlyWhenOneChain | backend/pb_hooks/compliance_helpers.js:536-573 | the export reports valid if and only if the rows form one linear chain using each row once; no forks, no detached cycles |
| ChainWriters.EveryWriterVerifies | backend/pb_hooks/compliance_helpers.js:351-454 | the fields hashed by each writer are among those the verifier recomputes |
| ChainWriters.IntegrityTipHash | backend/pb_hooks/timesheet_helpers.js:634-652 | of the ten thousand newest rows, the hash of the newest that no row names; none if every one is named |
| ChainWriters.TerminalTipHash | internal/terminal/events.go:289-306 | of the ten thousand newest rows, the newest hash that no row names, or none; rows without a hash are skipped, and where there are none it is the tip the web backend finds |
| ChainWriters.TipIsNewest | backend/pb_hooks/timesheet_helpers.js:634-652 | on a straight log the tip is the newest row, even though only a window is read |
| ChainWriters.RunsStayStraight | internal/terminal/events.go:236-247 | every serial run of appends gives one straight chain whose tip is its newest record |
| ChainWriters.EveryRunExportsValid | backend/pb_hooks/compliance_helpers.js:487-601 | the export of any such run reports valid and is one chain |
| ChainWriters.SomeHostIsLawful | backend/pb_hooks/compliance_helpers.js:351-454 | the assumptions about the hash are satisfiable |
| AlteredRows.OnlyWhatWasHashedMatches | backend/pb_hooks/compliance_helpers.js:351-454 | with a digest no two texts share and texts without the separator, a row that carries a written row's hash and version matches if and only if it has every field the writer hashed, dates up to their spelling |
| AlteredRows.AlteredRowIsReported | backend/pb_hooks/compliance_helpers.js:487-573 | change a hashed field of any one row of any run of writers, the first row included: the export lists its hash mismatch and is not valid |
| AlteredRows.SomeHostIsCollisionFree | backend/pb_hooks/compliance_helpers.js:351-454 | the assumptions about digest and texts are satisfiable together |
| Timesheet.ClockTextsAreRead | backend/pb_hooks/timesheet_helpers.js:6-13 | exactly the texts HH:MM of a time of day are read, each as its minutes |
| Timesheet.ItemsAreParsed | backend/pb_hooks/timesheet_helpers.js:50-153 | an item is accepted as an interval if and only if it stands for it: a kind, two times that exist in the zone, at most one midnight, a length within the limits, and a break type the organization has |
| Timesheet.ParsedOneByOne | backend/pb_hooks/timesheet_helpers.js:50-153 | each item is parsed by itself, and the first that is refused decides the error |
| Timesheet.NormalizeIntervals | backend/pb_hooks/timesheet_helpers.js:29-200 | accepts exactly the lists whose items parse and, sorted by start, form whole shifts within the limits; the result is that sorted list |
| Timesheet.ShapeError | backend/pb_hooks/timesheet_helpers.js:155-199 | the checks after the sort reject exactly the lists that are not allowed |
| Timesheet.AllowedListsAreShifts | backend/pb_hooks/timesheet_helpers.js:155-199 | what they allow is exactly a series of whole shifts, each work with any number of breaks attached on both sides, one shift after another, at most 86400 seconds of work, all of it past |
| Timesheet.Specifications | backend/pb_hooks/timesheet_helpers.js:660-713 | the loop and its sort produce the compiled events of the list |
| Timesheet.CompiledIsOrdered | backend/pb_hooks/timesheet_helpers.js:660-713 | the compiled events of an accepted list are already in time order, inside the list's own extent |
| WorkSpans.WorkSpans | backend/pb_hooks/timesheet_helpers.js:503-536 | the loop replays the events as the step function does, an open shift counted to the given time |
| WorkSpans.SequenceAnomalyDates | backend/pb_hooks/timesheet_helpers.js:538-561 | the loop flags exactly the dates of the sequence automaton |
| WorkSpans.ReplayAnomalies | backend/pb_hooks/timesheet_helpers.js:503-536 | the replay reports an anomaly exactly if some event is misplaced, a clock-in during a shift or a break start or clock-out outside of one, or a shift is still running; only that one's span is open, and it ends at the given time or where it starts |
| WorkSpans.AnomaliesAreLocal | backend/pb_hooks/timesheet_helpers.js:538-561 | a date is flagged exactly if on it happens an event that may not follow the last one before it, corrections apart, or the last event of a log that no clock-out ends |
| WorkSpans.CompiledReplays | backend/pb_hooks/timesheet_helpers.js:503-536 | after any number of items the replay is running exactly mid-shift, without anomaly, and has counted the work and paid breaks so far |
| WorkSpans.CompiledSequences | backend/pb_hooks/timesheet_helpers.js:538-561 | the compiled events raise no sequence anomaly at any point |
| WorkSpans.CompiledListReplaysExactly | backend/pb_hooks/timesheet_helpers.js:503-561 | a compiled accepted list is sorted, raises no anomaly of either kind, and its spans total exactly work plus paid breaks |
| NoDoubleCounting.FindConflict | backend/pb_hooks/timesheet_helpers.js:563-592 | the loops find a conflict exactly when some interval starts before a recorded span ends and ends after it starts |
| NoDoubleCounting.RunningShiftIsASpan | backend/pb_hooks/timesheet_helpers.js:503-536 | a shift running in a clean log closes as a span that covers the next event |
| NoDoubleCounting.BothRunningConflict | backend/pb_hooks/timesheet_helpers.js:576-592 | a logged shift running inside an interval of the list is a conflict, unless it starts on the instant that interval ends |
| NoDoubleCounting.SpansAddUp | backend/pb_hooks/timesheet_helpers.js:503-592 | a list that passes the conflict check replays, merged into a clean log, without anomaly and to the disjoint union of both span lists if and only if no work and no paid break of the list ends on the instant a logged span starts; spans of no length included |
| NoDoubleCounting.TouchLoses | backend/pb_hooks/timesheet_helpers.js:503-536 | whenever one does, the spans do not add up |
| NoDoubleCounting.TouchingShiftsLoseTime | backend/pb_hooks/timesheet_helpers.js:563-592 | a concrete pair of shifts that touches, passes the check and loses the added work |
| MergedSequence.MergedSequenceIsClean | backend/pb_hooks/timesheet_helpers.js:538-561 | merging the list into a clean log raises no sequence anomaly if and only if no interval starts in a logged break and none ends on the instant a logged span starts |
| EditableDays.EditableDays | backend/pb_hooks/timesheet_helpers.js:375-445 | the loop groups the events by the date of their shift as the walk does |
| EditableDays.ReadBack | backend/pb_hooks/timesheet_helpers.js:375-445 | the events compiled from a list read back, on each date, as the intervals of the shifts that started on it |
| EditableDays.ReadBackIsExact | backend/pb_hooks/timesheet_helpers.js:375-445 | they read back on the work date as exactly the same intervals if and only if every shift starts on that date |
| EditableDays.DatesListTheirEvents | backend/pb_hooks/timesheet_helpers.js:375-445 | each date lists the events of its shifts once, in order |
| EditableDays.ClosedByClockOut | backend/pb_hooks/timesheet_helpers.js:375-445 | a date is shown as closed exactly if the last shift listed on it was clocked out |
| ReplacedDay.MergedListReadsBack | backend/pb_hooks/timesheet_helpers.js:375-445 | a list merged into a log it keeps clear of reads back beside it: each date shows the log's intervals and the list's, and a date without logged ones shows the list's in order |
| ReplacedDay.ShownBesideTheLog | backend/pb_hooks/timesheet_helpers.js:375-445 | every date shows what both sides show if and only if the list keeps clear of the log; otherwise an interval is not shown |
| ReplacedDay.BreakAroundIsDropped | backend/pb_hooks/timesheet_helpers.js:375-445 | a concrete log and list: a shift inside an unpaid break, and the break is no longer shown |
| EffectiveEvents.EffectiveEvents | backend/pb_hooks/timesheet_helpers.js:281-366 | the loops and the sort list exactly the replayed events in time order |
| EffectiveEvents.ApplyCorrection | backend/pb_hooks/timesheet_helpers.js:322-362 | one correction moves, revives or voids its target as the replay step does |
| EffectiveEvents.EffectsAreLogged | backend/pb_hooks/timesheet_helpers.js:281-366 | replay shows only events that have a row |
| EffectiveEvents.PageOfRows | backend/pb_hooks/timesheet_helpers.js:281-292 | replay reads exactly the employee's own rows up to a day after the instant, in time order, or the ten thousand oldest of them |
| Replacement.WorkEvents.Save | backend/pb_hooks/timesheet_helpers.js:717-757 | a saved record goes after all earlier ones, which stay as they were |
| Replacement.MaterializeRequest | backend/pb_hooks/timesheet_helpers.js:654-758 | the log grows by exactly the compiled events, in time order |
| Replacement.EditableDayState | backend/pb_hooks/timesheet_helpers.js:447-482 | the group of the date, from a replay to the end of the next day |
| Replacement.VoidTargets | backend/pb_hooks/timesheet_helpers.js:794-843 | the log grows by one void per target, at the target's stored time, exactly when all targets are the employee's |
| Replacement.MaterializeReplacement | backend/pb_hooks/timesheet_helpers.js:760-846 | which of the three refusals applies, by the day as it replays now; otherwise the log grows by the voids and the new events; a refusal leaves the log as it was |
| Replacement.TargetsExist | backend/pb_hooks/timesheet_helpers.js:777-795 | the targets of a day that matches all have rows |
| ReplacementReplay.SortsDoNotMatter | backend/pb_hooks/timesheet_helpers.js:281-366 | with rising creation times, replay is that of the page's rows in the order of the log: of the two sorts only which rows are on the page matters |
| ReplacementReplay.BehindAFullPage | backend/pb_hooks/timesheet_helpers.js:281-292 | from ten thousand rows in the window on, whatever is stored behind the page changes no replay |
| ReplacementReplay.GrownIsWellKept | backend/pb_hooks/timesheet_helpers.js:760-846 | a replaced log is the old log and more, and replacements can follow one another |
| ReplacementReplay.ReplacementTakesEffect | backend/pb_hooks/timesheet_helpers.js:760-846 | while the window fits one page, the grown log replays to the old events minus the targets plus the new ones if and only if no shown target is stored more than a day after the end of the replay |
| ReplacementReplay.ReplacementInTimeOrder | backend/pb_hooks/timesheet_helpers.js:760-846 | the replayed list is in time order, and under that condition it holds exactly the kept and the new events |
| ReplacementReplay.MovedEventSurvivesItsVoid | backend/pb_hooks/timesheet_helpers.js:760-846 | a concrete log whose day passes the check of a replacement with one target, and whatever replaces it, the day lists the target afterwards |
| ReplacedDay.ReplacedDayReadsBack | backend/pb_hooks/timesheet_helpers.js:447-482 | after a replacement that the day's replay reads, the date shows the submitted intervals whose shifts start on it: exactly the submitted list if and only if all do |
| WorkDay.TerminalState | internal/terminal/domain.go:56-107 | the loop computes the automaton's state and clocks |
| WorkDay.EmployeeState | internal/terminal/events.go:51-66 | the state of the events after the last clock-out |
| WorkDay.AllowedLogsAreShifts | internal/terminal/domain.go:37-50 | a list of commands is allowed step by step if and only if it is a prefix of repeated clock-in, breaks, clock-out |
| WorkDay.BuiltLogsAreShifts | internal/terminal/events.go:163-209 | every log built by accepted actions has that shape and rising times |
| WorkDay.OpenShiftAllowsTheSame | internal/terminal/events.go:51-66 | counting only from the last clock-out gives the same state, the same allowed commands and the same starting time |
| WorkDay.DecidesExactly | internal/terminal/events.go:163-209 | an action is accepted if and only if the clock was set at most a day before it and it is at most five minutes ahead of the service, the command may follow, an applied time is a closing command's and not after the action, and the recorded time is not before the last event; what is accepted is the command at that time, with the adjustment, and each refusal has its exact condition |
| WorkDay.OfflineEventIsFixed | internal/terminal/events.go:163-209 | the event of an accepted offline action is its command at the applied or else the captured time, whenever it is delivered |
| WorkDay.MayFollowKeepsShape | internal/terminal/domain.go:37-50 | a command may follow a well-shaped log exactly if the log with it is still well shaped |
| WorkDay.ShownTimeIsShiftTime | internal/terminal/domain.go:56-107 | in an open shift, worked plus break seconds are the time since the shift's start |
| WorkDay.ShownTimeByKind | internal/terminal/domain.go:56-107 | worked seconds are those after the clock-in and after each break, break seconds those after each break's start; a break is stale after 1500 seconds, a shift long from 14400 worked on; without an open shift nothing is shown and only a clock-in offered |
| Delivery.DeliveryKeepsConsistency | internal/terminal/events.go:136-275 | receipts, events and incidents stay in one-to-one correspondence through any delivery |
| Delivery.OneOutcomePerRequest | internal/terminal/events.go:136-275 | in every run each request has no trace, or one receipt with either one event or one incident, never both |
| Delivery.LaterDeliveriesChangeNothing | internal/terminal/events.go:405-462 | receipts, events and incidents never change once written, and delivering a request again changes nothing at all |
| TerminalService.EffectiveEvents | internal/terminal/events.go:68-106 | the loops list the replayed events in time order |
| TerminalService.PageOfRows | internal/terminal/events.go:68-80 | replay reads exactly the employee's own rows in time order, or the ten thousand oldest of them |
| TerminalService.ShownEvent | internal/terminal/events.go:68-106 | an event is shown exactly if the page of rows has its own row and none that voids it, as the last row that moves it and names a command has it, or else as its own |
| TerminalService.ReplayOfActions | internal/terminal/events.go:68-106 | rows written by actions at rising times replay as the events of the first ten thousand of them |
| TerminalService.AcceptedActionExtendsTheLog | internal/terminal/events.go:163-209 | what the transaction accepts extends the log by an event accepted on the log's first page, for a log of any length |
| TerminalService.ShapeEndsWithThePage | internal/terminal/events.go:68-106 | a log built so is whole shifts and the start of one if and only if it is at most one event longer than the page |
| TerminalService.ClockInsWithoutEnd | internal/terminal/events.go:68-106 | beyond the page the service accepts one clock-in after another, for ever |
| TerminalService.Service.RecordTerminalAction | internal/terminal/events.go:136-275 | a receipt answers a repeat; otherwise the request becomes an event, of its command and at the time it is to be recorded at, with its receipt, exactly if its identifier is free and of 1 to 64 characters and it is acceptable after the replayed events; any failure leaves the tables as they were |
| TerminalService.Service.CreateIncident | internal/terminal/events.go:405-462 | a receipt answers a repeat; otherwise one incident and its receipt, or a rejection that changes nothing |
| TerminalService.Service.SaveIncident | internal/terminal/events.go:414-462 | the transaction alone, also when another delivery came first |
| TerminalService.CheckChain | internal/terminal/events.go:357-367 | accepts exactly the batches whose links hold |
| TerminalService.MissingActionIsNoticed | internal/terminal/events.go:357-367 | within one boot, a chain from which an inner action is taken out no longer holds, unless two actions carry one signature |
| TerminalService.SortKeepsOrder | internal/terminal/device.go:385-394 | the sort puts a batch in order, and leaves it as it is if and only if it is in order |
| TerminalService.SyncOne | internal/terminal/events.go:373-393 | without an earlier receipt an action becomes an event exactly if the card is known, the identifier free and the action acceptable as an offline one; otherwise an incident, for a revoked card exactly when the card is unknown, for an untrusted clock exactly when it is, and for a conflict in every other case |
| TerminalService.SyncActions | internal/terminal/events.go:338-403 | a batch is refused whole exactly for more than 500 actions, a signature or the chain; otherwise its actions are dealt with so one after another in captured order, each on the tables the one before it left, and the i-th answer is the i-th request's |
| DeviceController.Controller.ExecuteAction | firmware/terminal/src/app/app_controller.cpp:467-532 | the action, which is what was pressed as the boot's next one, is journalled before it is sent and extends the device's signed chain, whatever the clock shows, and its time order if the clock advances; without room or otherwise refused, only a sequence number is used up |
| DeviceController.Controller.HandleActionResult | firmware/terminal/src/app/app_controller.cpp:534-615 | a failure that is retryable, of the transport, a timeout or an unreadable answer, an answer without an id and one for another action each leave the queue as it is; any other answer completes exactly the action sent, when it is the first pending one |
| DeviceController.Controller.Restart | firmware/terminal/src/app/app_controller.cpp:657-661 | after any power loss every action ever journalled is pending or definitively answered, action by action even where identifiers repeat |
| DeviceController.BatchesPassTheServer | internal/terminal/device.go:385-394 | a batch listed from a device's outbox is left in order by the server's sort if and only if it is in time order, which an advancing clock makes it across reboots; and then it passes the chain check |
| DeviceController.PressBecomesEvent | internal/terminal/events.go:369-393 | if a batch's answer says that the action of a press was recorded, the log has one event more: the person's, of the command pressed, at the time that was chosen or else of the press |
| SignedActions.SignedTextDetermines | firmware/terminal/src/domain/signature.cpp:217-224 | no two actions a terminal can journal have the same signed text: it fixes the terminal and every field but the signature |
| SignedActions.OnlyWhatWasSignedVerifies | internal/terminal/events.go:331-336 | with a code that no two texts share, an action that carries the signature of a journalled one verifies if and only if it is that action |
| SignedActions.PressVerifies | firmware/terminal/src/app/app_controller.cpp:476-489 | what the terminal makes of a press verifies under the code it signed with |
| EndToEnd.NoActionGoesMissing | firmware/terminal/src/app/app_controller.cpp:467-661 | over every run of terminal and service, with messages lost, late and repeated and power lost, a journalled action waits, was refused by an answer that is neither retryable nor a failure of transport, time or reading, or has its receipt, and its request has at most one outcome |
| EndToEnd.StepIsSafe | internal/terminal/events.go:136-275 | every step of either side keeps every journalled action accounted for |
| HttpParser.ParseSize | firmware/terminal/src/network/http_response_reader.cpp:21-64 | the overflow-checked loops compute the number exactly when it is a numeral that fits |
| HttpParser.ParseHexSize | firmware/terminal/src/network/http_response_reader.cpp:37-64 | the size before the extension, trimmed |
| HttpParser.ParseFields | firmware/terminal/src/network/http_response_reader.cpp:132-157 | the cursor loop reads the header fields line by line |
| HttpParser.ResponseParser.ParseHeaders | firmware/terminal/src/network/http_response_reader.cpp:104-175 | the status line, then the fields and the framing they imply |
| HttpParser.ResponseParser.FinishLine | firmware/terminal/src/network/http_response_reader.cpp:177-199 | what a size line or a trailer line leads to |
| HttpParser.ResponseParser.Consume | firmware/terminal/src/network/http_response_reader.cpp:201-262 | one byte is one step of the parser; no remaining count goes below zero |
| HttpParser.ResponseParser.FinishOnDisconnect | firmware/terminal/src/network/http_response_reader.cpp:264-272 | complete if and only if it was complete or the body ends with the connection; the body and the code stay, and the status is final |
| HttpParser.StepKeepsSound | firmware/terminal/src/network/http_response_reader.cpp:201-262 | every step keeps the counts consistent with the body's cap |
| HttpParser.AnyInputIsBounded | firmware/terminal/src/network/http_response_reader.cpp:201-262 | for any bytes at all the body stays within its cap, a head within 4096 bytes, a line within 128 and the trailers within 1024, and a final status is never left |
| HttpParser.BlockIsItsLines | firmware/terminal/src/network/http_response_reader.cpp:104-175 | a header block is read as exactly its lines |
| HttpParser.ChunkedResponseCompletes | firmware/terminal/src/network/http_response_reader.cpp:177-262 | a chunked response whose lines the parser takes completes exactly at its last byte with the concatenated chunks as body |
| HttpParser.FixedResponseCompletes | firmware/terminal/src/network/http_response_reader.cpp:214-220 | a response with a content length completes exactly at the last byte of its body |
| HttpParser.HexSizeOfNumeral | firmware/terminal/src/network/http_response_reader.cpp:37-64 | every size within the limit has a numeral that is read as it |
| HttpParser.CloseDelimitedCompletes | firmware/terminal/src/network/http_response_reader.cpp:201-272 | a response with neither length nor chunks is complete when the connection ends, with everything received as body, if that fits the cap, and too large otherwise |
| HttpParser.CutBodiesAreInvalid | firmware/terminal/src/network/http_response_reader.cpp:264-272 | a chunked or fixed-length response cut anywhere is invalid when the connection ends |
| HttpAccepted.CompleteOnlyIfChunked | firmware/terminal/src/network/http_response_reader.cpp:177-262 | after a head that says chunks, whatever bytes come are complete if and only if they start with a body in chunks the parser takes: chunks as long as their lines say, each with its line ends, a last line of size zero, and trailers up to an empty line; and the body is that of the chunks |
| HttpFraming.DigitsAreTheirPlace | firmware/terminal/src/network/http_response_reader.cpp:21-64 | a hexadecimal digit of either case stands for its place in the row of digits, a decimal one for its own, and nothing else is a digit |
| HttpFraming.NamesIgnoreCase | firmware/terminal/src/network/http_response_reader.cpp:132-157 | a field has a name exactly if it is spelled so, in any mixture of upper and lower case |
| HttpFraming.StatusLineIsRead | firmware/terminal/src/network/http_response_reader.cpp:110-127 | a status line is read as a code exactly if it starts with one of the two versions and the code's three digits |
| HttpFraming.OtherCodesAreRefused | firmware/terminal/src/network/http_response_reader.cpp:124-127 | without a status line, or with a code outside 200 to 599, a head is malformed |
| HttpFraming.ExtensionsArePrintable | firmware/terminal/src/network/http_response_reader.cpp:37-64 | a size line with a semicolon is read as the size before the first one exactly if something follows, all of it printable |
| HttpFraming.HeadIsFramed | firmware/terminal/src/network/http_response_reader.cpp:104-175 | what a grammatical head says of the body, exactly: nothing after 204, 304 or a length of zero, chunks, so many bytes within the cap, too many, or everything to the end of the connection; two lengths, two codings, both at once or any other value are malformed |
| HttpFraming.SaidLengthCompletes | firmware/terminal/src/network/http_response_reader.cpp:104-262 | a head that says a length, followed by a body of that length within the cap, completes exactly at its last byte with that body |
| HttpFraming.BodylessCompletes | firmware/terminal/src/network/http_response_reader.cpp:158-175 | a head framed as one without a body completes at its own end |
| HttpGrammar.SizeLineIsRead | firmware/terminal/src/network/http_response_reader.cpp:37-64 | a size line of the grammar is read as its number if its extensions are printable; otherwise it is not read |
| HttpGrammar.HeadIsRead | firmware/terminal/src/network/http_response_reader.cpp:104-175 | every grammatical head that says chunked, once, and no length is taken as that |
| HttpGrammar.ChunkedCompletesExactly | firmware/terminal/src/network/http_response_reader.cpp:177-262 | a chunked response of the grammar, within the limits, completes if and only if its chunk extensions are printable ASCII and its trailers hold no tab, at its last byte and with the chunks' data; otherwise it is refused |
| HttpGrammar.TabInTrailerIsRefused | firmware/terminal/src/network/http_response_reader.cpp:177-199 | a grammatical response with a tab in a trailer, refused |
| HttpGrammar.AccentInExtensionIsRefused | firmware/terminal/src/network/http_response_reader.cpp:37-64 | a grammatical response with an octet above 0x7F in a quoted extension value, refused |
| Calendar.NextDayNumber | firmware/terminal/src/app/app_controller.cpp:48-61 | the first of January 1970 has number 0, and the number grows by exactly one from each date to the next |
| Calendar.DayNumbersAreOrdered | firmware/terminal/src/app/app_controller.cpp:48-61 | day numbers order dates and tell them apart |
| Calendar.WeekdayFromDayNumber | backend/pb_hooks/compliance_helpers.js:38-58 | for every date from year 1 on the weekday is the day number plus four, modulo seven |
| MonthClosing.CountMinutes | backend/pb_hooks/compliance_helpers.js:214-221 | the overlap loop sums the rounded overlaps |
| MonthClosing.CloseDay | backend/pb_hooks/compliance_helpers.js:198-327 | the record of a day is the one its fields are said to make: planned minutes by schedule and absence, ordinary ones the lesser of worked and planned or of worked and what is left of the quota, the excess complementary for a part-timer and overtime for anybody else; refused exactly for a part-timer's excess without an agreement |
| MonthClosing.CloseMonth | backend/pb_hooks/compliance_helpers.js:198-327 | the loop closes exactly the months without an anomalous day or an excess that lacks its agreement, each day by such a record; otherwise the first of those days decides what is said |
| MonthClosing.OneRecord | backend/pb_hooks/compliance_helpers.js:198-327 | there is exactly one such record for a day |
| MonthClosing.TotalsAreSums | backend/pb_hooks/compliance_helpers.js:198-327 | each total is the sum of its part over the days |
| MonthClosing.MonthAddsUp | backend/pb_hooks/compliance_helpers.js:198-327 | the month's minutes are the span time inside it up to half a minute for each piece, and exactly it on whole minutes; ordinary, complementary and overtime add up to worked on each day and in total |
| MonthClosing.QuotaIsUsedOnce | backend/pb_hooks/compliance_helpers.js:198-327 | within one replay, the ordinary minutes of any run of days of a week are the quota used up to its end minus the quota used up to its start |
| MonthClosing.SplitWeek | backend/pb_hooks/compliance_helpers.js:198-327 | two months that share a week use its quota once between them if and only if both lists of spans use as much of it before the boundary |
| MonthReplays.MonthlyStatement | backend/pb_hooks/compliance_helpers.js:118-327 | the month is closed on its own replay: the events up to its end, their spans and their flagged dates |
| MonthReplays.EventByEvent | backend/pb_hooks/timesheet_helpers.js:322-362 | replay treats each event by itself: it is what its own corrections make of it, in order of creation |
| MonthReplays.ReplaysAgree | backend/pb_hooks/timesheet_helpers.js:281-366 | two months' replays agree up to the earlier month's end if and only if no correction stored beyond the earlier window changes an event of that month; for logs of any length |
| MonthReplays.LaterAddsNothing | backend/pb_hooks/timesheet_helpers.js:503-536 | events, an end or an open shift after an instant add no minute before it; a clock-in can only overwrite the shift running there |
| MonthReplays.SameMinutes | backend/pb_hooks/compliance_helpers.js:118-123 | replays that agree up to an instant show the same minutes of it |
| MonthReplays.TwoMonthsShareTheQuota | backend/pb_hooks/compliance_helpers.js:118-327 | two months that share a week, each closed on its own replay, never spend its quota twice if no correction stored beyond the earlier window changes an event of the earlier month |
| MonthReplays.QuotaSpentTwice | backend/pb_hooks/compliance_helpers.js:118-327 | a concrete log of one shift, moved to another day of its week across the months' boundary: both months pay it against the whole quota |
| MonthClosing.PlanAndQuotaShareTheWeek | backend/pb_hooks/timesheet_helpers.js:1020-1026 | the weekday formula and the week the quota counts agree on every date |
| MonthClosing.FlexiblePlanAddsUp | backend/pb_hooks/timesheet_helpers.js:988-1018 | the flexible daily plan sums to the contracted minutes over a full week, for every choice of weekdays |
| MonthClosing.FlexiblePlanIsEven | backend/pb_hooks/timesheet_helpers.js:988-1018 | only the selected weekdays have minutes, Monday to Friday if none is selected, none a minute more than another, and none more than an earlier one |
| CacheCodec.Validate | firmware/terminal/src/storage/cache_store.cpp:89-109 | accepts exactly the snapshots of at most thirty valid entries with every employee and every card once |
| CacheCodec.EntriesACacheHolds | firmware/terminal/src/storage/cache_store.cpp:66-87 | the valid entries, field by field: texts of one line within their lengths, a card in upper-case hexadecimal, one of three states and no negative time |
| CacheCodec.SnapshotCodecInverse | firmware/terminal/src/storage/cache_store.cpp:261-353 | a file decodes to a snapshot exactly when it is that valid snapshot's encoding: the codec is a bijection |
| CacheCodec.Encode | firmware/terminal/src/storage/cache_store.cpp:261-295 | succeeds exactly on valid snapshots and produces the encoding |
| CacheCodec.DecodeSnapshot | firmware/terminal/src/storage/cache_store.cpp:297-353 | the cursor loop decodes as the specification does |
| CacheCodec.SnapshotRoundTrip | firmware/terminal/src/storage/cache_store.cpp:261-353 | every valid snapshot decodes from its encoding |
| CacheCodec.CutSnapshotIsRefused | firmware/terminal/src/storage/cache_store.cpp:297-353 | every strict prefix of an encoding is refused, whatever the checksum |
| CacheCodec.ValidSnapshotsFit | firmware/terminal/src/storage/cache_store.cpp:261-295 | a valid snapshot always fits the maximum size |
| CacheCodec.EncodedStarts | firmware/terminal/src/storage/cache_store.cpp:261-295 | an encoding starts with its magic and version and takes at most 8192 bytes |
| CacheStore.RepairKeepsLoaded | firmware/terminal/src/storage/cache_store.cpp:235-259 | putting the selector right changes nothing that is loaded |
| CacheStore.LoadedIsNewestValid | firmware/terminal/src/storage/cache_store.cpp:235-259 | what is loaded is a valid snapshot, and no readable slot holds a newer one |
| CacheStore.WhatIsLoaded | firmware/terminal/src/storage/cache_store.cpp:235-259 | of two snapshots of one revision the one pointed at is loaded, or A's; without any, the error is that of the file pointed at, or else of A's, or of B's |
| CacheStore.WhereAReplaceWrites | firmware/terminal/src/storage/cache_store.cpp:402-452 | a replace never writes over what is loaded, nor over the file pointed at while nothing can be loaded; else it takes a free file, A first, and where both are there it writes nothing |
| CacheStore.EncodedIsWhole | firmware/terminal/src/storage/cache_store.cpp:402-452 | an encoding is read back as its snapshot, and none of its prefixes is |
| CacheStore.ReplaceIsAtomic | firmware/terminal/src/storage/cache_store.cpp:402-452 | a power loss anywhere in a replace leaves the old or the new snapshot, whole |
| CacheStore.ReplacedIsLoaded | firmware/terminal/src/storage/cache_store.cpp:402-452 | what a successful replace stored is loaded next if and only if its revision is not below the loaded one; equal revisions included |
| CacheStore.Store.Load | firmware/terminal/src/storage/cache_store.cpp:380-400 | returns the selected snapshot, a valid one, repairing the selector on the way |
| CacheStore.Store.ReplaceAtomically | firmware/terminal/src/storage/cache_store.cpp:402-452 | issues exactly the calls the atomicity theorem is about; an invalid snapshot changes nothing |
| NetworkWorker.SendsNeverFindAFullQueue | firmware/terminal/src/network/network_worker.cpp:173-182 | neither send ever finds its queue full before a stop |
| NetworkWorker.StepKeepsGood | firmware/terminal/src/network/network_worker.cpp:154-368 | under every interleaving each slot in use has exactly one owner and a free one none, and the jobs keep their order |
| NetworkWorker.JobsAreAnsweredOnceInOrder | firmware/terminal/src/network/network_worker.cpp:194-368 | until a stop, the results delivered are those of the accepted jobs, each once, in order of acceptance |
| NetworkWorker.DrainingEnds | firmware/terminal/src/network/network_worker.cpp:154-368 | every step of the worker, and of the caller on a job it has begun, that changes anything leaves less to do |
| NetworkWorker.AcceptedJobsCanBeDelivered | firmware/terminal/src/network/network_worker.cpp:194-368 | from any moment before a stop, every accepted job can be brought to delivery with its own reply, in at most as many steps as there is to do |
| WorkerTasks.Worker.ClaimFreeSlot | firmware/terminal/src/network/network_worker.cpp:314-327 | reserves the first free slot, exactly when there is one |
| WorkerTasks.Worker.FillSlot | firmware/terminal/src/network/network_worker.cpp:160-172 | the job goes into its slot, or the slot is given back |
| WorkerTasks.Worker.Enqueue | firmware/terminal/src/network/network_worker.cpp:173-182 | the send succeeds and the job is accepted |
| WorkerTasks.Worker.ReceiveResult | firmware/terminal/src/network/network_worker.cpp:194-201 | the oldest answered slot |
| WorkerTasks.Worker.TakeResult | firmware/terminal/src/network/network_worker.cpp:202-208 | its reply, and the slot is free again |
| WorkerTasks.Worker.ReceivePending | firmware/terminal/src/network/network_worker.cpp:338-342 | the oldest pending slot goes to the task |
| WorkerTasks.Worker.RunJob | firmware/terminal/src/network/network_worker.cpp:248-311 | the answer lies in the job's own slot |
| WorkerTasks.Worker.SendResult | firmware/terminal/src/network/network_worker.cpp:349-351 | the first try of the send loop succeeds |
| WorkerTasks.Worker.NextRound | firmware/terminal/src/network/network_worker.cpp:352-361 | the task waits again; only a stop gives a slot up |

## Left out

- Storage faults other than a power loss: a call that fails while the device stays on. The branches are in the methods, but nothing is promised of the contents.
- A power loss during the recovery of a journal whose files no power loss has brought about; what such a recovery leaves when it ends is `OutboxRecovery.AnyStateRecovers`.
- LittleFS sessions and directories, and the cost of reading.
- OutboxFormat.ActionCodecInverse: the decoding cursor is modelled as the remaining bytes, on values.
- OutboxStore.ScanQueue: the visitor of the template is applied to the scanned list afterwards instead of action by action.
- OutboxStore.JournalReader.Next: one reader for both record kinds.
- Checksum, digest, signature and encryption internals; the service compares signatures as bytes, the model as texts.
- ChainWriters.RunsStayStraight: appends are serial; two transactions that read the same tip are not modelled. The clock route's fallback for a failing tip query is left out.
- AlteredRows.AlteredRowIsReported: texts that hold the separator `|` are left out, since the code joins them as they are; columns a format does not hash are not bound by it.
- HashChain.V3Candidates: numbers are texts of whole numbers; keys that JavaScript objects inherit are left out.
- Timesheet.ItemsAreParsed: the zone's arithmetic is a parameter, and so is the legacy storage of wall-clock times; notes and the display name of a break type are not part of an event.
- NoDoubleCounting.FindConflict: the comparison with pending requests is the same overlap test and is not repeated.
- NoDoubleCounting.SpansAddUp: of equal times the recorded event comes first, the order of insertion; the query leaves it open.
- ReplacementReplay.ReplacementTakesEffect: creation times rise strictly, while the code orders corrections of one second as its sort finds them. Of a window that exceeds the page, only what `ReplacementReplay.BehindAFullPage` says is shown.
- ReplacedDay.ReplacedDayReadsBack: the events of the day's window are at distinct seconds, since the order of equal times is the query's. The conflict check is taken over the events of that window.
- MonthReplays.TwoMonthsShareTheQuota: the earlier month's events are at distinct seconds, a shift across the boundary is overwritten by a later clock-in in both replays or in neither, and a span that a midnight cuts has an end on a whole minute, as rounding is per overlap. `MonthClosing.SplitWeek` gives the exact condition for any two lists of spans.
- Replacement.MaterializeReplacement: the fingerprint is a parameter, target lists are compared as multisets since identifiers hold no comma, and the organization is part of the employee.
- WorkDay.TerminalState: times are whole seconds. PIN entry, its delays and employee lookup are left out.
- Delivery.OneOutcomePerRequest: a transaction is one atomic step and the unique indexes are part of it; HTTP replies and authentication are left out.
- Equality of the two backends' replays: they order corrections differently.
- DeviceController.Controller.ExecuteAction: requires that the sequence number does not wrap at 32 bits. A restart picks an identifier no journalled action has.
- EndToEnd.NoActionGoesMissing: signatures and the batch endpoint's refusals are left out; a refused batch is a message that is lost.
- DeviceController.Controller.HandleActionResult: screens and sounds are left out. While older actions are pending, the queue takes no completion but the head's, so the answer's completion is not stored; the model says so through the queue.
- HttpParser.ResponseParser.Consume: the largest size is a parameter of at least 16. Deadlines are left out, and the text after the status code is not looked at by the code either.
- MonthClosing.MonthAddsUp: schedules, holidays and leave are functions of the day, and midnight is a rising function.
- Calendar.DayNumbersAreOrdered: parsing of timestamps is left out.
- CacheStore.ReplaceIsAtomic: the selector is written atomically; its read failures, clearing and formatting are left out.
- NetworkWorker.JobsAreAnsweredOnceInOrder: nothing is claimed after a stop is requested. A busy mutex shows as a failed claim, and running out of memory while executing is part of the answer.
- The host build's synchronous processing, Wi-Fi, TLS, sockets, the captive portal, screens, the web interface, migrations other than the unique indexes, notifications, mail, roles and permissions.
- The copies of the helpers inside the route files, which the routes do not use.
