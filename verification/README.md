# Verified model of photoViewer's core

photoViewer is a GTK photo library. This project models the parts of its core where a fast, stateful or
branchy piece of code has a simple meaning, and proves that the code has that meaning.

* **Thumbnails** (`ThumbnailQueue`, `ThumbnailLoader`, `ThumbnailService`). The priority heap with lazy
  invalidation, and the loader around it as a state machine: every lock section is one atomic step, so
  registering a request, enqueueing it and rolling it back can be interleaved with everything else.
  `ThumbnailService` is the object itself; each method performs one step of the machine, so every state an
  object can be in is the end of a run.
* **Trash** (`TrashInfo`, `TrashRoot`, `StagedTrash`, `TrashReconcile`, `TrashLifecycle`, `MarkBeforeMove`). The
  `.trashinfo` codec, moving into a trash root, staged restore and permanent deletion under faults, the two-way
  reconcile pass, what a pass makes of a failed restore or deletion, and the mark-then-move protocol against file
  system watcher deletions.
* **Containers** (`JpegExif`, `PngExif`, `Isobmff`, `HeicItems`, `HeicProperties`, `HeicDims`, `HeicReader`,
  `HeicExif`). Replacing the EXIF block of a JPEG or PNG, and reading boxes, item locations, image size and the EXIF
  block from a HEIC file. `HeicReader` and `HeicExif` hold the cursor and the loops; the HEIC modules also hold the
  grammar, a printer for each structure, and the proofs of what reading makes of printed bytes.
* **One order** (`MediaOrder`, `MediaQueries`, `StoredOrder`, `MediaList`, `Sections`, `SearchPattern`). Rank, seek,
  page and batch rank over one canonical order, and when that is the order of the grids; the capped list of the user
  interface with its fast paths; date sections; and the LIKE pattern compiler.
* **Control** (`DbActor`, `AlbumRefresh`). The single-writer priority actor and the refresh coalescer. What the actor
  takes from its channel in each turn of its loop is a parameter; the proofs hold for every sequence of turns.
* **Directories** (`DirectoryCovers`). Two different loops that both keep the outermost directories.

The file system, the clock, the database and the network are parameters: a disk is a record of maps, a table is
a set of rows or a map, a transaction is one step, and a fault record says which calls fail.

## Where code and documentation differ

The model follows the code. These statements of the documentation, of a standard or of the design do not hold as
they stand. The lemmas named say when they hold, and show a case in which they fail.

* Duplicate thumbnail requests are documented as never dropped because of a full queue
  (`src/core/thumbnails.rs:211-213`). A request that joins before the enqueue that finds the queue full is dropped
  with it, and so is one that joins after it and before the rollback, even if the queue has room by then:
  `WaitingReplyIsDroppedIff` says for every waiting reply and every run when it is dropped,
  `WaitersSurviveIffTheQueueHasRoom` and `RejectedWaitersAreDropped` what the single steps do;
  `JoinerDroppedByFullQueue`, `JoinerOfRejectedKeyIsDropped`.
* Entries of one tier are documented as first in, first out (`src/core/thumbnails.rs:120-121`). A pop takes the
  oldest entry that is live for its key, so an old job is revived whenever a second live entry is in the heap, after
  a cancellation or a boost, and its key is served before older requests for other keys: `PopIsFirstInFirstOutIff`,
  `PopServesTheLatestIff`, `RequestIsServedIffNoLeftover`, `BoostIsServedIffNoLeftover`; `LaterRequestOvertakes`,
  `CancelledEntryIsRevived`, `BoostRevivesCancelled`.
* Marking before moving is meant to keep the watcher from deleting the row (`src/core/trash.rs:614-627`). If the
  rename succeeds, the info file cannot be written and the move is rolled back, a watcher that looked in between
  deletes the row: `RowCanBeLostIffExposed`, `LostRun`.
* Pruned rows are documented as emptied from outside (`src/core/trash.rs:684-685`). The payload of a pruned row
  remains exactly if it lies in a trashed directory whose place is taken again: `PrunedPayloadRemainsIff`,
  `RemainingPayloadIsPruned`.
* When every numbered name is taken, the time-stamped trash name is used unchecked: `MoveKeepsAllIff`,
  `PayloadIsOverwritten`. If then the info file cannot be written, moving back removes what was there:
  `FailedMoveKeepsAllIff`, `PayloadIsLost`.
* The list is documented to keep the order of the database (`src/ui/apply_to_media_list.rs:19-20`). The list compares
  nanoseconds, the database whole seconds: `GridShowsDatabaseOrderIff`, `QueriesWalkTheGridIff`, `InvertedPair`.
* The full merge of the list is keyed on the uri alone, the other two paths on uri or id; a renamed file is then shown
  twice: `FullMergeIsUnionIffUrisDecide`, `RenameIsShownTwice`.
* A batch of new items that repeats an id or a uri is inserted with its repetitions: `PlacedIsDistinctIffBatchIs`.
* A PNG chunk's length field keeps 32 bits, so a longer block is not found again: `WrittenBlockIsFoundIffItFits`.
* HEIC boxes with a 64-bit size are accepted by the box walker, but the structural parsers always skip eight header
  bytes and take such a box for one that runs to the end, with half of its size for a type. `LongBoxIsMisread` says
  so for every box, `DimsOfPrinted` says what is read of a whole file in every combination of size forms, and
  `PitmIsReadIff`, `LongIprpIsSkipped`, `LongIpcoHasNoSize`, `LongIpmaIsMisread` and `LongSizeIsReadIff` what that
  means for each box that decides. `ExifOfPrinted` says the same of the EXIF item, with `IinfOfPrinted` and
  `IlocBoxOfPrinted` for its tables.
* The item data box of a HEIC file has no version and flags (section 8.11.11 of ISO/IEC 14496-12), but the reader
  skips four bytes for them: `ItemDataOfPrinted`.
* Before the stop point a JPEG segment shorter than four bytes can melt into a short tail: `WalkOfPrinted`.
* Search terms are meant to be normalised (`src/core/db.rs:422-428`), but white space is trimmed before date words are
  removed: `NormalizedTwiceIff`, `TrailingDashesAreIgnoredIff`; `DayWordBaresWhite`.
* Section counts are summed in 32 bits, so a section with more items shows a remainder (a build with overflow checks
  stops): `FoldIsCountsOfListIff`.
* At the largest `u32` offset the section search always answers the oldest section: `OffsetLandsInItsSection`.

## Model

| member | source | states |
|---|---|---|
| `ThumbnailQueue.EnqueueKeepsInv` | src/core/thumbnails.rs:785-811 | enqueueing keeps the queue invariant: unique sequence numbers, the latest heap entry of every queued key at its tier carries its real job, size within capacity |
| `ThumbnailQueue.BoostKeepsInv` | src/core/thumbnails.rs:860-890 | boosting any list of keys keeps that invariant and never removes a heap entry |
| `ThumbnailQueue.BoostRaisesExactlyTheNamed` | src/core/thumbnails.rs:843-890 | boosting raises exactly the named keys that are still queued, changes nothing else about them, and queues or drops no key |
| `ThumbnailQueue.PopHasNoPriorityInversion` | src/core/thumbnails/queue.rs:225-241 | a pop returns nothing exactly when nothing is queued; otherwise the item belongs to a queued key at its current tier, no live entry left behind precedes it, every key still queued has no better tier, and only stale entries are discarded |
| `ThumbnailQueue.PopServesTheLatestIff` | src/core/thumbnails/queue.rs:225-241 | for every queue: the accepted item is the latest entry pushed for its key and tier, and so carries the current job, if and only if the heap holds no other live entry of the key |
| `ThumbnailQueue.PopReturnsThePushedIffNoLeftover` | src/core/thumbnails/queue.rs:225-241 | a pop that accepts a key returns the entry just pushed for it exactly when the heap held no leftover entry of the key and tier |
| `ThumbnailQueue.RequestIsServedIffNoLeftover` | src/core/thumbnails.rs:785-811 | the same for a new request |
| `ThumbnailQueue.BoostedKeyIsNext` | src/core/thumbnails.rs:112-114 | a boosted key is popped next, whatever else is queued at other tiers |
| `ThumbnailQueue.BoostIsServedIffNoLeftover` | src/core/thumbnails.rs:860-890 | the same for a boosted request |
| `ThumbnailQueue.CancelledEntryIsRevived` | src/core/thumbnails.rs:118-123 | a failing case: request, cancel while queued, request again; the pop returns the first job |
| `ThumbnailQueue.BoostRevivesCancelled` | src/core/thumbnails.rs:853-890 | another: request boosted, cancel, request normally, boost; the pop returns the first job |
| `ThumbnailQueue.PopIsFirstInFirstOutIff` | src/core/thumbnails.rs:118-123 | for every queue: the item popped is older than every other live entry of its tier, whatever their keys; it is the oldest current request of the tier if and only if no entry that is acceptable without being its key's current request is older |
| `ThumbnailQueue.OldestRequestExists` | src/core/thumbnails.rs:118-123 | every tier with a queued key has such an oldest request |
| `ThumbnailQueue.LaterRequestOvertakes` | src/core/thumbnails.rs:118-123 | a failing case: a key requested, cancelled and requested again is served before a request for another key made in between |
| `ThumbnailQueue.FirstIsUnique` | src/core/thumbnails.rs:140-148 | the heap order leaves no choice about the item popped next |
| `ThumbnailLoader.RetainKeepsExactlyTheActive` | src/core/thumbnails.rs:549-549 | retaining keeps exactly the waiters that are not cancelled and keeps replies distinct |
| `ThumbnailLoader.StepKeepsInv` | src/core/thumbnails.rs:734-840 | every atomic step keeps: queue invariant; a key is in at most one of registered, rejected, queued, generating, and in flight exactly while it is in one; every reply is in exactly one place |
| `ThumbnailLoader.EveryRunKeepsInv` | src/core/thumbnails.rs:734-840 | that invariant holds at every point of every interleaving |
| `ThumbnailLoader.ReachableKeepsInv` | src/core/thumbnails.rs:296-345 | so it holds in every state reachable from the empty loader |
| `ThumbnailLoader.FinalPlacesStay` | src/core/thumbnails/queue.rs:96-113 | a settled reply stays settled the same way under every step: nothing is answered twice, or after it was cancelled, failed or dropped |
| `ThumbnailLoader.NoReplyIsForgotten` | src/core/thumbnails.rs:826-830 | when no key is in a phase and nothing is left to send, every reply ever handed in is settled |
| `ThumbnailLoader.RequestIsHeld` | src/core/thumbnails.rs:734-771 | a request is answered at once exactly if its key is cached, and else its waiter waits for the key |
| `ThumbnailLoader.RequestRegisters` | src/core/thumbnails.rs:752-771 | a request registers its key, as it was asked for, exactly if the key is neither cached nor in flight |
| `ThumbnailLoader.RequestIsQueuedAsAsked` | src/core/thumbnails.rs:785-811 | in every run a registered request is queued with the tier and job it was made with, if there is room at its check |
| `ThumbnailLoader.StepMovesWaiter` | src/core/thumbnails.rs:540-571 | where every step takes a waiter: dropped by a rollback of its key, failed or handed out by a finish of its key, cancelled by a sweep that finds its flag set, answered or cancelled at its delivery, and otherwise left where it is |
| `ThumbnailLoader.GenerationDecides` | src/core/thumbnails/queue.rs:96-186 | in every run a waiter that is settled, and neither dropped nor cancelled, was answered if and only if the generation that took it ended well, and failed if and only if it did not; answered replies are exactly those sent |
| `ThumbnailLoader.CancellationDecides` | src/core/thumbnails/queue.rs:179-183 | in every run a waiter is answered if and only if its turn came without its flag set, and cancelled if and only if it came with the flag set or a sweep found it waiting with the flag set |
| `ThumbnailLoader.CancelledIsNeverAnswered` | src/core/thumbnails.rs:536-549 | in every run a waiter whose flag is set while it waits is never answered |
| `ThumbnailLoader.CachedIff` | src/core/thumbnails/queue.rs:101-113 | a key is cached exactly by a generation that ends well, until it is evicted |
| `ThumbnailLoader.FlagIff` | src/core/thumbnails.rs:541-541 | a flag is set exactly by its own cancellation, for good |
| `ThumbnailLoader.SweepDropsKeyIff` | src/core/thumbnails.rs:549-570 | a sweep takes a key out of flight and queue exactly if it is queued and no active waiter is left |
| `ThumbnailLoader.ProgressLowersWork` | src/core/thumbnails.rs:734-840 | every enqueue, rollback, accepted pop, finish and delivery lowers a measure that nothing but a new request or pull raises |
| `ThumbnailLoader.BusyLoaderCanProgress` | src/core/thumbnails/queue.rs:217-241 | the measure is zero exactly in an idle loader, and in any other one of those steps is enabled |
| `ThumbnailLoader.QuietRunSettlesEverything` | src/core/thumbnails.rs:734-840 | without new requests and pulls every interleaving makes a bounded number of such steps; when none is left the loader is idle and every reply settled |
| `ThumbnailLoader.PastTheCapacityCheckStays` | src/core/thumbnails.rs:752-765 | a reply past the capacity check is never dropped for a full queue by any step |
| `ThumbnailLoader.EnqueuedReplyIsNeverDropped` | src/core/thumbnails.rs:476-482 | in every run, a reply past the capacity check at some point is never dropped for a full queue later |
| `ThumbnailLoader.WaitersSurviveIffTheQueueHasRoom` | src/core/thumbnails.rs:785-830 | every reply waiting for a registered key, joiners included, passes the capacity check exactly when the queue has room at the enqueue; otherwise the rollback drops it |
| `ThumbnailLoader.RejectedWaitersAreDropped` | src/core/thumbnails.rs:814-830 | after the failed check the rollback is enabled and drops every reply waiting for the key, whether or not the queue has room by now |
| `ThumbnailLoader.JoinerOfRejectedKeyIsDropped` | src/core/thumbnails.rs:773-830 | a request that joins between the failed check and the rollback is dropped too |
| `ThumbnailLoader.WaitingReplyIsDroppedIff` | src/core/thumbnails.rs:734-830 | for every run and every waiting reply, in whatever phase its key is: a reply that is settled and not cancelled was dropped if and only if the registration had failed its capacity check at the start or fails it in the run |
| `ThumbnailLoader.JoinerDroppedByFullQueue` | src/core/thumbnails.rs:209-213 | a four-step run in which a joiner is dropped by the rollback |
| `ThumbnailService.Service.constructor` | src/core/thumbnails.rs:296-345 | a new service shows the empty loader |
| `ThumbnailService.Service.Register` | src/core/thumbnails.rs:734-771 | the state section of a request is one Request step: memory hit, join, or registration, each in exactly its case |
| `ThumbnailService.Service.EnqueueNew` | src/core/thumbnails.rs:773-813 | the queue section is one EnqueueRegistered step; it enqueues exactly when there is room |
| `ThumbnailService.Service.RollbackRegistration` | src/core/thumbnails.rs:826-830 | the rollback is enabled for every rejected key and is one Rollback step |
| `ThumbnailService.Service.BoostLoop` | src/core/thumbnails.rs:860-890 | the loop over the keys computes the boosted queue |
| `ThumbnailService.Service.PrioritizeKeys` | src/core/thumbnails.rs:853-900 | one Prioritize step: same queued keys, exactly the named ones raised |
| `ThumbnailService.Service.CancelRequest` | src/core/thumbnails.rs:540-571 | a cancellation is the step that sets the flag followed by the sweep step |
| `ThumbnailService.Service.PopLoop` | src/core/thumbnails/queue.rs:225-240 | the pop loop ends and computes the specified pop |
| `ThumbnailService.Service.NextRequest` | src/core/thumbnails/queue.rs:217-241 | a worker's pop is one PopNext step without priority inversion |
| `ThumbnailService.Service.FinishGeneration` | src/core/thumbnails/queue.rs:96-113 | a finished generation is enabled and is one Finish step; the waiters handed out are those of the key |
| `MarkBeforeMove.RunKeepsInv` | src/core/trash.rs:628-645 | in every interleaving with watcher deletions, how far the move got determines row and file |
| `MarkBeforeMove.RowCanBeLostIffExposed` | src/core/trash.rs:628-645 | some interleaving removes the row from the library if and only if the rename succeeded, the info write failed and the row was unmarked |
| `MarkBeforeMove.LostRun` | src/core/trash.rs:340-347 | the interleaving that loses the row in that case |
| `MarkBeforeMove.EndIsConsistent` | src/core/trash.rs:614-645 | otherwise the row ends trashed exactly when the file moved or unmarking failed, and live only with the file in place |
| `MarkBeforeMove.TrashedElsewhereIsMarked` | src/core/db.rs:1411-1455 | a file put into the trash by another program: in every run of watcher deletions the first one marks the row, and none loses it |
| `MarkBeforeMove.DeletedElsewhereIsDropped` | src/core/db.rs:1444-1475 | a deleted file: the first watcher deletion takes the row out, hidden exactly if it is kept for its cloud copy |
| `TrashReconcile.Prepare` | src/core/trash.rs:723-799 | the planning loops compute the plan defined entry by entry |
| `TrashReconcile.AdmitEntry` | src/core/trash.rs:736-784 | one entry, a file or a directory with the media below it, adds exactly its candidates to the plan |
| `TrashReconcile.AdmitDirectory` | src/core/trash.rs:753-775 | the walk through a trashed directory adds exactly its supported files, under their original paths |
| `TrashReconcile.CandidateIff` | src/core/trash.rs:736-784 | the files a pass looks at are exactly the supported files of entries under a root whose own place is empty, directories opened |
| `TrashReconcile.Database.CommitReconcile` | src/core/trash.rs:840-863 | marks, upserts, marks of the inserted rows and prunes compose to the committed rows |
| `TrashReconcile.PlanContents` | src/core/trash.rs:805-838 | a plan marks exactly the live rows of candidates and inserts exactly the readable candidates without a row |
| `TrashReconcile.CandidatesAreAbsent` | src/core/trash.rs:736-784 | every candidate's own path is absent, and it is the original of an entry or lies in an absent directory |
| `TrashReconcile.PassEffect` | src/core/trash.rs:723-863 | the rows after one pass, path by path |
| `TrashReconcile.PassConverges` | src/core/trash.rs:723-863 | after a pass every readable supported trash file under a root whose entry's place is empty has a trashed row, unreadable ones too if they had a row; every trashed row whose file is gone while its directory exists has an entry; rows of files in place are untouched |
| `TrashReconcile.SecondPassIsIdle` | src/core/trash.rs:723-863 | a second pass over the same file system plans nothing and changes nothing |
| `TrashReconcile.OrphanIsPrunedIffParentExists` | src/core/trash.rs:786-796 | a trashed row without file and entry is pruned exactly when its directory exists |
| `TrashReconcile.PrunedPayloadRemainsIff` | src/core/trash.rs:786-796 | the payload of a pruned row is gone, exactly unless it lies in a trashed directory in whose place something exists |
| `TrashReconcile.RemainingPayloadIsPruned` | src/core/trash.rs:746-751 | the case exists: the album was trashed as a directory and an empty one made in its place |
| `TrashInfo.PercentEncodePath` | src/core/trash.rs:246-258 | the encoding loop computes the encoding |
| `TrashInfo.PercentDecode` | src/core/trash.rs:228-244 | the decoding loop computes the decoding, malformed escapes included |
| `TrashInfo.EncodedByteIs` | src/core/trash.rs:250-255 | letters, digits, `-._~` and the slash stand for themselves; any other byte is a percent sign and two upper-case digits |
| `TrashInfo.EscapeIsDecoded` | src/core/trash.rs:228-267 | a percent sign and two digits, in any case, are one byte; a percent sign before anything else is kept |
| `TrashInfo.InfoText` | src/core/trash.rs:351-357 | the three lines of an info file |
| `TrashInfo.DecodeUndoesEncode` | src/core/trash.rs:228-258 | decoding undoes encoding for every byte string |
| `TrashInfo.EncodedHasNoLineBreak` | src/core/trash.rs:246-258 | an encoded path contains no line break |
| `TrashInfo.PlainTextIsKept` | src/core/trash.rs:228-244 | text without a percent sign is its own decoding |
| `TrashInfo.LineEndings` | src/core/trash.rs:182-182 | a line is what comes before its newline, without one carriage return before that; the last line is all that is left |
| `TrashInfo.FirstPathLineIsRecorded` | src/core/trash.rs:182-185 | the scanner reads what the first line that starts with `Path=` says, whatever the line endings |
| `TrashInfo.WrittenPathIsReadBack` | src/core/trash.rs:351-357 | the scanner reads from a written info file exactly the path it was written for |
| `TrashRoot.Root.UniqueTrashName` | src/core/trash.rs:359-387 | the search returns the first free name it tries, or the time-stamped one |
| `TrashRoot.Root.MovePathToTrashRoot` | src/core/trash.rs:322-349 | when it succeeds, and the whole disk after success and after each failure, with a torn info file and a failed move back among them |
| `TrashRoot.CandidateSpells` | src/core/trash.rs:366-376 | a numbered name has the number before the extension, or at the end without one |
| `TrashRoot.CandidatesDiffer` | src/core/trash.rs:371-376 | the search never tries a name twice |
| `TrashRoot.ChosenNameIsFree` | src/core/trash.rs:359-387 | the chosen name belongs to no payload and no info file whenever that is true of some name the search tries |
| `TrashRoot.ChosenNameIsFirst` | src/core/trash.rs:359-387 | the name itself if it is not taken, else the one with the lowest number up to 9999 that is not, else the time-stamped one |
| `TrashRoot.MoveAddsExactlyOneEntry` | src/core/trash.rs:163-200 | after a move under a free name the scanner finds that exact path and every earlier entry unchanged |
| `TrashRoot.EarlierEntriesSurviveIff` | src/core/trash.rs:163-200 | under any name, earlier entries survive exactly when the name was not the entry of another path |
| `TrashRoot.MoveKeepsAllIff` | src/core/trash.rs:322-387 | a move keeps every entry and every payload exactly if some name it tries is free, or the time-stamped one is free of other payloads and entries of other paths |
| `TrashRoot.PayloadIsOverwritten` | src/core/trash.rs:383-386 | a disk on which all names are taken and a payload is overwritten |
| `TrashRoot.FailedMoveIsUndoneIff` | src/core/trash.rs:344-347 | after a failed info write everything is as it was, exactly if the move back worked, no payload had the name, and what was left of the info file is what was there |
| `TrashRoot.FailedMoveEntries` | src/core/trash.rs:344-347 | under any name, free or taken: library and payloads after a failed info write, with and without the move back, and which entries the scanner then finds |
| `TrashRoot.FailedMoveKeepsAllIff` | src/core/trash.rs:322-387 | a failed move keeps every entry and every payload exactly if some name it tries is free, or the time-stamped name is harmless: moved back, no payload had it; not moved back, it held the same payload, and its entry is read back |
| `TrashRoot.PayloadIsLost` | src/core/trash.rs:344-347 | a disk on which all names are taken and the move back removes a payload |
| `StagedTrash.FailedRestoreKeepsFilesAndRows` | src/core/trash.rs:913-929 | a restore that fails, at whatever point, leaves all rows as they were, and files and infos exactly unless its rollback failed as well; then the file is at its original place; nothing else but directories above it is left |
| `StagedTrash.RestoreSucceedsIff` | src/core/trash.rs:996-1022 | a restore succeeds exactly when the row is trashed, an entry is resolved, the place is free and no step fails |
| `StagedTrash.SuccessfulRestore` | src/core/repository.rs:501-564 | a successful restore makes the row live and puts the payload back, with every directory above it, touches no file of the library, and takes away exactly this entry and, if that works, its info file |
| `StagedTrash.DeleteSucceedsIff` | src/core/trash.rs:940-994 | a deletion succeeds exactly when the row is trashed, an entry is resolved and no step fails; without a trashed row or entry, or if the file cannot be staged, nothing changes |
| `StagedTrash.FailedUnlinkIsUndoneIff` | src/core/trash.rs:948-971 | a failed unlink is undone completely exactly when the rename back works and the hidden name was not in use |
| `StagedTrash.UnlinkRemovesOnlyItsNames` | src/core/trash.rs:948-994 | once unlinked, the payloads and entries of the two names are gone and all others untouched, whether or not the hidden name was in use and the row was deleted; the info file is gone unless its removal failed |
| `StagedTrash.FailedRowDeletionLeavesOrphanRow` | src/core/repository.rs:531-545 | a database failure after the unlink leaves the row trashed, with an entry exactly if the path had one under another name |
| `TrashLifecycle.FailedDeletionIsPrunedIff` | src/core/trash.rs:936-939 | the next reconcile pass prunes that row exactly if its directory exists, nothing is at its path and the path had no other entry |
| `TrashLifecycle.TrashedRowIsPrunedIff` | src/core/trash.rs:786-796 | for every world and row: a pass prunes a trashed row exactly if nothing is at its path, its directory exists and the trash has no entry for it; otherwise it stays trashed |
| `TrashLifecycle.RestoredRowStaysLive` | src/core/trash.rs:786-792 | a restored row stays live through the next pass, even with its info file left behind |
| `TrashLifecycle.FailedRestoreSurvives` | src/core/trash.rs:913-929 | a row whose restore failed, its rollback too or not, is still trashed after the next pass |
| `TrashLifecycle.PassExists` | src/core/trash.rs:723-799 | every world with distinct paths and complete directories can be seen by a pass |
| `TrashLifecycle.SplitIsInjective` | src/core/trash.rs:739-741 | paths and their component lists determine each other |
| `StagedTrash.Library.PrepareRestore` | src/core/trash.rs:996-1022 | makes the directories, then moves the payload back exactly when the entry exists and the place is free; otherwise the disk is unchanged |
| `StagedTrash.Library.RestoreItem` | src/core/repository.rs:501-564 | one item of a restore computes the specified world |
| `StagedTrash.Library.DeleteItem` | src/core/trash.rs:940-994 | one permanent deletion computes the specified world |
| `StagedTrash.Library.RestoreBatch` | src/core/repository.rs:501-564 | changed and failed ids are together the ids asked for; every changed row ends live; rows only turn live, no library file changes and no content is lost |
| `StagedTrash.RestoreIsMonotone` | src/core/repository.rs:501-564 | one restore, failed or not, only turns rows live and keeps every payload in library or trash |
| `JpegExif.WriteJpegExifSegment` | src/core/orientation.rs:306-350 | the writer computes the rewritten stream and fails exactly on a non-JPEG, an oversized block or a cut segment |
| `JpegExif.CopyWithoutExif` | src/core/orientation.rs:325-349 | the marker loop keeps everything but EXIF segments |
| `JpegExif.WalkSplits` | src/core/orientation.rs:325-348 | the walk splits a stream into well-formed segments and a tail at a stop point |
| `JpegExif.WalkOfPrinted` | src/core/orientation.rs:325-348 | walking printed segments gives them back, with the exact exception of a short last segment before a short tail |
| `JpegExif.RewriteReplacesExactlyTheExif` | src/core/orientation.rs:306-350 | the first segment after SOI is the new block, no other EXIF segment remains before the stop point, all other segments and the tail are byte-identical and in order |
| `JpegExif.AcceptedIff` | src/core/orientation.rs:306-348 | a stream is accepted if and only if it is SOI, markers and segments as the standard has them, and a tail from the scan or the end of the image on, and the block fits one segment |
| `JpegExif.RewriteOfStream` | src/core/orientation.rs:306-350 | on that grammar: the block becomes the first segment, behind marker, length and `Exif`, 0, 0; other EXIF segments disappear; everything else stays in order |
| `JpegExif.WrittenBlockIsFound` | src/core/orientation.rs:315-319 | in every accepted stream the written block is found again in the first EXIF segment |
| `JpegExif.LastRewriteWins` | src/core/orientation.rs:306-350 | writing twice is writing the last |
| `PngExif.FindPngExifChunk` | src/core/orientation.rs:230-250 | the search loop computes the data of the first `eXIf` chunk |
| `PngExif.WritePngExifChunk` | src/core/orientation.rs:252-284 | the writer computes the rewritten file and fails exactly on a non-PNG, a cut chunk or a missing header |
| `PngExif.CopyChunks` | src/core/orientation.rs:259-283 | the copying loop drops `eXIf` chunks and inserts the new one once |
| `PngExif.ChunksOfPrinted` | src/core/orientation.rs:259-283 | reading printed chunks gives exactly those chunks |
| `PngExif.ChunksAreWellFormed` | src/core/orientation.rs:259-283 | the chunks read tile the stream except for fewer than twelve bytes |
| `PngExif.PrintedChunkIsWellFormed` | src/core/orientation.rs:286-292 | a printed chunk holds its type, data and checksum, and its length field is right exactly if the data fits 32 bits |
| `PngExif.RewriteReplacesExactlyTheExif` | src/core/orientation.rs:252-284 | the output is the input's chunks without `eXIf` in order, with the new chunk right after the first header, and is read back as such exactly if the block's length fits 32 bits |
| `PngExif.WrittenBlockIsFoundIffItFits` | src/core/orientation.rs:230-292 | for every accepted file the written block is found again exactly if its length fits 32 bits |
| `PngExif.RewriteOfFile` | src/core/orientation.rs:252-292 | on a grammar of typed chunks: a file is accepted if and only if it has an `IHDR` chunk; then a chunk `eXIf` with block and checksum stands behind the first one, other such chunks disappear, and everything else stays in order |
| `PngExif.FoundOfFile` | src/core/orientation.rs:230-250 | the block found in a file is the data of its first `eXIf` chunk |
| `PngExif.LastRewriteWins` | src/core/orientation.rs:252-284 | writing twice is writing the last |
| `Isobmff.BoxOfPrinted` | src/core/metadata.rs:957-976 | a printed box is read back whole, in each of the three size forms |
| `Isobmff.BoxesOfPrinted` | src/core/metadata.rs:957-976 | reading a printed box sequence gives exactly its boxes |
| `Isobmff.BoxesTileThePrefix` | src/core/metadata.rs:957-976 | the boxes read from any input tile it up to fewer than eight bytes, each at least eight bytes long |
| `HeicItems.IlocOfPrinted` | src/core/metadata.rs:844-889 | for every version and field sizes 0, 4 and 8 the wanted item's location is found behind any earlier items, reserved bits ignored |
| `HeicProperties.LongBoxIsMisread` | src/core/metadata.rs:650-725 | behind eight header bytes a box with a 64-bit size looks like a box that runs to the end with the low half of the size for its type |
| `HeicProperties.PitmOfPrinted` | src/core/metadata.rs:699-707 | the primary item id read, for every version and size form: the id, or 0 behind a 64-bit size |
| `HeicProperties.PitmIsReadIff` | src/core/metadata.rs:699-707 | it is read correctly if and only if the size has not 64 bits or the id is 0 |
| `HeicProperties.IpmaOfPrinted` | src/core/metadata.rs:721-751 | the wanted item's property indices are read back, essential bits dropped, narrow and wide |
| `HeicProperties.IpmaBoxOfPrinted` | src/core/metadata.rs:721-751 | the same for the whole box, and what is read behind a 64-bit size |
| `HeicProperties.LongIpmaIsMisread` | src/core/metadata.rs:721-751 | a family of tables with a 64-bit size in which an item loses all its properties |
| `HeicDims.MetaOfPrinted` | src/core/metadata.rs:623-635 | the first `meta` box is found behind any other boxes, in every size form |
| `HeicDims.RecordsTheLast` | src/core/metadata.rs:656-676 | the scan of `meta` ends with the last `pitm`, `ipco` and `ipma` |
| `HeicDims.ContainerOfPrinted` | src/core/metadata.rs:711-718 | the boxes found in a printed container box, in every size form |
| `HeicDims.SizeOfPrinted` | src/core/metadata.rs:678-696 | the size read from printed properties: the first listed image size property decides, in every size form |
| `HeicDims.LongSizeIsReadIff` | src/core/metadata.rs:686-692 | behind a 64-bit size the width read is that size and the height version and flags; right only by accident |
| `HeicDims.DimsOfPrinted` | src/core/metadata.rs:650-696 | exactly what is read of a printed file, in every combination of size forms |
| `HeicDims.DimsAreRight` | src/core/metadata.rs:645-696 | with 32-bit or to-end sizes in the boxes that decide, the dimensions are those of the first image size property of the primary item |
| `HeicDims.LongIpcoHasNoSize` | src/core/metadata.rs:680-695 | with a 64-bit `ipco` no size is found, unless its size spells `ispe` |
| `HeicDims.LongIprpIsSkipped` | src/core/metadata.rs:661-673 | a 64-bit `iprp` is passed over, unless its size spells `ipco` or `ipma` |
| `HeicReader.ReadExtents` | src/core/metadata.rs:868-879 | reads or skips the extents of one item, staying aligned |
| `HeicReader.ReadItems` | src/core/metadata.rs:857-888 | the item loop finds the wanted item |
| `HeicReader.ParseIloc` | src/core/metadata.rs:844-889 | the parser computes the location the grammar gives |
| `HeicReader.ReadEntries` | src/core/metadata.rs:725-751 | the entry loop finds the wanted item's associations |
| `HeicReader.ParseIpmaForItem` | src/core/metadata.rs:721-751 | the parser computes the indices the grammar gives |
| `HeicReader.ParseIpcoProperties` | src/core/metadata.rs:711-718 | the property loop lists the boxes of the container |
| `HeicReader.FindMeta` | src/core/metadata.rs:623-635 | the top-level loop finds the first `meta` body |
| `HeicReader.ExtractHeicDims` | src/core/metadata.rs:650-696 | the whole reader computes the dimensions the grammar gives |
| `HeicExif.IlocBoxOfPrinted` | src/core/metadata.rs:844-889 | the location read of a whole `iloc` box in every size form: behind a 64-bit size its halves are field sizes and item count |
| `HeicExif.ReadInfes` | src/core/metadata.rs:816-830 | the loop over the item information boxes finds the last EXIF item |
| `HeicExif.ReadItem` | src/core/metadata.rs:790-799 | the loop over the extents gathers their bytes |
| `HeicExif.ExtractHeicExifTiff` | src/core/metadata.rs:640-643 | the whole extraction computes the block the grammar gives, and panics exactly on a `meta` body of less than four bytes |
| `HeicExif.PanicsIff` | src/core/metadata.rs:769-770 | a file makes the extraction panic if and only if its `meta` box is too short for version and flags |
| `HeicExif.GatheredIff` | src/core/metadata.rs:790-792 | the bytes of an item are gathered if and only if no extent starts beyond 64 bits |
| `HeicExif.IinfOfPrinted` | src/core/metadata.rs:811-832 | the id of the last EXIF item is found among any other items, versions and size forms; behind a 64-bit size of the table itself, what is found instead, and nothing below 64 KiB |
| `HeicExif.ExifOfPrinted` | src/core/metadata.rs:769-808 | extraction from a printed file reads exactly the bytes its tables give to its EXIF item, in every combination of size forms; a cut item data box stops it |
| `HeicExif.TiffIsRecovered` | src/core/metadata.rs:637-643 | end to end: if the item's extents name an offset, that many bytes and a TIFF block, exactly that block is extracted, wherever in the file or the item data its parts lie, open-ended extents included |
| `HeicExif.ItemDataOfPrinted` | src/core/metadata.rs:778-778 | what is read of an item data box: all but its first four bytes, or half of a 64-bit size and then everything |
| `MediaOrder.SortedIsUnique` | src/ui/apply_to_media_list.rs:181-185 | a sorted list is determined by its elements |
| `MediaOrder.TopIsUnique` | src/ui/apply_to_media_list.rs:158-167 | there is one list of the first `cap` rows of a set |
| `MediaOrder.InsertIsSorted` | src/ui/apply_to_media_list.rs:193-203 | inserting at the found position keeps the list sorted |
| `MediaList.List.RemoveUrisBatch` | src/ui/apply_to_media_list.rs:68-114 | removal by coalesced ranges, spliced in reverse, is the order-preserving filter |
| `MediaList.HitPositions` | src/ui/apply_to_media_list.rs:72-81 | the positions collected are exactly the hits, in order |
| `MediaList.Coalesce` | src/ui/apply_to_media_list.rs:89-101 | the ranges are disjoint, ascending and cover exactly the hits |
| `MediaList.List.SpliceRanges` | src/ui/apply_to_media_list.rs:103-105 | splicing such ranges from the last to the first removes exactly the hits |
| `MediaList.List.SortedInsertPosition` | src/ui/apply_to_media_list.rs:193-203 | the loop finds the insertion point |
| `MediaList.TopInsert` | src/ui/apply_to_media_list.rs:235-246 | inserting under the cap keeps the list the first `cap` rows of the larger set |
| `MediaList.PlacedBatch` | src/ui/apply_to_media_list.rs:231-246 | a batch of new items without repetitions yields the first `cap` of the sorted union |
| `MediaList.PlacedIsDistinctIffBatchIs` | src/ui/apply_to_media_list.rs:224-246 | a batch of new items leaves the list distinct exactly if the batch is, when it fits; otherwise the list is the cut of one with room |
| `MediaList.PlacedIsCut` | src/ui/apply_to_media_list.rs:235-246 | evicting after every insertion is inserting with room and cutting once |
| `MediaList.List.ApplyAbsentItemInsertions` | src/ui/apply_to_media_list.rs:211-257 | applies exactly when no item is present; the resulting list for every list and batch, and that it is the first `cap` of the sorted union when both are distinct |
| `MediaList.List.UpsertOne` | src/ui/apply_to_media_list.rs:280-311 | one item is replaced or inserted as specified on every list, and by sorted insertion on a sorted one |
| `MediaList.UpsertedIsTargeted` | src/ui/apply_to_media_list.rs:296-302 | on a sorted list within the cap, keeping the old position is sorted insertion |
| `MediaList.List.ApplyTargetedUpserts` | src/ui/apply_to_media_list.rs:265-324 | the resulting list for every list and batch; from a well-kept list it stays sorted, distinct, within the cap and part of the override-union, and is its first `cap` rows for single items and fitting batches |
| `MediaList.PreservedPosition` | src/ui/apply_to_media_list.rs:296-302 | with equal sort keys the old position is the sorted position |
| `MediaList.TargetedIsMergeIffOneMatch` | src/ui/apply_to_media_list.rs:280-311 | for one item the targeted path yields the first `cap` of the sorted override-union exactly if at most one list element matches it |
| `MediaList.TargetedAllKeepsWell` | src/ui/apply_to_media_list.rs:280-311 | for every batch, fitting or not, the result is sorted, distinct, within the cap and part of the override-union |
| `MediaList.TargetedBatch` | src/ui/apply_to_media_list.rs:274-311 | the same as a law of the batch, in whatever order it comes |
| `MediaList.OverflowingBatchDiffers` | src/ui/apply_to_media_list.rs:303-311 | a family of overflowing two-item batches on which it is not |
| `MediaList.List.MergeAll` | src/ui/apply_to_media_list.rs:142-171 | for every list and batch the full merge yields the first `cap` of the union by uri, the order among equal sort keys open; of the override-union if list and batch are distinct and uris decide |
| `MediaList.WeakTopIsTop` | src/ui/apply_to_media_list.rs:159-167 | with sort keys that differ this is one list |
| `MediaList.RenameIsShownTwice` | src/ui/apply_to_media_list.rs:144-156 | a renamed file with unchanged id and time is in the full merge twice |
| `MediaList.ByUriHoldsTheLast` | src/ui/apply_to_media_list.rs:144-156 | the map holds exactly the last item of each uri |
| `MediaList.FullMergeIsUnionIffUrisDecide` | src/ui/apply_to_media_list.rs:142-156 | the union by uri is the override-union exactly if every matched element shares its uri with a batch item |
| `MediaList.FullMergeIsTop` | src/ui/apply_to_media_list.rs:142-167 | under that condition the full merge is the one list of the first `cap` rows of the sorted override-union |
| `MediaList.List.ApplyUpsertedBatch` | src/ui/apply_to_media_list.rs:122-179 | for every source, list and batch: which path is taken and the resulting list; the first `cap` of the sorted override-union for batches of new items, for single and fitting ones, and in the startup scan wherever uris decide |
| `MediaQueries.SplitAt` | src/core/db.rs:1272-1321 | the rows ahead of and behind a row are the parts of the order before and after it |
| `MediaQueries.RankIsIndex` | src/core/db.rs:1151-1230 | the counted rank is the index in the order, and the position is one more, out of the total |
| `MediaQueries.SeekIsOffset` | src/core/db.rs:1272-1321 | a seek by delta returns the row delta places further, or nothing |
| `MediaQueries.SeekBackReturns` | src/core/db.rs:1272-1321 | seeking there and back returns to the start |
| `MediaQueries.SeeksAdd` | src/core/db.rs:1272-1321 | two seeks add up whenever the first one lands |
| `MediaQueries.PagesConcatenate` | src/core/db.rs:754-768 | paging with any page size shows the order itself, no row skipped or repeated |
| `MediaQueries.WalkRanks` | src/core/db.rs:1239-1269 | the early-stopping walk gives every wanted id that is present its position, saturating at the counter's range |
| `MediaQueries.RanksInOrder` | src/core/db.rs:1239-1269 | the batch rank agrees with one counting query per id |
| `StoredOrder.OrdersAgreeIff` | src/core/db.rs:1972-1991 | the order by nanoseconds and the order by whole seconds agree on a set of rows exactly if no later row of a second has the smaller id |
| `StoredOrder.GridShowsDatabaseOrderIff` | src/ui/apply_to_media_list.rs:181-185 | a grid shows its rows in database order under exactly that condition |
| `StoredOrder.QueriesWalkTheGridIff` | src/core/db.rs:754-768 | and under exactly that condition the queries walk the order of the grid |
| `StoredOrder.WholeSecondsAgree` | src/core/media.rs:212-214 | rows with whole-second times meet it |
| `StoredOrder.InvertedPair` | src/core/media.rs:212-214 | two files of one second that grid and database show in opposite orders |
| `SearchPattern.SearchLikePattern` | src/core/db.rs:420-439 | the loop computes the escaped pattern of the normalised term |
| `SearchPattern.DateSpellings` | src/core/db.rs:420-428 | a date written with date words, slashes or dashes has one pattern, which matches exactly the texts that contain it with dashes |
| `SearchPattern.MonthSpellings` | src/core/db.rs:422-428 | the same for a date without its day |
| `SearchPattern.SurroundingWhiteIsIgnored` | src/core/db.rs:423-423 | white space around a term does not change its pattern |
| `SearchPattern.TrailingDashesAreIgnoredIff` | src/core/db.rs:428-428 | dashes after a term do not change its pattern if and only if the term is white space or does not end in any |
| `SearchPattern.IsNormalIff` | src/core/db.rs:422-428 | a term is its own normal form if and only if it has no date word or slash, and no white space or dash to trim |
| `SearchPattern.NormalizedTwiceIff` | src/core/db.rs:422-428 | normalising twice is normalising once if and only if no white space inside the term comes to stand at an end |
| `SearchPattern.DayWordBaresWhite` | src/core/db.rs:425-425 | a term for which it is not |
| `SearchPattern.SamePatternIff` | src/core/db.rs:429-438 | terms have the same pattern if and only if they have the same normal form |
| `SearchPattern.LikeStartsWith` | src/core/db.rs:420-439 | an escaped term and a wildcard match exactly the texts that start with the term |
| `SearchPattern.CompiledMeansContains` | src/core/db.rs:420-439 | the compiled pattern matches a text exactly when the normalised term occurs in it, for all terms with `%`, `_` or backslash |
| `Sections.KeyNamesItsPeriod` | src/core/section_model.rs:160-181 | two items share a key if and only if their dates agree in the year, in year and month, or in year, month and day, by mode; and the key holds exactly those parts |
| `Sections.SectionsArePeriods` | src/core/section_model.rs:30-79 | each section holds, in list order, all items of one period, named by its key; no period has two sections, no item is left out, and sections come in the order of their first items |
| `Sections.CountsFromDateGroups` | src/core/section_model.rs:86-112 | the fold over day counts computes the folded counts, wrapping at 32 bits |
| `Sections.FoldIsCountsOfListIff` | src/core/section_model.rs:86-112 | in every mode the folded counts are the number of items of each section of the list modulo 32 bits, and so right exactly if no section has more than a `u32` holds; the count at an item's key is that of the items of its period |
| `Sections.CountsSumToLength` | src/core/section_model.rs:86-112 | the counts add up to the length of the list |
| `Sections.SectionForGlobalOffset` | src/core/section_model.rs:137-158 | scans the sections newest first; answers a section exactly when there is one |
| `Sections.OffsetLandsInItsSection` | src/core/section_model.rs:129-158 | in a newest-first list the section of an offset names the date of the item there; past the end and at the largest offset it is the oldest; saturation never matters otherwise |
| `Sections.GroupItems` | src/core/section_model.rs:30-79 | the loop computes these sections, which are the periods of the list |
| `Sections.SectionsAreTheListIffClustered` | src/core/section_model.rs:30-79 | laid out one after the other the sections are the list exactly if equal keys stand together |
| `Sections.NewestFirstIsClustered` | src/core/section_model.rs:30-79 | so a newest-first list is shown in its own order in every mode |
| `Sections.SortedIsNewestFirst` | src/ui/apply_to_media_list.rs:181-185 | the list of the user interface is newest first, items of one instant by falling id |
| `Sections.KeysDescend` | src/core/section_model.rs:160-201 | in a newest-first list section keys never get newer |
| `DbActor.RunDbActor` | src/core/db_actor.rs:435-479 | for every sequence of turns: every command runs exactly once, also after the channel closes; the turn after which each runs is the first that leaves something to do; and none runs while a more urgent one, or an earlier one as urgent, has come out of the channel and waits |
| `DbActor.NextTurnIsLeast` | src/core/db_actor.rs:438-456 | the turns between two commands are exactly those that leave nothing to do |
| `DbActor.ExecutionIsUnique` | src/core/db_actor.rs:435-479 | what the channel delivers in which turn determines the whole log |
| `DbActor.Actor.Push` | src/core/db_actor.rs:439-455 | receiving a command keeps the schedule and numbers it by arrival |
| `DbActor.Actor.ExecuteNext` | src/core/db_actor.rs:456-478 | executes the most urgent waiting command, records how many had arrived, and keeps the schedule |
| `DbActor.EqualPriorityIsFifo` | src/core/db_actor.rs:237-257 | in every schedule equally urgent commands run in arrival order |
| `DbActor.UrgentRunsFirst` | src/core/db_actor.rs:237-257 | a command that runs before a more urgent one does so because the other came out of the channel in a later turn |
| `AlbumRefresh.RunKeepsInv` | src/core/refresh.rs:91-173 | in every run: at most one refresh and one timer, never running and cooling at once, a rerun pending only then |
| `AlbumRefresh.EveryMarkIsRefreshed` | src/core/refresh.rs:91-173 | in every run every mark, from outside or by the callback of a refresh, is followed by the start of a refresh after at most two more completions or timers, whatever marks come in between; until then a rerun stays due |
| `AlbumRefresh.StartsIff` | src/core/refresh.rs:91-173 | a refresh starts exactly by a mark while neither running nor cooling, or when the timer ends a cooldown |
| `AlbumRefresh.EveryStartIsAJob` | src/core/refresh.rs:122-161 | the refreshes started in a run are those completed and the one still running |
| `AlbumRefresh.EnabledIff` | src/core/refresh.rs:122-173 | marks are always possible, completions exactly while running, timers exactly while cooling |
| `AlbumRefresh.QuietRunIsShort` | src/core/refresh.rs:149-173 | without new marks the machine is idle after at most three steps, with no rerun due |
| `AlbumRefresh.Coordinator.MarkAlbumsDirtyAsync` | src/core/refresh.rs:91-120 | one Mark step; a refresh starts exactly when neither running nor cooling |
| `AlbumRefresh.Coordinator.RefreshDone` | src/core/refresh.rs:138-161 | one Complete step; a timer is armed exactly when a rerun is pending |
| `AlbumRefresh.Coordinator.CooldownOver` | src/core/refresh.rs:165-173 | one Timer step; a refresh runs afterwards |
| `DirectoryCovers.TopmostDirectories` | src/core/notify_watcher.rs:446-457 | keeps, each once and in order, exactly the directories with no other given directory above them |
| `DirectoryCovers.MediaRootsFromParts` | src/config.rs:70-94 | keeps, each once, exactly the outermost of the absolute paths that no excluded path is at or above |
| `DirectoryCovers.CleanAbsolutePaths` | src/config.rs:96-107 | keeps exactly the absolute paths, each once |
| `DirectoryCovers.CoverIffPartition` | src/core/notify_watcher.rs:444-457 | a list is such a cover if and only if every given path lies under exactly one of its members |

## Left out

- The user interface, icons, translations, logging, preferences, runtime sizing and start-up wiring.
- Real file system, trash, SQLite and media probe calls, and the decoding, encoding and CRC arithmetic of image data.
- Cloud synchronisation and publication; a row kept for its cloud copy is one value of a row in `MarkBeforeMove`.
- `clear_mem_cache` and shutdown of the thumbnail loader, poisoned locks, and which key a cache evicts: a cached key may vanish at any time.
- Background pulls of more than one item; the loader only ever asks for one.
- Wrap-around of the 64-bit thumbnail sequence number.
- Panics of builds with overflow checks: sums wrap as in a release build.
- Paths that are not valid UTF-8: paths are byte strings or component sequences.
- Time zones: one monotone calendar serves both database and list.
- Section labels, and the branch of `group_items` for keys without any date, which `make_key` never produces.
- Which SQL filter selects the rows: queries and sections are about the rows one filter selects.
- The priority of each database command, telemetry of the actor and the content of replies; a priority is a number.
- Moving trash entries between backends, resolving which trash root belongs to a mount, and several roots at once.
- The watcher's grouping of event bursts before it deletes rows.
- The synchronous refresh fallback without an actor or a callback.
- PngExif.LastRewriteWins: asks that the first block fits 32 bits; otherwise the first result is not a readable file.
- MediaList.TargetedBatch: one direction only for batches of several items; batches that overflow the cap evict in an order of their own, for which `TargetedAllKeepsWell` and `OverflowingBatchDiffers` say what holds.
- HeicDims.DimsOfPrinted: 64-bit sizes of 2^32 and more in `iprp`, `ipco` and `ipma` are not covered.
- HeicExif.ExifOfPrinted: 64-bit sizes of 2^32 and more in `iinf`, `iloc` and `idat` are not covered.
