# Verification of the CERN Open Data portal's stateful core

This Dafny project models the parts of the portal in which state is spread over several tables, queues and
caches, and proves what keeps them consistent. `dafny verify dfyconfig.toml` checks it.

Each module that models code which updates state contains two things: functions on plain values that say what an
operation does, branch for branch, and a class whose methods perform the operation on fields, loop for loop, and
are proved to compute exactly those functions. Invariants and results over whole runs are lemmas about the functions.
Methods that only branch and call others (such as `ChargeRequest`, `MoveRecord`, `CheckSubmitted`, `ChangeStatus`,
`Acquire`, `MarkFailed`) are proved in the same way and have no row below; those with loops have one each.

**Cold storage** (`ColdTypes`, `Locations`, `ColdModel`, `Catalog`, `Manager`, `Service`). The tag table records for
each file version a cold URL and whether the hot copy was removed. Each record carries a cached copy of those tags,
with counters per file index and an availability. Decisions are taken on the cached tags; effects land on the tag
table and reach the cache through an in-memory queue. `ColdInvariant` states what ties tags, cache, transfers and
requests together, `ColdPreservation` proves that every operation keeps it, and `ColdRuns` draws the conclusions over
every run of user requests, archive requests, scheduler passes, operator moves, hot-copy removals and transfer polls.
None of this assumes anything of the table of locations or of the answers of the storage and the transfer system.
`ColdStorage` adds what ties the tags to the copies on storage, and `ColdLoss` the exact condition on the table of
locations under which no run loses a copy. `ColdExact` says exactly what a poll and a removal change, `ColdMove` what an
archive or stage operation does, and `ColdAvailability` what is shown for a record afterwards; `ColdRequest` follows a
user's request from asking to completion. `ColdBudget` covers thresholds, accounting and the files a request selects,
`ColdVisits` the latter over a whole pass; `ColdDrain` the exact number of passes until all stage requests are started;
`ColdConcurrent` says what remains of this when any number of workers interleave between their smallest actions and
decide on, and commit, stale copies.

**Releases** (`ReleaseModel`, `ReleaseRegistry`, `ReleaseContents`, `ReleaseApi`, `ReleaseRuns`, `ReleaseStatus`,
`ReleaseRace`, `ReleaseOwnership`). Requests check and lock a release, commit, and do the rest later; staging and
publication are queued jobs. All of these, the unguarded edits, lost jobs and failures interleave freely. The results
are the order of every release history, what each step makes of a release and when one can be staged, when the order
of histories survives a lock on a status that was read earlier, and the ownership of the persistent identifiers that
staging registers and rollback removes.

**Validations and their fixes.** `LinkPattern` and `DocLinks`: links between documents, where the rewritten text must
scan to the same links. `Recid` and `RecidValidation`: record identifiers assigned from a counter above three maxima.
`Doi`: repair of DOIs. `Json` and `ExpectedFields`: fields with expected values along dotted paths; `Cms2016`: the
relations derived from titles. `RecidReport`, `DoiReport` and `ExpectedReport` say, entry by entry and in terms of the
texts alone, what is reported and what the fix writes.

**Storage dump** (`EosDump`). Two search indexes are reconciled with a dump in batches; the batches refine the
algorithm that takes one entry at a time.

`Options`, `Text`, `Decimal`, `Sequences` and `Arithmetic` hold what the models share.

## Assumptions

- Cold storage: file ids belong to one object version of one record, and the keys of the file indices of a record are
  distinct. What is said of the copies on storage (`ColdStorage`, `ColdLoss`) assumes besides that no copy is verified
  or reported as done that is not there; the condition on the table of locations is not assumed but exact
  (`ColdLoss.NoDataLossExactly`; `Locations.ArchiveThenStageReturns`, `Locations.RepeatedHotPathExactly` and
  `Locations.PrefixFreeRoundTrip` say when a table leads back). In `ColdConcurrent`, that removed files have a cold
  tag assumes nothing; that the copies are kept assumes that an archive copy is registered only when it is there,
  under the translated URL of its file, and its conditions (all hot copies there at first, no two files sharing a hot
  URL that can be archived, no such hot URL being a cold URL) are exact
  (`ColdConcurrent.NoDataLossConcurrentlyExactly`). `ColdDrain` assumes that the removed files that submitted stage
  requests select have a destination, that the storage accepts every submission, and that each pass's transfers are
  done before the next pass.
- Releases: a job is one step; guard and lock of a request are one step, except in `ReleaseRace`. For the ownership of
  identifiers, edits come in draft or ready, and a staged release is rolled back only if the rollback is abandoned or
  its content can be undone (`ReleaseRegistry.RollbackUndoesStaging` says exactly which contents can).
- Recids: the experiment's name contains no dash (the portal's experiments are a fixed list without one).
- DOIs: minting avoids the registry (it retries until it does) and the suffixes used so far; the configured prefix
  contains no slash.
- Dump: search results are complete, bulk writes succeed, and a document is identified by the path of its file.

## Where the code and its intent differ

- An archive request looks only at the files of the indices; a record with only direct files completes at once
  (`ColdRuns.ArchiveCompletionIgnoresDirectFiles`).
- The table of locations admits shared and nested cold paths, and cold URLs that are hot URLs of other files; a staged
  file can then end without its hot copy, and an archived one without its cold copy. `ColdLoss.NoDataLossExactly` says
  exactly on which tables and layouts this can happen, `ColdLoss.NestedTableStrands` shows a run.
- Staging registers a record under its `id` field when there is one, rollback and publication look it up under its
  `recid` (`ReleaseRegistry.RollbackCanTakeOthers`); an empty slug is registered but not removed.
- The counter for new recids ignores the recids of the release itself (`Recid.FixCanDuplicate`,
  `Recid.CounterRepeatsExactly`).
- Minting puts the whole DOI in upper case. With lower-case letters in the configured prefix, a release in which a DOI
  is minted does not validate in production, and elsewhere does not if a minted suffix is registered under the prefix
  (`Doi.FixMakesValidExactly`, `Doi.FixMakesValidInProduction`, `Doi.LowerCasePrefixFails`).
- The lock compares with the status that was read before, so two requests can both start staging
  (`ReleaseRace.TwoRequestsStage`), which ends with a release that is ready although all its identifiers are
  registered (`ReleaseRace.TwoRequestsLeave`); `ReleaseRace.LockExactly` and `ReleaseRace.LockOwnsExactly` say when a
  lock is harmless.
- The getters of the 2016 CMS validation take the validator, the release and the record, but are called with the
  release and the record only, so a computed field raises (`ExpectedFields.ComputedFieldRaises`); `Cms2016` models the
  getter of the relations as it reads when it is called on the validator.
- The dump job reports the number of processed entries without the last, incomplete batch
  (`EosDump.DumpTask.ProcessDump`).

## Model

| member | source | states |
|---|---|---|
| Locations.BestMatch | cernopendata/cold_storage/storage.py:54-59 | the location found is in the table, its source path starts the URL, and no other location that does so is longer; none is found exactly when none starts the URL |
| Locations.ArchiveThenStageReturns | cernopendata/cold_storage/storage.py:45-73 | URL round trip, exactly: if the matched hot path does not occur again, archiving exchanges it for the cold one; and if no other location takes the match on the way back, staging returns the hot URL if and only if the two paths are equal or the cold path does not occur again (an empty cold path: nothing follows the hot one) |
| Locations.RepeatedHotPathExactly | cernopendata/cold_storage/storage.py:45-73 | the round trip also where the hot path occurs again (nonempty paths): if no other location takes the match on the way back, staging returns the hot URL if and only if, in the archived URL, no cold path begins at a character that was kept |
| Locations.PrefixFreeRoundTrip | cernopendata/cold_storage/storage.py:45-73 | on a table in which no cold path starts another one or is used twice, that condition on the URL alone decides whether staging returns |
| Locations.OtherLocationStrands | cernopendata/cold_storage/storage.py:45-73 | another location that takes the match on the way back never leads back to the hot URL, if its own cold path does not occur again |
| Locations.OtherLocationCanReturn | cernopendata/cold_storage/storage.py:45-73 | a concrete table and URL where another location with a repeated cold path does lead back |
| Locations.RoundTripCanFail | cernopendata/cold_storage/storage.py:70-72 | a cold path repeated in the URL, and nested cold paths, each break the round trip, on concrete tables |
| Locations.RepeatedHotPathReturns | cernopendata/cold_storage/storage.py:70-72 | a hot path repeated in the URL does not by itself break it: such a URL comes back |
| Catalog.BuildIndex | cernopendata/api.py:161-185 | the counters, sizes and cached files of an index are the recomputation from its bucket and the tag table |
| Catalog.BuildIndices | cernopendata/api.py:84-92 | the cached indices of a record are rebuilt one by one from their buckets |
| Catalog.CheckAvailability | cernopendata/cold_storage/api.py:265-308 | the availability of a record follows from the counters of its indices and direct files, and is requested while a stage request is submitted or a stage transfer unfinished |
| Catalog.CatalogApi.ReindexEntries | cernopendata/cold_storage/catalog.py:120-143 | drains the queue from the front, rebuilding each record from the tag table as it then is |
| Manager.ColdManager.MoveRecordFile | cernopendata/cold_storage/manager.py:55-103 | the decision ladder for one file, with the tag table, queue and transfers it leaves |
| Manager.ColdManager.MoveSelected | cernopendata/cold_storage/manager.py:113-134 | the loop over the selected files stops at the first visit that uses up a nonzero budget |
| Manager.ColdManager.ClearHot | cernopendata/cold_storage/manager.py:179-209 | removes and marks the files that are in both places, giving up at the first mark that is refused |
| Service.RequestService.SubmitAll | cernopendata/cold_storage/service.py:129-158 | the loop over the submitted requests ends when the budget is spent |
| Service.RequestService.CheckRunningFor | cernopendata/cold_storage/service.py:165-202 | one action of check_running over the requests that were started when it began |
| Service.TransferService.ProcessTransfers | cernopendata/cold_storage/service.py:47-85 | all ongoing transfers in query order, then one reindexing |
| ColdRequest.AskStageExact | cernopendata/modules/records/utils.py:51-68 | with a valid address the requests are the old ones and one more, submitted, for that record and file with zero counters; the record shows as requested and no other record changes; with an invalid one nothing changes |
| ColdRequest.AskedIsStaged | cernopendata/cold_storage/service.py:102-200 | from asking to having: after a user's request, at least K / T + 1 passes whose transfers are done in between (T the threshold, K the distinct files to stage), and one check_running, that request is completed and no file it asked for is marked removed; assumed as for the drain bound |
| ColdInvariant.AgreesFrame | cernopendata/cold_storage/catalog.py:120-143 | a record agrees with the tag table as long as the tags of its own files are untouched |
| ColdInvariant.DetailsTally | cernopendata/cold_storage/api.py:267-281 | the availability details are the numbers of files with that availability in the tag table |
| ColdInvariant.DetailsMention | cernopendata/cold_storage/api.py:267-281 | an availability is mentioned in the details exactly if some file has it |
| ColdAvailability.IndexIsCounted | cernopendata/api.py:161-185 | what an up-to-date record keeps of an index: its key, the number and total size of its files, how many are removed and how many are not, and each file with its tags |
| ColdAvailability.RefreshWrites | cernopendata/cold_storage/catalog.py:120-143 | what a refresh writes, whatever the cache held: the direct files unless there are none, and the indices, as they are in the tag table; no other record changes |
| ColdAvailability.SavedIsShown | cernopendata/cold_storage/catalog.py:159-162 | after its availability is saved, an up-to-date record shows requested exactly while a stage request for it is submitted or a stage transfer of it unfinished; otherwise on demand exactly if it has files and all are marked removed, partial exactly if one is and one is not, online exactly if none is |
| ColdAvailability.QueueIsShown | cernopendata/cold_storage/catalog.py:120-143 | draining the queue makes every record in it show its availability in that sense, whatever its cache held, and leaves the others as they were |
| ColdAvailability.PolledIsShown | cernopendata/cold_storage/service.py:47-85 | after a poll the record of every transfer that is done shows its availability in that sense; any other record does too or is as it was |
| ColdAvailability.ClearedIsShown | cernopendata/cold_storage/manager.py:179-209 | the same after a removal that cleared something |
| ColdAvailability.MovedIsShown | cernopendata/cold_storage/manager.py:105-143 | the same after an archive or stage operation, for every record of which a file changed its tags |
| ColdAvailability.CompletedIsShown | cernopendata/cold_storage/service.py:178-184 | the same after check_running, for the record of every stage request that was started |
| ColdAvailability.ShownIsTrue | cernopendata/cold_storage/api.py:265-308 | over every run from imported records shown as online or requested, a record that is shown as online, partial or on demand really is (it may be shown as requested for longer than staging is awaited) |
| ColdPreservation.MoveFileKeeps | cernopendata/cold_storage/manager.py:55-103 | a decision on a file whose cached tags are current keeps the invariant, whatever the storage answers: no file gets a second unfinished transfer, and every transfer fits the tags of its file |
| ColdPreservation.TagsForbidTransfers | cernopendata/cold_storage/manager.py:59-64 | a file that is in both places, or for which the transfer its tags allow is not scheduled, has no unfinished transfer at all |
| ColdPreservation.SourceKnown | cernopendata/cold_storage/storage.py:94-97 | the copy of a file that is to be staged or archived always has a source: the cold URL that staging looks up is there |
| ColdPreservation.RecordMovedKeeps | cernopendata/cold_storage/manager.py:105-143 | a whole move keeps the cache in agreement and the queue empty |
| ColdPreservation.RecordClearedKeeps | cernopendata/cold_storage/manager.py:179-209 | clear_hot keeps the invariant, and the branch for a tag that already exists is never taken |
| ColdPreservation.SubmittedCheckedKeeps | cernopendata/cold_storage/service.py:102-162 | check_submitted keeps the invariant |
| ColdPreservation.RunningCheckedKeeps | cernopendata/cold_storage/service.py:165-202 | check_running keeps the invariant |
| ColdPreservation.TransfersProcessedKeeps | cernopendata/cold_storage/service.py:47-85 | process_transfers keeps the invariant, in any order of the transfers and for any reported statuses |
| ColdPreservation.UserStageKeeps | cernopendata/modules/records/utils.py:51-68 | a user's request keeps the invariant |
| ColdRuns.NextKeeps | cernopendata/cold_storage/manager.py:145-177 | every step of the system keeps the invariant, for any table of locations and any answers of the storage and the transfer system |
| ColdRuns.RemovedFilesAreArchived | cernopendata/cold_storage/manager.py:186-209 | over every run, for any table of locations and any answers, a file marked removed is tagged with a cold copy |
| ColdRuns.CacheAgrees | cernopendata/cold_storage/catalog.py:105-143 | cache agreement at every step boundary of every run, for any locations and answers: cached tags, availabilities, index counters and details equal a recomputation, and the details count the files |
| ColdRuns.TransfersExclusive | cernopendata/cold_storage/api.py:137-148 | over every run no file has two unfinished transfers, of the same or of opposite actions |
| ColdRuns.CompletionExact | cernopendata/cold_storage/service.py:165-200 | check_running completes a started stage request exactly if its record has no unfinished stage transfer and no submitted stage request, an archive request exactly if every indexed file has a cold copy, and touches no other status |
| ColdRuns.CompletionSafety | cernopendata/cold_storage/service.py:178-184 | the same for stage requests, over every run from imported records |
| ColdRuns.RequestIdsExact | cernopendata/cold_storage/service.py:169-171 | the query returns exactly the requests with that status and action, in table order |
| ColdRuns.ArchiveCompletionIgnoresDirectFiles | cernopendata/cold_storage/service.py:185-197 | for every imported record with only direct files: an archive request, one check_submitted with a storage that refuses everything, and one check_running complete the request although no file has a cold copy |
| ColdExact.PollExact | cernopendata/cold_storage/service.py:53-84 | a poll, exactly: each ongoing transfer takes the reported status and finishes on DONE, FAILED or no status; a file whose transfer is done has the copy in its tags; every other file keeps its tags and no request changes |
| ColdExact.ClearExact | cernopendata/cold_storage/manager.py:179-209 | a removal, exactly: the selected files in both places become marked, their removable hot URLs go unless it is a dry run, nothing else changes, and the result says whether there was such a file |
| ColdExact.AddCopyExact | cernopendata/cold_storage/catalog.py:145-157 | a new copy on any state: archiving sets the cold URL, staging takes the mark of removal away, other tags stay and the record is queued once; an unknown file changes nothing |
| ColdExact.MarkExact | cernopendata/cold_storage/catalog.py:91-118 | marking on any state: refused for an unknown file, and for a marked one unless forced; otherwise exactly that file is marked and the record queued |
| ColdExact.RefusedMarkEnds | cernopendata/cold_storage/manager.py:196-206 | a refused mark ends the removal, after its hot copy has gone: nothing was cleared and nothing is reindexed |
| ColdMove.SelectExact | cernopendata/cold_storage/catalog.py:57-89 | the files selected: all of the record without a name, those of the indices with that key otherwise; a positive limit keeps the first ones, a negative one skips as many |
| ColdMove.MoveFileSays | cernopendata/cold_storage/manager.py:55-103 | the answer for one file, in the order of the ladder: there, scheduled, without destination or refused, found (registered, or only noticed), dry, or created |
| ColdMove.MoveIssuesExactly | cernopendata/cold_storage/manager.py:55-143 | an archive or stage operation adds exactly one row, given in full, for each visited file that lacks the copy, has no such transfer, has a destination where nothing is found (unless forced), outside of a dry run, and is accepted; all selected files are visited unless the budget is used up |
| ColdMove.MoveRegistersExactly | cernopendata/cold_storage/manager.py:55-143 | and it retags exactly the visited files whose copy is found at the destination, when registration is asked for and it is not forced |
| ColdMove.DryRunIssuesNothing | cernopendata/cold_storage/manager.py:92-94 | a dry run issues nothing and leaves the transfers alone |
| ColdMove.ServedExactly | cernopendata/cold_storage/service.py:129-155 | serving a submitted request issues a transfer for exactly the visited files that need one, are not found at their destination and are accepted; the request is charged for these rows, and started unless they use up the budget; no other request changes |
| ColdMove.ServedRegisters | cernopendata/cold_storage/service.py:129-155 | and the files of the request that are visited and found at their destination are registered there; its other files keep their tags |
| ColdMove.TransfersAreOfFiles | cernopendata/cold_storage/manager.py:86-103 | over every run each transfer in the table is an archive or a stage of a file of its record, has the size of that file and a destination |
| ColdExact.FailuresCounted | cernopendata/cold_storage/service.py:173-177 | check_running counts the failed transfers of every started request and leaves its other counters and all other requests alone |
| ColdStorage.NextStored | cernopendata/cold_storage/manager.py:145-177 | each step whose answers claim no copy that is not there keeps the tags true of the storage, on a reversible table of locations: a tagged cold copy is there under the translated URL, and unless it is marked removed the hot copy is there |
| ColdStorage.NoDataLoss | cernopendata/cold_storage/manager.py:186-209 | no data loss, for each run: a file marked removed has a cold copy that is on the storage, and every other file has its hot copy there; assumed: imported records whose hot copies are there, a reversible table, and no copy claimed (verified, or reported as done) that is not there |
| ColdLoss.NoDataLossExactly | cernopendata/cold_storage/manager.py:105-209 | no data loss, exactly: from imported records, all runs without false claims keep every file if and only if all hot copies are there at first and the table is reversible for the layout: a file that can be archived shares its hot URL with no other file, its cold URL leads back to it or nowhere, and that is the hot URL of no file that can be archived |
| ColdLoss.Strands | cernopendata/cold_storage/storage.py:45-73 | the losing run for a cold URL that leads elsewhere: archive, remove, and stage from a copy found at the other place; the file counts as present and its hot copy is missing |
| ColdLoss.Overlaps | cernopendata/cold_storage/manager.py:186-204 | the losing run for a cold URL that is the hot URL of a file that can be archived: removing that file takes the cold copy away |
| ColdLoss.Shares | cernopendata/cold_storage/manager.py:186-204 | the losing run for a shared hot URL: removing one of the files takes the hot copy of the other away |
| ColdLoss.NestedTableStrands | cernopendata/cold_storage/storage.py:45-73 | nested cold paths, concretely: a run from one imported record, with honest answers, after which the file counts as present although its hot copy is missing |
| ColdStorage.StoredIsStageable | cernopendata/cold_storage/storage.py:94-97 | where the tags are true of the storage and every cold URL leads to a nonempty URL, every removed file has a destination to be staged to |
| ColdConcurrent.AfterKeeps | cernopendata/cold_storage/manager.py:186-204 | every smallest action of any worker keeps it so that a removed file has a cold tag, however stale the worker's record is (the two tags of a file are read at different moments, records are committed with the stale files they were loaded with), whatever is registered and wherever copies are |
| ColdConcurrent.RemovedFilesAreArchivedConcurrently | cernopendata/cold_storage/manager.py:186-209 | under any interleaving of any number of workers, a file marked removed is tagged with a cold copy; nothing is assumed of URLs, of the storage, or of what is registered |
| ColdConcurrent.AfterKeepsCopies | cernopendata/cold_storage/manager.py:186-204 | every smallest action keeps the copies, where the URLs are apart and an archive copy is registered only when it is there, under the translated URL of its file |
| ColdConcurrent.NoDataLossConcurrently | cernopendata/cold_storage/manager.py:186-209 | no data loss under any interleaving of any number of workers: a tagged cold copy is on the storage, and every file without one has its hot copy there; assumed: imported files with one id each whose hot copies are all there at first, URLs that are apart (next row), and archive copies registered only when there, under the translated URL of their file |
| ColdConcurrent.NoDataLossConcurrentlyExactly | cernopendata/cold_storage/manager.py:186-209 | the same exactly, with at least one worker: all such interleavings keep every file if and only if all hot copies are there at first and no file that can be archived shares its hot URL or has the hot URL of a file that can be archived as its cold URL |
| ColdBudget.SubmitLoopActive | cernopendata/cold_storage/service.py:125-158 | mid-pass and across requests, the unfinished transfers grow by what was submitted, which never exceeds the budget |
| ColdBudget.PassWithinThreshold | cernopendata/cold_storage/service.py:105-160 | after a pass the unfinished transfers of an action are at most the larger of its threshold and what they were before |
| ColdBudget.ThresholdSafety | cernopendata/cold_storage/service.py:105-160 | in runs where only check_submitted issues transfers, from any state without transfers and requests, the unfinished transfers of an action never exceed its threshold, although a budget of zero means no limit in the manager |
| ColdBudget.AccountingConserved | cernopendata/cold_storage/service.py:140-147 | in the same runs the requests' numbers and sizes of transfers equal the number and total size of all transfer rows ever created |
| ColdBudget.NoFileLeftBehind | cernopendata/cold_storage/service.py:129-155 | when serving a request moves it to started, each file it selects is in place, covered by an unfinished transfer, or was refused by the storage |
| ColdVisits.NoFileLeftBehindInPass | cernopendata/cold_storage/service.py:102-162 | the same at the end of the whole pass, whatever the pass does before and after for other requests and the other action |
| ColdDrain.RecordDrains | cernopendata/cold_storage/manager.py:125-134 | on a willing storage a move issues transfers for the first files still waiting, exactly as many as the budget allows |
| ColdDrain.SubmitLoopDrains | cernopendata/cold_storage/service.py:129-158 | a pass takes the distinct waiting files of the submitted requests up to the budget; it starts all requests exactly if they were fewer |
| ColdDrain.RoundDrains | cernopendata/cold_storage/service.py:102-160 | if the removed files that submitted stage requests select have a destination, a pass on a willing storage, followed by the completion of every issued transfer, takes the threshold off the backlog, or finishes it |
| ColdDrain.DrainBound | cernopendata/cold_storage/service.py:102-160 | exact drain bound: with threshold T and K distinct files to stage, all requests are started after n passes exactly if n is at least K / T + 1; assumed: the removed files that submitted stage requests select have a destination, the storage accepts every submission, and each pass's transfers are done before the next one |
| LinkPattern.LinkBodyExact | cernopendata/modules/releases/validations/doc_links.py:9 | a link is recognised exactly if the text has its shape: text without ']', then a nonempty target without ')' |
| LinkPattern.StillNoLink | cernopendata/modules/releases/validations/doc_links.py:113-125 | a '[' that starts no link still starts none after what follows it was rewritten |
| LinkPattern.RescanRewritten | cernopendata/modules/releases/validations/doc_links.py:113-125 | rescanning the rewritten text finds the same links in the same places, with the rewritten targets |
| LinkPattern.RewriteRenders | cernopendata/modules/releases/validations/doc_links.py:113-125 | the substitution replaces the tokens that are links and copies everything else |
| LinkPattern.RenderScan | cernopendata/modules/releases/validations/doc_links.py:9 | the tokens of a text are the text: the scanner loses nothing |
| LinkPattern.ScanPlaces | cernopendata/modules/releases/validations/doc_links.py:9 | scanning is left to right: a link follows no '!' and is closed by its first brackets, and a '[' that starts no token follows a '!' or starts no link |
| LinkPattern.PathExact | cernopendata/modules/releases/validations/doc_links.py:90-91 | the path of a target runs from its first character that is not a space up to a '#', a '?' or the spaces at its end; the suffix is the rest before those |
| LinkPattern.AbsoluteSlugExact | cernopendata/modules/releases/validations/doc_links.py:92-94 | the slug of an absolute target is what follows /docs/ without the slashes around it |
| LinkPattern.IsSlugExact | cernopendata/modules/releases/validations/doc_links.py:10 | a slug is one or more letters, digits, underscores and dashes |
| DocLinks.RewrittenTarget | cernopendata/modules/releases/validations/doc_links.py:116-123 | a rewritten target is an absolute link to the slug it was, with its old fragment and query, and is no bare slug |
| DocLinks.FixKeepsStructure | cernopendata/modules/releases/validations/doc_links.py:52-65 | after the fix a document has the same tokens; text and link texts are unchanged, and exactly the known bare targets became /docs/ paths with their old suffix |
| DocLinks.SlugsAfterFix | cernopendata/modules/releases/validations/doc_links.py:83-110 | the unknown absolute slugs and the unknown bare slugs stay, in order; the known bare slugs are gone |
| DocLinks.FixRemovesExactlyTheFixable | cernopendata/modules/releases/validations/doc_links.py:20-65 | after the fix, validation returns its old errors minus the ones about known bare slugs, and nothing is fixable |
| DocLinks.FixIsIdempotent | cernopendata/modules/releases/validations/doc_links.py:42-65 | a second fix changes nothing, and the first changes something exactly if something was fixable |
| DocLinks.ErrorsExactly | cernopendata/modules/releases/validations/doc_links.py:20-40 | an error is reported exactly if its document has an absolute link to a slug that is neither a nonempty slug of a document of the release nor registered, or a bare link that is, or one that is not |
| DocLinks.FixableExactly | cernopendata/modules/releases/validations/doc_links.py:42-50 | fixable exactly if some bare link names a document of the release or a registered slug |
| DocLinks.FixRewritesExactly | cernopendata/modules/releases/validations/doc_links.py:52-66 | the fix rewrites the target of a link exactly under that condition, to /docs/ with its slug and suffix, and keeps every other token, the slug and the format of the document |
| DocLinks.FixSkipsOthers | cernopendata/modules/releases/validations/doc_links.py:52-66 | documents without Markdown text are left alone |
| DocLinks.ExtractAbsoluteSlugs | cernopendata/modules/releases/validations/doc_links.py:83-97 | the distinct slugs of the absolute links, in order of first occurrence |
| DocLinks.ExtractBareSlugs | cernopendata/modules/releases/validations/doc_links.py:99-110 | the distinct bare slugs, in order of first occurrence |
| DocLinks.ValidDocLinks.CheckDocument | cernopendata/modules/releases/validations/doc_links.py:24-39 | the errors of one document: unresolved absolute links, then bare links, known or not |
| DocLinks.ValidDocLinks.Validate | cernopendata/modules/releases/validations/doc_links.py:20-40 | the errors of all documents, in order |
| DocLinks.ValidDocLinks.Fixable | cernopendata/modules/releases/validations/doc_links.py:42-50 | true exactly if some document has a known bare slug |
| DocLinks.ValidDocLinks.Fix | cernopendata/modules/releases/validations/doc_links.py:52-66 | each document with known bare slugs is rewritten, the others are untouched |
| ReleaseApi.CuratedRelease.UpdateDocument | cernopendata/modules/releases/api.py:389-404 | the first document with the slug is replaced and the release validated; without one nothing changes |
| ReleaseApi.CuratedRelease.Stage | cernopendata/modules/releases/api.py:457-491 | staging registers every entry and commits, or raises with the registry as it was |
| ReleaseApi.CuratedRelease.Publish | cernopendata/modules/releases/api.py:510-550 | publication raises on a wrong status, a missing slug or an identifier that is not found, and otherwise records its errors |
| ReleaseApi.CuratedRelease.Rollback | cernopendata/modules/releases/api.py:552-569 | rollback removes every entry's identifiers and returns to ready, or has no effect |
| ReleaseRegistry.StagingExact | cernopendata/modules/releases/api.py:466-491 | staging succeeds exactly if every entry has an identifier, none clash and none is taken, and then the release owns exactly those |
| ReleaseRegistry.RemovalExact | cernopendata/modules/releases/api.py:557-565 | rollback goes through exactly if every identifier it looks up is there once, and then removes exactly those |
| ReleaseRegistry.RollbackUndoesStaging | cernopendata/modules/releases/api.py:552-569 | rollback undoes staging exactly on the contents whose recids are together the values registered and that have no empty slug |
| ReleaseRegistry.RollbackCanTakeOthers | cernopendata/modules/records/minters/recid.py:10-13 | a record registered under an id other than its recid: rollback removes another owner's identifiers and leaves the release's own |
| ReleaseContents.MintableExact | cernopendata/modules/releases/api.py:466-483 | staging goes through exactly if every record has an id or a recid and every document a slug, no two have the same, and none of these identifiers is in the registry |
| ReleaseContents.StagedKeyExact | cernopendata/modules/releases/api.py:466-483 | it registers exactly these: two identifiers for the id of each record, or its recid where it has no id, and one for each slug |
| ReleaseContents.RemovableExact | cernopendata/modules/releases/api.py:557-565 | rollback goes through exactly if every record has a recid, no two the same, no nonempty slug is repeated, and all these identifiers are in the registry |
| ReleaseContents.RemovedKeyExact | cernopendata/modules/releases/api.py:557-565 | it removes exactly these: two identifiers for each recid, and one for each nonempty slug |
| ReleaseRuns.NextKeepsHistory | cernopendata/modules/releases/views.py:374-442 | every step, whatever is queued, keeps every history in order |
| ReleaseRuns.PublishingWasStaged | cernopendata/modules/releases/api.py:506-508 | a release that was ever being published had been ready and staging before, so that a failed publication may return to staged |
| ReleaseRuns.HistoryOrder | cernopendata/modules/releases/api.py:298-323 | under any interleaving of requests (guard and lock in one step), unguarded edits, queued jobs and failures: the status is the last event, staging directly follows ready, publishing staged, published publishing, and whatever is published was ready, staging, staged and publishing before, in that order |
| ReleaseStatus.ValidationDecides | cernopendata/modules/releases/api.py:451-455 | a validation (at creation, after an edit, on enabling a check, after fixes without errors) is one event: the release has the content given, the number of errors found, and is ready if and only if there are none, and a draft otherwise; nothing else changes |
| ReleaseStatus.FailedFixIsDraft | cernopendata/modules/releases/api.py:660-681 | fixes that report errors leave a draft with the content they made and the old number of errors |
| ReleaseStatus.RequestExact | cernopendata/modules/releases/views.py:374-442 | a locking request is accepted exactly in its statuses (any for an edit, draft or ready for fixes, ready for staging, staged for publication): one event and one task are added; otherwise nothing changes |
| ReleaseStatus.StagingJobExact | cernopendata/modules/releases/api.py:457-504 | the staging job stages exactly a release in staging without errors whose content can be staged, and registers its identifiers for it; otherwise the registry stays and the release is ready with one error, after a draft event if it had errors |
| ReleaseStatus.PublicationJobExact | cernopendata/modules/releases/api.py:506-550 | the publication job publishes exactly if the release is being published and every recid and slug is found; otherwise it is staged with one error |
| ReleaseStatus.RollbackExact | cernopendata/modules/releases/api.py:552-569 | a rollback makes a staged release ready and removes its identifiers, or has no effect at all |
| ReleaseStatus.ReadyExactly | cernopendata/modules/releases/api.py:313-323 | a release becomes ready exactly by a validation without errors, a staging job that fails, or a rollback |
| ReleaseStatus.ErrorsBarStaging | cernopendata/modules/releases/views.py:374-393 | over runs: a release whose last validation found errors is refused for staging, with no change at all, until one of these makes it ready |
| ReleaseStatus.ReadiedIsStaged | cernopendata/modules/releases/views.py:374-393 | and right after one of them it is accepted |
| ReleaseRace.SplitIsWhole | cernopendata/modules/releases/views.py:396-409 | a request that is read and locked in two steps, with nothing in between, is the request in one step; if its guard does not admit it, nothing changes either way |
| ReleaseRace.LockExactly | cernopendata/modules/releases/api.py:298-311 | with the guard's read and the lock as two steps, a lock keeps every history in order exactly if it is for editing or the release still has the status that was read |
| ReleaseRace.LateHistoryOrder | cernopendata/modules/releases/views.py:396-409 | the order of histories over every run of such split requests in which the locks for staging and publication come in time |
| ReleaseRace.TwoRequestsStage | cernopendata/modules/releases/views.py:374-393 | two requests that both read ready before either locks leave a history with staging twice in a row, and two tasks |
| ReleaseRace.LockOwnsExactly | cernopendata/modules/releases/api.py:298-311 | with reading and locking apart, a lock keeps the ownership of identifiers exactly if no task waits for the release and the release is in the registry just when it is locked for publication, or is empty |
| ReleaseRace.TimelyIsUndisturbed | cernopendata/modules/releases/api.py:298-311 | a lock for staging or publication that finds the status that was read meets that condition |
| ReleaseRace.LateRegistryOwnership | cernopendata/modules/releases/views.py:396-409 | over every run of split requests whose locks meet that condition (edits only in draft or ready, and rollbacks that are abandoned or can be undone), a release owns the identifiers of all its entries exactly while staged, publishing or published |
| ReleaseRace.TwoRequestsLeave | cernopendata/modules/releases/api.py:457-508 | the two staging requests worked off: the second job sets the release back to ready with all its identifiers still registered |
| ReleaseOwnership.NextOwns | cernopendata/modules/releases/views.py:374-442 | every step keeps the ownership of identifiers; assumed: unguarded edits come in draft or ready, and a staged release is rolled back only if the rollback is abandoned or its content can be undone |
| ReleaseOwnership.RollbackOwnsExactly | cernopendata/modules/releases/api.py:552-569 | the rollback of a staged release keeps the ownership exactly if it is abandoned or its content can be undone |
| ReleaseOwnership.RegistryOwnership | cernopendata/modules/releases/api.py:457-569 | in runs with those two assumptions (contents that cannot be undone may be staged and published), a release owns the identifiers of all its entries exactly while staged, publishing or published, and none otherwise |
| ReleaseOwnership.LookupsSucceed | cernopendata/modules/releases/api.py:510-565 | in the same runs, for a content that can be undone, publication finds every identifier and rollback is not abandoned |
| Recid.StartIsAboveAll | cernopendata/modules/releases/validations/recid.py:69-108 | the counter starts one above the largest number used by a recid of the experiment, registered as a plain number or recorded by a release, and no higher |
| Recid.FreshNumber | cernopendata/modules/releases/validations/recid.py:69-108 | a recid made from a number at or above the start is unused, well formed and collides with nothing |
| Recid.AssignedNumbers | cernopendata/modules/releases/validations/recid.py:110-134 | the numbers assigned in a round are pairwise distinct, recorded as the maximum of the release, unused, and above every known number |
| Recid.TwoRoundsReachFixpoint | cernopendata/modules/releases/validations/recid.py:110-134 | with an unchanged registry, after two rounds every recid is well formed, unregistered and free of collision, and a further round changes nothing |
| Recid.OneRoundEnough | cernopendata/modules/releases/validations/recid.py:117-132 | one round is enough exactly if no unregistered plain number of the release is registered with the prefix |
| Recid.CounterRepeatsExactly | cernopendata/modules/releases/validations/recid.py:110-134 | a number from the counter repeats another recid of the release exactly if a recid that is kept, or only gets its prefix, already is one of the numbers the counter runs through |
| Recid.FixCanDuplicate | cernopendata/modules/releases/validations/recid.py:110-134 | a release in which the fix creates a duplicate that further rounds keep |
| RecidValidation.ValidationExact | cernopendata/modules/releases/validations/recid.py:30-44 | before staging, validation reports nothing but repetitions exactly if nothing is left to fix |
| RecidReport.ReportExactly | cernopendata/modules/releases/validations/recid.py:30-67 | the report, error by error: missing recids, repetitions with the first entry, recids that are not the experiment, a dash and digits, registered recids unless the release is staged, and the last entry with a number that is registered by itself |
| RecidReport.StartExactly | cernopendata/modules/releases/validations/recid.py:69-108 | the fix can run exactly if every text the database reads as a number (after the first dash of the recids of the experiment, and the recids of digits only) fits into 32 bits; the counter starts one above all of them and of the numbers recorded by releases, and no higher |
| RecidReport.FixExactly | cernopendata/modules/releases/validations/recid.py:110-134 | a round, entry by entry: a recid that is fine is kept, an unregistered plain number gets the prefix, every other entry the next number of the counter; the last number is recorded |
| RecidValidation.ValidRecid.NumericCollisions | cernopendata/modules/releases/validations/recid.py:46-67 | one collision for each registered number that is the number of a recid, with its last entry |
| RecidValidation.ValidRecid.CheckEntries | cernopendata/modules/releases/validations/pid.py:18-36 | missing recids, and repetitions with the first entry that uses the value |
| RecidValidation.ValidRecid.CheckFormat | cernopendata/modules/releases/validations/recid.py:33-39 | the recids that do not have the required format |
| RecidValidation.ValidRecid.Fix | cernopendata/modules/releases/validations/recid.py:110-134 | a round of the fix; it fails before any change if the start cannot be computed |
| Doi.MintedParts | cernopendata/modules/datacite/utils.py:62-87 | a minted DOI is the prefix in upper case, a slash and a nonempty suffix |
| Doi.FixMakesValid | cernopendata/modules/releases/validations/doi.py:53-86 | if minting avoids the registry and the suffixes used so far, and the prefix has no lower-case letter or nothing is minted, validation after the fix reports nothing |
| Doi.FixMakesValidExactly | cernopendata/modules/releases/validations/doi.py:53-86 | the exact condition under such minting: the prefix has no lower-case letter, or nothing is minted, or prefixes are not checked and no minted suffix is registered under the configured prefix |
| Doi.NoneMintedBefore | cernopendata/modules/releases/validations/doi.py:53-86 | the fix mints nothing for the first n entries exactly if each of their DOIs is well formed, not registered, and repeats no suffix of an entry before |
| Doi.FixMakesValidInProduction | cernopendata/modules/releases/validations/doi.py:53-86 | the condition in production, read off the release: the prefix has no lower-case letter, or every DOI is well formed, no suffix is repeated and none is registered |
| Doi.LowerCasePrefixFails | cernopendata/modules/datacite/utils.py:62-87 | the prefix in lower case in production: a release whose malformed DOI is minted again has a wrong prefix afterwards, and one with nothing to mint validates |
| Doi.FixKeepsValid | cernopendata/modules/releases/validations/doi.py:53-86 | a release that validates without errors is unchanged by the fix |
| Doi.NoErrorsExact | cernopendata/modules/releases/validations/doi.py:21-46 | there are no entry errors exactly if every DOI is well formed, has the prefix in production, and repeats no earlier suffix |
| DoiReport.ReportExactly | cernopendata/modules/releases/validations/doi.py:21-51 | the report, error by error: a DOI without prefix, slash and suffix; in production another prefix; a suffix used before, with the first entry that uses it; and the suffixes whose DOI under the configured prefix is registered |
| DoiReport.FixExactly | cernopendata/modules/releases/validations/doi.py:53-86 | the fix, entry by entry: without a DOI nothing changes; a malformed DOI, or one whose suffix is registered or, after the fix, used by an earlier entry, is minted again; any other keeps its suffix and takes the configured prefix in production |
| DoiReport.MintedIsFresh | cernopendata/modules/datacite/utils.py:62-87 | a minted DOI is the prefix, /OPENDATA, the experiment if there is one and the two random parts, in capitals |
| Doi.ValidDoi.Validate | cernopendata/modules/releases/validations/doi.py:21-51 | the errors of the entries in order, and the registered suffixes |
| Doi.ValidDoi.Fix | cernopendata/modules/releases/validations/doi.py:53-86 | all DOIs in order; the result is what validation says afterwards |
| Json.GetAfterSet | cernopendata/modules/releases/validations/expected_fields.py:101-106 | what is written along a path is read back |
| Json.GetAfterOtherSet | cernopendata/modules/releases/validations/expected_fields.py:35-42 | writing along one path does not change what is read along a path apart from it |
| Json.SetExact | cernopendata/modules/releases/validations/expected_fields.py:101-106 | writing goes through exactly if everything already on the way is an object |
| Json.GetExact | cernopendata/modules/releases/validations/expected_fields.py:35-42 | what is read along a path is where a walk ends that takes a missing key, and anything after null, for null; it raises exactly if there is no such walk |
| Json.KeysExact | cernopendata/modules/releases/validations/expected_fields.py:37 | the keys of a path are the one way to write it with dots between keys that have none |
| Json.FalsyExact | cernopendata/modules/releases/validations/expected_fields.py:53 | the values that count as false: null, false, zero, and whatever is empty |
| ExpectedFields.RepairIsExact | cernopendata/modules/releases/validations/expected_fields.py:67-99 | when the fix goes through, validation afterwards reports exactly the errors the fix reported, which are the fields without a determined value |
| ExpectedReport.ErrorsExactly | cernopendata/modules/releases/validations/expected_fields.py:51-82 | the errors of the validation are exactly: a field of an item whose expected value counts as false, or one that reads as something else than the expected value (fixed, or computed from the titles and recids) |
| ExpectedReport.FixExactly | cernopendata/modules/releases/validations/expected_fields.py:60-106 | after the fix every field whose expected value is known reads as that, any other field and every path apart from all fields reads as before, kinds that are not concerned are untouched, and the errors are exactly the fields whose value is not known |
| ExpectedFields.RepairGoesThrough | cernopendata/modules/releases/validations/expected_fields.py:84-99 | the fix goes through exactly if, before it, every expected value can be computed and the way to every field is free |
| ExpectedFields.ValidationGoesThrough | cernopendata/modules/releases/validations/expected_fields.py:67-82 | the validation goes through exactly if every expected value can be computed and every field that has one can be read |
| ExpectedFields.ComputedFieldRaises | cernopendata/modules/releases/validations/expected_fields.py:44-49 | a computed field that raises stops the validation and the fix of a release with one record, whatever the record |
| ExpectedFields.GetNested | cernopendata/modules/releases/validations/expected_fields.py:35-42 | the walk down a dotted path |
| ExpectedFields.ExpectedFieldsValidation.CheckAll | cernopendata/modules/releases/validations/expected_fields.py:74-81 | all fields of all items of one kind, field by field |
| ExpectedFields.ExpectedFieldsValidation.FixAcross | cernopendata/modules/releases/validations/expected_fields.py:92-98 | one field of all items |
| ExpectedFields.ExpectedFieldsValidation.FixEach | cernopendata/modules/releases/validations/expected_fields.py:91-98 | all fields of all items of one kind |
| Cms2016.FirstMatch | cernopendata/modules/releases/validations/cms_2016.py:182-189 | the first record with that dataset and tier, with no match before it, or none exactly if there is none |
| Cms2016.PartsExact | cernopendata/modules/releases/validations/cms_2016.py:154-161 | the pieces of a title are the one way to cut it at its slashes: nonempty and slash-free, each ended by a slash or the end, with nothing but slashes left out |
| Cms2016.RelationsAreMutual | cernopendata/modules/releases/validations/cms_2016.py:163-199 | in an unambiguous release one record is related as child to another exactly if that one is related to it as parent |
| Cms2016.RelationsExactly | cernopendata/modules/releases/validations/cms_2016.py:163-199 | a mini dataset is a child of the first nano dataset of the same name, a nano dataset a parent of the first mini one, and nothing else has a relation |
| EosDump.BatchRefines | cernopendata/tasks.py:84-166 | a batch with distinct paths, whose decisions are all taken at its start, has the effect of its entries one at a time |
| EosDump.DumpRefines | cernopendata/tasks.py:41-66 | for a dump without repeated paths and any batch size, the indexes end as if the entries had been reconciled one at a time |
| EosDump.DumpPlacesEveryEntry | cernopendata/tasks.py:41-166 | the indexes stay disjoint; every entry not ignored ends in exactly one of them with its access time, the mapped one exactly if it was mapped or is known to the database; nothing else changes |
| EosDump.DumpWritesFields | cernopendata/tasks.py:253-271 | field by field: a newly mapped file has the title, recid and date of the database and the access time of the dump; a newly dark one its size, checksum and both times of the dump; a document that stays where it was keeps all but the access time |
| EosDump.RerunChangesNothing | cernopendata/tasks.py:41-166 | a second run over the same dump and database changes nothing, also with another batch size |
| EosDump.KeptExact | cernopendata/tasks.py:44-48 | exactly the decoded entries outside the ignored path are processed |
| EosDump.ContainsExact | cernopendata/tasks.py:44-48 | a path is ignored exactly if the ignored part occurs somewhere in it |
| EosDump.DictOfDistinct | cernopendata/tasks.py:110-113 | the dictionary of a batch with distinct paths is the batch |
| EosDump.DictExact | cernopendata/tasks.py:110-113 | the dictionary of any batch has each path once, with the last entry of that path |
| EosDump.DumpTask.CompareWithMapped | cernopendata/tasks.py:92-103 | splits a batch into the mapped entries with another access time and the entries that are not mapped |
| EosDump.DumpTask.PlanDark | cernopendata/tasks.py:117-153 | the index actions and the access times to update for the entries that are not mapped |
| EosDump.DumpTask.ProcessDump | cernopendata/tasks.py:31-72 | the whole dump in batches; the reported number leaves out the last, incomplete batch |

## Left out

- External systems (gfal2, FTS, SQLAlchemy, OpenSearch, Celery, Flask, DataCite, Rucio): maps, sets or answers given to the steps.
- User interface, templates, serializers, facets, statistics, emails, subscriptions, the listing and paging of requests: no state that others rely on.
- Python aliasing in `get_files_from_record`, where the list of selected files extends the record's own list: files are selected on copies.
- Selection of a direct file by name, which compares a string with dictionaries and never matches: a named selection only looks at index files.
- SQL wildcards in location paths, and transfer managers per location: paths are true prefixes.
- Workers running inside one cold-storage step, for the cache, exclusivity, budget and completion results: steps are atomic there; only the results of `ColdConcurrent` need no atomicity.
- Timestamps of transfers and requests: the order in which ongoing transfers are polled is arbitrary instead.
- A stage source without a cold URL, a lookup error in the code: modelled as a file in error, and never reached.
- Deletion of records that requests still name: their foreign key forbids it.
- Round trips of URLs through a location with an empty path and a repeated one, and through another location whose cold path occurs again in the URL: only an example (`Locations.OtherLocationCanReturn`).
- Contents of validation errors of a release, its file counters and its images: only the number of errors matters for the lifecycle.
- Record and document bodies in staging and publication, and the registration of DOIs at publication: only the identifiers are modelled.
- The bulk edit and the payload normalisation of uploads: a locked or direct edit may change the contents to anything.
- Slugs with a trailing newline before a fragment, accepted by the pattern's end anchor; non-ASCII whitespace and digits; case mapping outside ASCII.
- Recid.Cast: accepts digits within 32 bits only, where the database also accepts a sign and surrounding blanks.
- In-place update of nested JSON: `ExpectedFields` replaces the item by its updated value, and an exception in the middle of a fix is not followed by the partly updated items.
- Sharing of one expected value by several records: values, so a later change of one record cannot reach another.
- Equality between numbers of different types in expected values (1, 1.0, True).
- Computed fields of the 2016 CMS validation other than the relations: fixed texts chosen by the title.
- Batches that fail, and partial failures of bulk writes, in the dump job; the timestamp of a mapped document.
- Dumps that repeat a path: the model runs them, but the refinement is for distinct paths.
