# A Dafny model of the IDE extension scanner

The scanner inspects editor extensions and serves the results. This project models the
parts of it whose correctness a reading of single functions does not settle, and proves
what they promise.

- **The scan service** (`Jobs`, `JobProtocol`, `JobEffects`, `JobSteps`, `JobRuns`,
  `JobEndings`, `JobKeys`, `JobOutbox`, `Webhooks`, `WebhookRuns`). `Jobs` is the store of
  jobs: a class whose locked methods are each specified by one atomic step. `JobProtocol`
  runs those steps in every interleaving of HTTP handlers, workers, runners that outlive
  their timeout, notifiers, the one maintenance thread with its sweep before its writes, a
  clock and crashes; each unlocked read-then-write is two steps there. `JobEffects` says
  what the groups of steps do, `JobSteps` proves the invariant for one step, `JobRuns` what
  follows for runs, `JobEndings` and `JobKeys` exactly when endings and idempotency keys are
  kept, `JobOutbox` when a job has one notifier and what that gives its webhook. `Webhooks`
  is the delivery loop and the outbox on a job's record with one notifier at a time,
  `WebhookRuns` that outbox under overlapping notifiers; in both a failure can be written
  over the record.
- **The job list** (`Base64`, `JobCursor`, `CursorTexts`, `JobListing`). Cursors as JSON
  (section 7 of RFC 8259) in the unpadded base64 of section 5 of RFC 4648: which texts are
  cursors and of what, what a page is, and what following cursors gives.
- **Import-graph flows** (`ImportGraph`, `ImportPaths`, `FlowSearch`, `JsComments`,
  `JsLexemes`). Reachability, the enumeration of simple paths with its caps, the two
  staged searches, and the lexer that masks comments.
- **Taint within a file** (`Iteration`, `ValueFlow`, `ValueLineage`, `ValueReport`,
  `ValueLimits`). The rounds of propagation as the code runs them, measured against
  lineages, an independent definition of what flows where.
- **The corpus scheduler** (`CorpusScheduler`). Weighted first-fit placement, polling and
  deadlines.
- **Stores and codecs** (`ArtifactVault`, `ReportBundle`, `BundleArchive`, `BundleExact`,
  `JsonComments`, `OsvLookup`, `OsvExact`). The content-addressed vault under concurrent calls
  and crashes, report archives and their verification, the stripper of JSON comments, and the
  batched advisory lookup against the simple one.
- **Accuracy arithmetic** (`AccuracyGate`, `PublicationExact`, `Wilson`). Counters, pigeonhole
  and rounded thresholds of the publication gate, and exactly which evidence it publishes; the
  score interval of benchmark rates.

`Options` and `Ordering` are shared by several of them. `dafny verify dfyconfig.toml` checks
the whole project.

## Conventions

An operation that loops or updates state in the original is a method here, or a class with
methods, and its contract equates it with a function; what the operation promises is proved
about that function, against a definition of its own (lineages, simple paths, lexemes and
pieces, least sets, score tests), and where that definition would be the function over again,
against the answer written out: which names an import stands for, which replies are tried
again, which text is a cursor, which verdict an archive gets. Runs are sequences of steps, and
"in every run" means for every such sequence.

SHA-256 is an injective constructor, and a request fingerprint is the request itself. Time is
a counter. The file system is maps. Regular expressions, JSON outside the cursor, signatures,
the network and child processes are parameters or free choices.

## Where the code does not do what it says

The model follows the code; these are proved of it.

- The comment on the corpus scheduler says that `jobs` stays the maximum number of child
  processes (`scripts/scan_corpus.py:530`). That fails exactly for 2 or 3 jobs and an
  artifact of weight 4: `CorpusScheduler.JobsBoundExact`, `CorpusScheduler.JobsBoundFails`,
  `CorpusScheduler.PendingScan.ScanPending`.
- The scheduler's error about a pending artifact that could not be placed
  (`scripts/scan_corpus.py:631-632`) never strikes with an artifact pending. It strikes
  exactly when nothing is running and every waiting artifact fails its manifest preflight,
  so that every result is recorded already. All but the saved checkpoints is lost then:
  `CorpusScheduler.PendingScan.PlacePass`, `CorpusScheduler.RunCorpus`.
- The maintenance pass runs on a timer while workers are live, so that it can record a
  complete job as failed; a handler's refusal can do so to a cancelled job, even to one whose
  record retention has removed. No job ever has two endings exactly if no such write falls on
  a job that has been complete or cancelled: `JobEndings.EndingsKeptExactly`,
  `JobEndings.CompleteIsLost`, `JobEndings.CancelledIsLost`, `JobEndings.CancelledIsRevived`.
- A thread that stalls between reading a record and writing it back for longer than
  retention keeps records can give two jobs one idempotency key; nothing else can:
  `JobKeys.OneJobPerKeyExactly`, `JobKeys.OnlyStallersAreHarmed`,
  `JobKeys.StalledRefusalSharesKey`.
- Nine recorded webhook attempts do not bound the POSTs, nor is a delivery final. A notifier
  can die before it records; two notifiers can overlap; and the same unlocked write of a
  failure puts back a record without its delivery, after which the maintenance pass announces
  the job again, with one notifier at a time: `WebhookRuns.AccountExactly`,
  `WebhookRuns.SettledStepExactly`, `WebhookRuns.LossOverrunsNine`,
  `WebhookRuns.OverlapUndercounts`, `WebhookRuns.OverlapUndoesDelivery`,
  `WebhookRuns.ErasureUndercounts`, `WebhookRuns.ErasureUndoesDelivery`,
  `JobOutbox.ErasedIsAnnouncedAgain`. Where no failure is written over a job that is over,
  there is one notifier at a time and what is settled stays so: `JobOutbox.OneNotifier`,
  `JobOutbox.SettledIsFinal`.
- The 32 rounds of taint propagation settle every file exactly up to 31 property writes, and
  with 32 a flow can go unreported. Even settled rounds pass over an assignment whose target
  is written into later, and a name that is assigned twice is never reported:
  `ValueLimits.CapExactly`, `ValueLimits.ReportsExactly`, `ValueLimits.OrderExactly`,
  `ValueLimits.PassedOver`, `ValueLimits.AssignedTwice`.
- The artifact store reads the clock before its transaction opens, so that two processes can
  leave an artifact first seen after it was last seen, although the clock runs on:
  `ArtifactVault.SightingsAdvanceExactly`, `ArtifactVault.DatesInOrderExactly`,
  `ArtifactVault.LateCommitDatesBack`.
- The ceiling of one fifth on reviewed safe artifacts and the bar on allowed malicious ones
  are taken on rounded rates: `AccuracyGate.ReviewCeilingRounds`,
  `AccuracyGate.AllowedByRounding`.
- A line comment in JSON leaves a newline in addition to the one that ends it:
  `JsonComments.StripByPieces`.

## Model

| member | source | states |
|---|---|---|
| `Jobs.LockedStepsDecide` | src/ide_scanner/service.py:218-325 | each locked step succeeds exactly on the statuses it may leave, ends in its own and says so in stage, error, digest and time of the record, leaving the other fields; one that fails changes nothing, and a completed job's record digests the report stored with it |
| `Jobs.StartAndCancelMoveOn` | src/ide_scanner/service.py:218-255 | claiming and cancelling touch no other job, no other job's report and nothing of a job's identity, and move its status only the way a job's life goes |
| `Jobs.EndingsMoveOn` | src/ide_scanner/service.py:286-325 | the same for completing and failing |
| `Jobs.LockedUsesLiveOn` | src/ide_scanner/service.py:218-325 | through any number of locked uses, by any callers in any order, no job disappears, a job's status only moves the way a job's life goes, and an ended job keeps its record and report |
| `Jobs.HolderFound` | src/ide_scanner/service.py:127-135 | the directory search finds the first record with the key if there is one, and an empty key finds nothing |
| `Jobs.ReserveIdempotent` | src/ide_scanner/service.py:112-152 | while one job holds each key: a request makes a new queued job with its own fields exactly when its key is free or empty; otherwise it changes nothing and gets the holder, as a replay only for the same request and as a conflict only for another; each key still has one job after it |
| `Jobs.RetryGetsOriginal` | src/ide_scanner/service.py:120-136 | the same request sent again under its key gets the original job and leaves the store unchanged |
| `Jobs.PutKeepsKeys` | src/ide_scanner/service.py:212-216 | an unlocked write keeps one job per key exactly when no other record has the written record's key |
| `Jobs.MaintenanceSettles` | src/ide_scanner/service.py:480-550 | the whole pass over the directory, retention, cleanup and retries with each job's own replies: exactly the records that have not expired stay, none is queued or running, what had ended stays as it ended, and each outbox stays in order |
| `Jobs.JobStore.constructor` | src/ide_scanner/service.py:67-76 | opens the directories with whatever they hold |
| `Jobs.JobStore.CreateOrReuse` | src/ide_scanner/service.py:112-152 | the loop over the directory does what the reservation step says |
| `Jobs.JobStore.Write` | src/ide_scanner/service.py:212-216 | an unlocked write replaces the record whatever is on disk |
| `Jobs.JobStore.TryStart` | src/ide_scanner/service.py:218-232 | claims exactly a queued job, with the store otherwise unchanged, and returns the record as written |
| `Jobs.JobStore.Cancel` | src/ide_scanner/service.py:234-255 | cancels exactly a queued or running job and returns the record on disk |
| `Jobs.JobStore.TryComplete` | src/ide_scanner/service.py:286-309 | commits report and record together, exactly for a running job |
| `Jobs.JobStore.TryFail` | src/ide_scanner/service.py:311-325 | fails exactly a queued or running job |
| `Jobs.JobStore.NotifyTerminalJob` | src/ide_scanner/service.py:508-524 | with a webhook configured and the outbox not final, the new total is the old one and the attempts reported now, at least the POSTs sent; delivered exactly if some reply is accepted after replies that may pass, and dead-lettered exactly if not and the total is nine or more; otherwise the record stays as it was |
| `Jobs.JobStore.CleanupJob` | src/ide_scanner/service.py:494-504 | a record found queued or running is failed as interrupted, and announced with its attempts counted on; any other stays as it was |
| `Jobs.JobStore.FailLeftovers` | src/ide_scanner/service.py:494-504 | the loop does so to every record of the directory, once, each with its own replies, and to no other |
| `Jobs.JobStore.CleanupStaleJobs` | src/ide_scanner/service.py:480-505 | removes exactly the expired records, reports and audit files, returns how many, and leaves each record that stays as such a cleanup should |
| `Jobs.JobStore.RetryJob` | src/ide_scanner/service.py:536-549 | a failed delivery of a complete or failed job is dead-lettered at nine attempts and announced again before; any other record stays |
| `Jobs.JobStore.RetryFailedWebhookDeliveries` | src/ide_scanner/service.py:527-550 | the loop does so to every record, once, and returns how many failed deliveries had attempts left |
| `Jobs.ThreePassesSettle` | src/ide_scanner/service.py:527-550 | whatever the replies, three retry passes over a directory leave no failed delivery in it: the attempts add up from pass to pass |
| `JobSteps.StepKeeps` | src/ide_scanner/service.py:218-325 | every enabled step of handlers, workers, orphaned runners, notifiers, maintenance, retention and crashes keeps the whole invariant |
| `JobRuns.GoodAlways` | src/ide_scanner/service.py:370-582 | the invariant holds after every run, under every configuration the service accepts and in every interleaving |
| `JobRuns.OverForGood` | src/ide_scanner/service.py:286-325 | once a job is over it never waits or runs again, nobody claims it any more, and no late runner stores a report that was not there |
| `JobRuns.AtMostOneClaim` | src/ide_scanner/service.py:218-232 | in every run at most one runner ever claims a job |
| `JobRuns.OneClaimant` | src/ide_scanner/service.py:218-232 | at no time is more than one runner at work on a job, and the one that is made the only claim of it there ever was |
| `JobRuns.RunningBounded` | src/ide_scanner/service.py:402-477 | in every run there are never more running jobs than workers, however many timed-out runners live on |
| `JobSteps.StepKeepsSupervised` | src/ide_scanner/service.py:447-477 | every running job has a worker waiting for the runner that claimed it, and a runner nobody waits for has ended or its job is over |
| `JobRuns.CompleteHasReport` | src/ide_scanner/service.py:286-309 | in every run, crashes inside a commit included, a complete job has its report stored and carries the digest of it, until a step of the run removes that report |
| `JobRuns.ReportIsTheOne` | src/ide_scanner/service.py:286-309 | a report that is there for a complete job is the one its record digests, whatever retention removed before |
| `JobRuns.CrashLeavesReport` | src/ide_scanner/service.py:286-309 | a crash between the two writes of a commit leaves the report in place, and the job is found failed with a record that never spoke of it |
| `JobRuns.AnnouncedIsOver` | src/ide_scanner/service.py:508-524 | only jobs that are over are announced, and none that stands as cancelled |
| `JobRuns.RemovedIsOld` | src/ide_scanner/service.py:480-492 | in every run a record that goes was last written longer ago than retention keeps one |
| `JobRuns.TakenInTurn` | src/ide_scanner/service.py:422-449 | in every run jobs are taken up in the order in which they were queued, none is skipped, and the queue is never longer than it may be |
| `JobRuns.RefusedWhenFull` | src/ide_scanner/service.py:429-434 | in every run a new job is turned away exactly where the queue is as long as it may be |
| `JobEndings.FailuresAreNamed` | src/ide_scanner/service.py:402-504 | the stage of a failed record names what failed it: the scan with its error, its time limit, a restart or the maintenance pass, or the full queue |
| `JobEndings.EndingsAreNoticed` | src/ide_scanner/service.py:370-504 | whoever ends a job by completing or failing it goes on to announce it, but for the handler that writes down a refusal |
| `JobOutbox.OneNotifier` | src/ide_scanner/service.py:480-550 | in every run in which each announcement is owed to an ending or to a failed delivery, and no failure is written over a job that is over: at most one notifier is ever at work on a job, and at most nine POSTs are sent, but for three for each notifier that goes without recording |
| `JobOutbox.SettledIsFinal` | src/ide_scanner/service.py:512-514 | and in such a run no POST follows once the outbox is delivered or dead-lettered, and the record keeps that delivery as long as it is there |
| `JobOutbox.ErasedIsAnnouncedAgain` | src/ide_scanner/service.py:494-524 | under every configuration and for whatever replies, a run with one notifier at a time announces a job, has the maintenance pass write its failure over the recorded delivery, and announces it again: twice the POSTs, and the record of one announcement |
| `JobEndings.EndingsKeptExactly` | src/ide_scanner/service.py:494-524 | in every run no job is found with two different endings, at whatever two points, exactly if no unlocked write of a failure falls on a job that was complete or cancelled at any earlier point; the notifier's unlocked write, removals and revivals need no condition |
| `JobEndings.EndingsKeptUndisturbed` | src/ide_scanner/service.py:494-524 | so no job has two endings where each such write finds the record as its thread read it |
| `JobEndings.MaintenanceOverwritesComplete` | src/ide_scanner/service.py:494-503 | from any run to a state where the maintenance pass holds a running job, two more steps complete the job and then record it as failed |
| `JobEndings.CompleteIsLost` | src/ide_scanner/service.py:494-503 | under every configuration a run leads there: a complete job ends up failed |
| `JobEndings.RefusalOverwritesCancelled` | src/ide_scanner/service.py:755-760 | from any run to a state where the queue refused a live job, two more steps cancel it and then record it as failed |
| `JobEndings.CancelledIsLost` | src/ide_scanner/service.py:755-760 | under every configuration a run leads there: a cancelled job ends up failed |
| `JobEndings.CancelledIsRevived` | src/ide_scanner/service.py:487-503 | under every configuration a run has a cancelled job removed by retention and brought back as failed by a refusal that stalled |
| `JobKeys.OneJobPerKeyExactly` | src/ide_scanner/service.py:112-152 | every store of a run has one job per key exactly when no unlocked write brings back a removed record whose key another job got meanwhile |
| `JobKeys.PatienceKeepsKeys` | src/ide_scanner/service.py:480-505 | so one job per key holds in every run where retention removes no record about to be written |
| `JobKeys.OnlyStallersAreHarmed` | src/ide_scanner/service.py:480-505 | the maintenance thread never removes what it holds itself: a removal finds a held record only while another thread has kept it from its write longer than retention keeps a record |
| `JobKeys.PromptnessKeepsKeys` | src/ide_scanner/service.py:480-505 | so each key has one job in every run whose handlers and notifiers write within the retention period |
| `JobKeys.RemovalFreesKey` | src/ide_scanner/service.py:487-492 | from any run where a thread has held a keyed record past its retention, a sweep removes the record and frees the key |
| `JobKeys.FreeKeyIsTaken` | src/ide_scanner/service.py:126-152 | a request with a free key makes a job that holds it |
| `JobKeys.RevivalSharesKey` | src/ide_scanner/service.py:212-216 | and the held write of the stalled thread then leaves two records with one key |
| `JobKeys.StalledRefusalSharesKey` | src/ide_scanner/service.py:755-760 | under every configuration a run gives two jobs one key: the write of a refusal stalls for longer than retention |
| `JobRuns.RunningIsReached` | src/ide_scanner/service.py:370-399 | a run reaches a running job held by a claimed runner |
| `JobEndings.RefusalIsReached` | src/ide_scanner/service.py:755-760 | under every configuration a run fills the queue and has the next job refused while it is still queued on disk |
| `JobEndings.LeftoverIsRead` | src/ide_scanner/service.py:494-499 | from any run with a live job and maintenance at rest, the pass can come to hold that job and nothing else changes |
| `Base64.PaddedRoundTrip` | src/ide_scanner/service.py:1065-1074 | decoding padded base64 gives back every byte sequence |
| `Base64.RoundTrip` | src/ide_scanner/service.py:1065-1074 | so does decoding it with the padding stripped and worked out again, and four letters stand for three bytes |
| `Base64.DecodeExact` | src/ide_scanner/service.py:1070-1074 | decoding gives exactly the bytes whose number in base 256 the letters are in base 64, group by group, whatever the spare bits at the end and with all of the padding, some of it or none |
| `Base64.EncodeExact` | src/ide_scanner/service.py:1065-1067 | encoding gives such letters, with spare bits that are zero |
| `JobCursor.CursorRoundTrip` | src/ide_scanner/service.py:1065-1084 | decoding a cursor gives back its key exactly for a job's identifier and a timestamp of 1 to 64 characters, as long as the cursor has at most 256; every string is covered, with its escapes |
| `JobCursor.StringIsRead` | src/ide_scanner/service.py:1065-1074 | reading a JSON string gives back every string that was written, escapes, control characters and surrogate pairs included |
| `JobCursor.PlainRoundTrip` | src/ide_scanner/service.py:1065-1084 | where nothing has to be escaped the limit of 256 never stands in the way |
| `CursorTexts.StringExact` | src/ide_scanner/service.py:1070-1077 | a JSON string is read exactly if it is spelled so, each character as it is, by its letter, by its number in small or capital digits or by a pair of numbers |
| `CursorTexts.DecodeExact` | src/ide_scanner/service.py:1069-1084 | a text is decoded exactly if it is at most 256 characters of base64 of the compact object with a timestamp of 1 to 64 characters and a job identifier in any spelling, and then to that position |
| `CursorTexts.EncodeExact` | src/ide_scanner/service.py:1065-1067 | a cursor is the base64 of that object as Python writes it, in ASCII |
| `JobListing.SortedDescends` | src/ide_scanner/service.py:203 | rows of different keys end up in strictly descending order of (updated_at, id) |
| `JobListing.SortedSameRows` | src/ide_scanner/service.py:203 | with none lost or added |
| `JobListing.DescendingIsUnique` | src/ide_scanner/service.py:203 | and in the only such order |
| `JobListing.BelowIsAfter` | src/ide_scanner/service.py:204-205 | the rows below a row's key are the rows after it |
| `JobListing.ListSummaryPage` | src/ide_scanner/service.py:181-210 | a page holds the newest rows that both filters let through and the cursor precedes, newest first; one, a hundred or as many as asked for when rows are left, and then the cursor of its last row; none is left out and there is no cursor otherwise |
| `JobListing.PageExact` | src/ide_scanner/service.py:181-210 | so it is for every order in which the directory is read |
| `JobListing.OlderExact` | src/ide_scanner/service.py:203-205 | rows are ordered by the first place where their timestamps differ as text, and by identifier when they do not |
| `JobListing.HandleRequest` | src/ide_scanner/service.py:623-655 | refused exactly for a limit outside 1..100 or a text that is no cursor of any position; otherwise the page from the position that the text is a cursor of |
| `JobListing.RefusedExact` | src/ide_scanner/service.py:639-650 | no other request is refused |
| `JobListing.WalkCollects` | src/ide_scanner/service.py:181-210 | the pages so far are the beginning of the list, and the cursor stands exactly where they end |
| `JobListing.CursorIsRead` | src/ide_scanner/service.py:207-210 | the text of a page's cursor is read back as the key of its last row |
| `JobListing.WalkBehind` | src/ide_scanner/service.py:181-210 | the replies to a client that sends back the cursors it gets are the pages of a walk by keys |
| `JobListing.NextIsAnswered` | src/ide_scanner/service.py:623-655 | and none of its requests is refused |
| `JobListing.WalkListsEveryJobOnce` | src/ide_scanner/service.py:181-210 | following the cursors that are sent to the end gives every matching job once, in descending text order of its timestamp and identifier, for any limits and whatever order the directory is read in; a timestamp of a whole second, written without microseconds, sorts by its text too |
| `JobListing.WalkEnds` | src/ide_scanner/service.py:207-210 | the end comes after no more pages than there are jobs |
| `Webhooks.PostsSent` | src/ide_scanner/webhooks.py:88-105 | the POSTs sent: all but the last met a retryable reply, and the last did not or used up the attempts |
| `Webhooks.DeliverTerminalWebhook` | src/ide_scanner/webhooks.py:87-106 | the loop sends and reports just that, a failure counting as three attempts |
| `Webhooks.Notify` | src/ide_scanner/service.py:508-524 | a settled outbox sends nothing; otherwise the recorded total grows by at least the POSTs sent and the outbox stays in order |
| `Webhooks.OutboxBounded` | src/ide_scanner/service.py:517-524 | in every run with one notifier at a time, the record stays in order, and the POSTs are at most nine, three more for each notification that was lost and nine more for each recorded delivery that a failure was written over |
| `Webhooks.NineAtMost` | src/ide_scanner/service.py:517-524 | so at most nine, and three for each lost notification, where no failure is written over the record |
| `Webhooks.SettledForGood` | src/ide_scanner/service.py:512-514 | delivered and dead-lettered are final, nothing later sending or writing, exactly as long as no failure is written over the record |
| `Webhooks.ThreeSettle` | src/ide_scanner/service.py:527-550 | three recorded notifications with no failure written over the record between them settle any outbox, so retries over restarts are finite there |
| `WebhookRuns.RecordInOrder` | src/ide_scanner/service.py:508-524 | however notifiers of one job overlap and die and failures are written over the record, it stays in order and counts nine attempts at most |
| `WebhookRuns.CleanRunsAccount` | src/ide_scanner/service.py:508-524 | in every run in which no notifier is overtaken by another write, none dies after a POST and no failure is written over a delivery, every POST is accounted for, so at most nine are sent |
| `WebhookRuns.AccountExactly` | src/ide_scanner/service.py:508-524 | where every POST is refused, the record accounts for the POSTs all along the run exactly if no notifier is overtaken, none dies after a POST and no failure is written over a delivery |
| `WebhookRuns.AccountAtEnd` | src/ide_scanner/service.py:508-524 | where moreover no failure is written over a delivery, the account at the end of the run already tells whether a notifier was overtaken or died after a POST |
| `WebhookRuns.SettledStepExactly` | src/ide_scanner/service.py:508-524 | a step undoes a settled outbox exactly if it writes a failure over the record or an overtaken notifier writes a failed delivery |
| `WebhookRuns.CleanRunsSettle` | src/ide_scanner/service.py:512-514 | so where nothing of that kind happens a settled outbox stays as it is and no more POSTs are recorded |
| `WebhookRuns.OverlapUndercounts` | src/ide_scanner/service.py:508-524 | a run of two notifiers at once sends six POSTs and records three attempts |
| `WebhookRuns.LossOverrunsNine` | src/ide_scanner/service.py:508-550 | a run with a notifier that dies before it writes sends twelve POSTs before the outbox is dead |
| `WebhookRuns.OverlapUndoesDelivery` | src/ide_scanner/service.py:508-524 | a run in which an overlapping failure overwrites a recorded delivery |
| `WebhookRuns.ErasureUndercounts` | src/ide_scanner/service.py:494-524 | a run with one notifier at a time, none of which dies, sends six POSTs and records three: a failure is written over the record in between |
| `WebhookRuns.ErasureUndoesDelivery` | src/ide_scanner/service.py:494-524 | and such a write undoes a delivery with nobody else at work, so that the event can be sent again |
| `ImportGraph.FirstIn` | src/ide_scanner/module_flow.py:316-322 | an import resolves to its first candidate that is a module, and to nothing only when none is |
| `ImportGraph.MatchExact` | src/ide_scanner/module_flow.py:316-322 | an import is matched with itself if that is a module, otherwise with the first that is there with .js, .cjs, .mjs, .ts, .cts or .mts added, otherwise with /index and .js, .cjs, .mjs or .ts, and with no other |
| `ImportGraph.NothingMatches` | src/ide_scanner/module_flow.py:316-322 | and with nothing exactly if all eleven files are absent |
| `ImportGraph.EdgesExact` | src/ide_scanner/module_flow.py:208-217 | a module's edges are exactly the modules its imports name in that sense, one for each import that names one, in ascending order |
| `ImportGraph.ReachIsLeast` | src/ide_scanner/module_flow.py:186-205 | the reachable modules are the least set that holds the modules the entrypoints name and follows every edge |
| `ImportGraph.ReachableModules` | src/ide_scanner/module_flow.py:186-205 | the worklist loop computes that set |
| `ImportPaths.PathsAreTheSimplePaths` | src/ide_scanner/module_flow.py:220-232 | the enumeration holds exactly the simple paths from its start |
| `ImportPaths.PathsAreDistinct` | src/ide_scanner/module_flow.py:220-232 | each once, when no module lists an edge twice |
| `ImportPaths.FirstChildNext` | src/ide_scanner/module_flow.py:220-232 | in preorder: a path that can be continued is followed by its first continuation |
| `ImportPaths.PathsRise` | src/ide_scanner/module_flow.py:220-232 | where edges ascend the paths from a start come in ascending order, compared name by name and a path before its continuations |
| `Ordering.BeforeExact` | src/ide_scanner/module_flow.py:93-93 | names are compared at the first place where they differ, and a proper prefix comes first |
| `ImportPaths.CapsExact` | src/ide_scanner/module_flow.py:220-232 | no cap stops the enumeration exactly when every simple path is short enough and there are not too many |
| `ImportPaths.BreachIsCapped` | src/ide_scanner/module_flow.py:222-232 | and otherwise a cap stops it before it ends |
| `ImportPaths.PathWalk.constructor` | src/ide_scanner/module_flow.py:220-222 | a new walk has handed out nothing and has the whole enumeration left |
| `ImportPaths.PathWalk.Resume` | src/ide_scanner/module_flow.py:220-232 | each resumption hands out the next path of the enumeration; it ends only at the end and is refused exactly where a cap says so, with the depth error before the count error |
| `FlowSearch.FirstStageIndex` | src/ide_scanner/module_flow.py:179-183 | the index found is the first from the start that has the stage, and none is found only when there is none |
| `FlowSearch.FirstStageSuffices` | src/ide_scanner/module_flow.py:96-97 | settling on the first module of the first stage loses no path |
| `FlowSearch.PathStaysInGraph` | src/ide_scanner/module_flow.py:94-96 | no path leaves the modules, so that each module on it can be looked up |
| `FlowSearch.InstallFlowTested` | src/ide_scanner/module_flow.py:93-103 | the test on enumerated paths singles out exactly the install flows |
| `FlowSearch.ExfiltrationFlowTested` | src/ide_scanner/module_flow.py:126-139 | the same for exfiltration flows |
| `FlowSearch.Search` | src/ide_scanner/module_flow.py:93-114 | the answer of the first start, in ascending order, that has one: its first path that passes, or the error if a cap comes before that; earlier starts have neither |
| `FlowSearch.FromStartUnique` | src/ide_scanner/module_flow.py:93-114 | one start has one answer |
| `FlowSearch.NothingFrom` | src/ide_scanner/module_flow.py:93-114 | a start has none exactly when none of its paths passes and it is within the caps |
| `FlowSearch.RemoteVsixInstallFlow` | src/ide_scanner/module_flow.py:86-114 | with too many modules an error; otherwise the first install flow in the order of starts and paths, unless a cap comes before it; with a flow, for each stage just the modules on it that have the stage, in path order |
| `FlowSearch.InstallAnswerMeans` | src/ide_scanner/module_flow.py:86-114 | so a returned path is an install flow and the least of all; none returned means there is none and every start is within the caps; an error means a start beyond the caps and no flow from a start before it |
| `FlowSearch.InstallStagesMean` | src/ide_scanner/module_flow.py:105-113 | the reported stages of a flow begin with its start and none is empty |
| `FlowSearch.CredentialExfiltrationFlow` | src/ide_scanner/module_flow.py:117-151 | the same for credential exfiltration with three families, which are reported once each in ascending order |
| `FlowSearch.ExfiltrationAnswerMeans` | src/ide_scanner/module_flow.py:117-151 | and its answer means the same |
| `FlowSearch.ExfiltrationStagesMean` | src/ide_scanner/module_flow.py:141-150 | its report names three families at least, reading begins at the start, and no stage is empty |
| `JsComments.StripKeepsPlaces` | src/ide_scanner/module_flow.py:332-434 | length and line breaks stay, and a character changes only to a blank or a newline |
| `JsComments.MaskEcho` | src/ide_scanner/module_flow.py:347-434 | a second run over the masked text passes through states that match the first run's, and writes the same |
| `JsComments.StripIdempotent` | src/ide_scanner/module_flow.py:332-448 | masking twice is masking once |
| `JsComments.RegexStartExact` | src/ide_scanner/module_flow.py:437-448 | a slash starts a regular expression exactly after white space alone, after one of nineteen operators and opening brackets and white space, or directly after one of seven words that stands by itself |
| `JsLexemes.StripByLexemes` | src/ide_scanner/module_flow.py:347-448 | however a text splits into lexemes and something left open at its end, exactly comments and templates are blanked and all else is copied; where a slash starts a regular expression is written out there |
| `JsLexemes.EveryTextLexes` | src/ide_scanner/module_flow.py:347-434 | every text splits so, with comments, templates, strings and regular expressions left open too |
| `JsComments.StripJsCommentsScan` | src/ide_scanner/module_flow.py:332-434 | the loop over index, state and output computes that masking |
| `JsonComments.StripKeepsCommentFree` | src/ide_scanner/jsonc.py:6-44 | text with no comment opener outside literals comes back unchanged |
| `JsonComments.StripRemovesComments` | src/ide_scanner/jsonc.py:6-44 | no opener stands outside a literal in the output |
| `JsonComments.StripIdempotent` | src/ide_scanner/jsonc.py:6-44 | stripping twice is stripping once, and changes nothing exactly when there is no comment |
| `JsonComments.StripKeepsLiterals` | src/ide_scanner/jsonc.py:15-29 | every string literal is copied verbatim and in order |
| `JsonComments.StripByPieces` | src/ide_scanner/jsonc.py:13-44 | however a text splits into pieces, a line comment leaves a newline beside its own, a block comment nothing, and all else is copied; a quote ends a literal unless it stands behind an odd number of backslashes |
| `JsonComments.EveryTextSplits` | src/ide_scanner/jsonc.py:13-44 | every text, with literals and comments left open too, splits into such pieces |
| `JsonComments.SkipLine` | src/ide_scanner/jsonc.py:30-34 | the inner loop stops at the first newline |
| `JsonComments.SkipBlock` | src/ide_scanner/jsonc.py:35-40 | the inner loop steps over the first closing mark, or past the end |
| `JsonComments.StripJsonComments` | src/ide_scanner/jsonc.py:6-44 | the loop computes that stripping |
| `ValueFlow.FirstExact` | src/ide_scanner/value_flow.py:174-186 | a name is found exactly when some name is tainted no later than the place |
| `ValueFlow.FirstChosen` | src/ide_scanner/value_flow.py:174-186 | and the one that is found is the first in the order in which names were tainted |
| `ValueFlow.FirstHandedExact` | src/ide_scanner/value_flow.py:189-211 | an expression is tainted exactly when one of its hand-overs has such a name |
| `ValueFlow.FirstHandedChosen` | src/ide_scanner/value_flow.py:189-211 | and the first such hand-over is taken, with its first tainted name |
| `ValueFlow.HandoffsExact` | src/ide_scanner/value_flow.py:189-211 | what an expression hands on is its name, the names it transforms, or for a call the arguments in the places of the parameters that its function returns, transformed or not and by way of that parameter |
| `ValueFlow.CallHandsInOrder` | src/ide_scanner/value_flow.py:199-211 | those of a call in the order in which the parameters are returned |
| `ValueFlow.RoundExtends` | src/ide_scanner/value_flow.py:72-109 | names keep their places in the order of tainting: a round only adds after them |
| `ValueFlow.RoundUsesSlack` | src/ide_scanner/value_flow.py:72-109 | a round that changes anything makes some name newly tainted or tainted earlier, so a bounded sum drops |
| `ValueFlow.RoundsSettle` | src/ide_scanner/value_flow.py:72-109 | as many rounds as that sum allows reach a fixpoint, with no cap |
| `ValueLimits.CapExactly` | src/ide_scanner/value_flow.py:69-109 | so many rounds settle every file with so many property writes exactly if the rounds outnumber the writes: for 32 rounds, up to 31 writes |
| `ValueLimits.ReportsExactly` | src/ide_scanner/value_flow.py:39-152 | every file with separate names and so many property writes is reported exactly if some lineage arrives: that holds exactly for fewer than 32 writes; objects may be declared first and written into before the assignments that hand something on to them |
| `ValueLineage.FlowRunsDown` | src/ide_scanner/value_flow.py:61-109 | a lineage's path is its stops from the credential read on, name by name; it starts at its source and ends at its name, its positions run down the text, and it is transformed exactly when some hand-over is |
| `ValueLineage.RoundsSound` | src/ide_scanner/value_flow.py:72-109 | every entry of the table is a lineage of credential reads and hand-overs, property overwrites included |
| `ValueLineage.PassIsEnough` | src/ide_scanner/value_flow.py:71-92 | after one pass over the assignments another does nothing |
| `ValueLineage.RoundFires` | src/ide_scanner/value_flow.py:71-109 | a round settles the table or makes a property write fire that never fires again |
| `ValueLineage.WritesBoundRounds` | src/ide_scanner/value_flow.py:69-109 | so more rounds than property writes that are still to fire settle any table |
| `ValueLineage.CapNeverBites` | src/ide_scanner/value_flow.py:72-109 | with fewer property writes than the cap the capped rounds give the fixpoint |
| `ValueLineage.CompleteExactly` | src/ide_scanner/value_flow.py:74-109 | a settled table has every lineage, no later than the lineage has it, exactly when no assignment was passed over because its target was tainted later already |
| `ValueLineage.SeparateIsComplete` | src/ide_scanner/value_flow.py:74-109 | so it is complete when no name is assigned twice and no object whose assignment hands a value on is written into after that assignment; assignments of credential reads and of anything else may be written into at will |
| `ValueLimits.PassedOver` | src/ide_scanner/value_flow.py:74-76 | for every place of an assignment and every later place of a property write to its target there is a settled file with a lineage that reaches a request and no report, because the assignment was passed over |
| `ValueLimits.OrderExactly` | src/ide_scanner/value_flow.py:74-109 | of the files with each name assigned once and fewer than 32 property writes, in which only objects assigned at one place are handed something and written into at another, all are reported exactly if a lineage arrives, when and only when the write is not after the assignment, or the assignment is first in the file |
| `ValueLimits.AssignedTwice` | src/ide_scanner/value_flow.py:155-161 | for every two places: a credential read assigned to one name at both and then sent is not reported |
| `ValueReport.FirstReportIsOne` | src/ide_scanner/value_flow.py:111-152 | a report is that of some place where values leave, and none means that no place gives one |
| `ValueReport.FirstReportChosen` | src/ide_scanner/value_flow.py:111-152 | and the report is that of the first place that gives one |
| `ValueReport.SendsExact` | src/ide_scanner/value_flow.py:111-150 | values leave in the names of a request body, or as the argument of a call in the place of a parameter that its function sends, at the call and by way of that parameter; and nowhere else |
| `ValueReport.SendsInOrder` | src/ide_scanner/value_flow.py:111-150 | the sinks are looked at first, then the calls, each with its sent parameters in their order |
| `ValueReport.ReportOfExact` | src/ide_scanner/value_flow.py:111-161 | such a place gives a report exactly if some name there is tainted by then and the flow of the first that was tainted passes no name that is assigned twice |
| `ValueReport.ReportIsSound` | src/ide_scanner/value_flow.py:111-161 | whatever is reported is a lineage that arrives where values leave, described as it is: source, route, transformation and positions; and no name on it is assigned twice |
| `ValueReport.SettledReportIsComplete` | src/ide_scanner/value_flow.py:39-152 | with separate names and settled rounds, a file is reported exactly when some lineage arrives where values leave |
| `ValueReport.ReportIsComplete` | src/ide_scanner/value_flow.py:39-152 | with separate names and fewer than 32 property writes, a file is reported exactly when some lineage arrives where values leave |
| `ValueReport.AssignAll` | src/ide_scanner/value_flow.py:74-92 | the loop over assignments; its flag is set exactly when the table changed |
| `ValueReport.StoreAll` | src/ide_scanner/value_flow.py:93-107 | the same for property writes |
| `ValueReport.PropagateTaint` | src/ide_scanner/value_flow.py:60-109 | seeding and at most 32 rounds, ending early, give the table of 32 full rounds |
| `ValueReport.CredentialValueFlow` | src/ide_scanner/value_flow.py:39-152 | the two loops over sinks and calls give the first report |
| `CorpusScheduler.WorkUnits` | scripts/scan_corpus.py:466-480 | four units exactly for an unknown size or 33554432 bytes and more, one exactly below 8388608 |
| `CorpusScheduler.CapacityExact` | scripts/scan_corpus.py:539 | the capacity is the jobs asked for where no artifact weighs more, and the heaviest weight otherwise |
| `CorpusScheduler.WorkUnitsMonotone` | scripts/scan_corpus.py:466-480 | a larger artifact weighs no less, and one of unknown size the most |
| `CorpusScheduler.FirstFitIsFirst` | scripts/scan_corpus.py:588 | nothing before the placed artifact fits, and nothing at all when none is placed |
| `CorpusScheduler.PlaceConserves` | scripts/scan_corpus.py:586-626 | a placement loses and doubles nothing |
| `CorpusScheduler.PlaceSorts` | scripts/scan_corpus.py:592-597 | it starts only artifacts that pass preflight and records only those that fail it |
| `CorpusScheduler.PlaceFills` | scripts/scan_corpus.py:586-629 | it starts no more than the free units carry, and afterwards nothing left in the queue fits |
| `CorpusScheduler.IdlePlacement` | scripts/scan_corpus.py:586-632 | with every unit free, a queue starts something or is turned down whole, so the placement error never strikes a waiting artifact |
| `CorpusScheduler.JobsBoundExact` | scripts/scan_corpus.py:530-572 | `jobs` bounds the children that a scan has at once, for every cohort with a given heaviest weight, exactly when it is 1 or that weight is not above it |
| `CorpusScheduler.JobsBoundFails` | scripts/scan_corpus.py:466-572 | with the weights there are, it fails exactly for 2 or 3 jobs and an artifact of weight 4 |
| `CorpusScheduler.IdlePass` | scripts/scan_corpus.py:586-632 | a placement with nothing running starts nothing exactly when all that waits is turned down, and then nothing is left and the last result is a preflight failure |
| `CorpusScheduler.AtOnceWithin` | scripts/scan_corpus.py:539-572 | the capacity bounds the children that are placed first, and a serial scan has one |
| `CorpusScheduler.PendingScan.PlaceFitting` | scripts/scan_corpus.py:586-629 | the placement loop does what a placement says with the free units |
| `CorpusScheduler.PendingScan.PollChildren` | scripts/scan_corpus.py:634-656 | with what each child does as a parameter: those that have not exited and are within their deadline stay, in order; each other one gets one result in order, an exit if it has exited and a timeout if it has not and its deadline has come |
| `CorpusScheduler.PolledMeans` | scripts/scan_corpus.py:634-656 | so all that stay are within their deadlines, and each child stays or has one result |
| `CorpusScheduler.PendingScan.ScanOne` | scripts/scan_corpus.py:561-572 | in a serial scan one artifact gives one result: of its preflight, an exit, or a timeout once its time is up |
| `CorpusScheduler.PendingScan.PlacePass` | scripts/scan_corpus.py:586-632 | a placement keeps every artifact accounted for, and leaves nothing running, which is the error, exactly when nothing ran before and every waiting artifact fails its preflight |
| `CorpusScheduler.PendingScan.ScanParallel` | scripts/scan_corpus.py:579-682 | the loop terminates with every artifact recorded once, in the placement error exactly when the last result is a preflight failure |
| `CorpusScheduler.PendingScan.ScanSerially` | scripts/scan_corpus.py:561-572 | every artifact in order gives that result, one child at a time |
| `CorpusScheduler.PendingScan.ScanPending` | scripts/scan_corpus.py:513-682 | either way every artifact is recorded once; the error strikes exactly when jobs is not 1 and the last result is a preflight failure, never when all pass preflight and always when none does; the most children at once lie between those placed first and the capacity, and within `jobs` when that is 1 or no weight is above it; and no child is recorded as timed out before it has had its time |
| `CorpusScheduler.LoadCheckpoints` | scripts/scan_corpus.py:784-791 | splits the targets into those a checkpoint answers and, in order, those left to scan |
| `CorpusScheduler.EachIndexOnce` | scripts/scan_corpus.py:541-543 | each pending index is recorded exactly once |
| `CorpusScheduler.RunCorpus` | scripts/scan_corpus.py:513-805 | a run is refused exactly for arguments out of range, an empty corpus or a sandbox that is not ready; otherwise every target gets a result, each not answered by a checkpoint recorded exactly once, or the run ends in the placement error, without any result although all were recorded, leaving exactly the checkpoints of the targets that have a digest; a run of one job never does |
| `ArtifactVault.ArtifactStore.Open` | src/ide_scanner/artifact_store.py:46-95 | opens a vault as it is found, makes missing tables and refuses a catalog of a later schema |
| `ArtifactVault.ArtifactStore.Stage` | src/ide_scanner/artifact_store.py:114-123 | copies the chunks, and digests and counts just what it copied |
| `ArtifactVault.ArtifactStore.Preserve` | src/ide_scanner/artifact_store.py:97-162 | what a call does in every case; no staged copy stays, no object is replaced, and a refused call leaves objects and catalog alone |
| `ArtifactVault.CleanedExact` | src/ide_scanner/artifact_store.py:97-109 | names are refused for the platform first, then for one that is empty, longer than 255, 128 or 32 characters or has a control character, then for a registry other than two; otherwise blanks are dropped and registry and platform put in small letters |
| `ArtifactVault.ArtifactStore.Keep` | src/ide_scanner/artifact_store.py:124-156 | an existing object is used only if it is a regular file with the expected content |
| `ArtifactVault.CatalogAlways` | src/ide_scanner/artifact_store.py:72-95 | in every run an observation has its artifact's row, sizes and keys are right, and what a call returned as first sighting is on record |
| `ArtifactVault.CatalogGrows` | src/ide_scanner/artifact_store.py:144-153 | no row is lost and no first sighting, size or key rewritten, through calls, crashes and outside writes to objects |
| `ArtifactVault.CatalogIsCommitted` | src/ide_scanner/artifact_store.py:143-153 | in every run the catalog is determined by which calls committed in which order: a row is dated by the clock of the first and of the latest call to commit for it |
| `ArtifactVault.SightingsAdvanceExactly` | src/ide_scanner/artifact_store.py:143-153 | last sightings never move back exactly in the runs in which the calls for each artifact commit in the order in which they read the clock |
| `ArtifactVault.DatesInOrderExactly` | src/ide_scanner/artifact_store.py:143-153 | no row is last seen before it was first seen, and no observation older than its artifact, exactly in the runs in which no call commits with a time before that of the first to commit for its rows |
| `ArtifactVault.TurnsKeepDates` | src/ide_scanner/artifact_store.py:143-153 | both hold where the clock does not run back and calls for the same bytes take turns between reading it and committing |
| `ArtifactVault.LateCommitDatesBack` | src/ide_scanner/artifact_store.py:143-153 | a run of two calls under a clock that runs on leaves an artifact first seen after it was last seen and, under another name, an observation older than its artifact |
| `ArtifactVault.SoundAlways` | src/ide_scanner/artifact_store.py:124-142 | where nothing outside writes, an object is what its digest says, a row has its object, and no call fails its integrity check |
| `ArtifactVault.ObjectsStay` | src/ide_scanner/artifact_store.py:131-142 | an object that is there stays, with the same content |
| `ArtifactVault.NoRowDangles` | src/ide_scanner/artifact_store.py:124-153 | every observation leads to an artifact's row and to its object, with the bytes and size recorded |
| `ArtifactVault.ReturnedHolds` | src/ide_scanner/artifact_store.py:151-155 | what a call returned holds for the rest of the run, but for the last sighting |
| `ArtifactVault.CallsNeverReplace` | src/ide_scanner/artifact_store.py:131-141 | no call replaces an object, and only a link adds one, with the bytes of its call |
| `ArtifactVault.VerifyExact` | src/ide_scanner/artifact_store.py:131-142 | a call goes on exactly if the object in place is a regular file with the bytes it has staged |
| `ArtifactVault.PastVerifyWasInPlace` | src/ide_scanner/artifact_store.py:124-155 | a call that returned had its bytes in place at some time of the run, whatever else wrote in the vault |
| `ArtifactVault.CrashLeavesObject` | src/ide_scanner/artifact_store.py:131-157 | a crash can leave an object that no row names |
| `ArtifactVault.OneCallAlone` | src/ide_scanner/artifact_store.py:97-157 | one call alone through the steps does what the one-process call does |
| `OsvLookup.EntriesExact` | src/ide_scanner/registry.py:617-622 | asked about are exactly the dependencies declared as text that gives a version |
| `OsvLookup.RelevantExact` | src/ide_scanner/registry.py:725-739 | filtering drops exactly the one documented false positive |
| `OsvLookup.FindingExact` | src/ide_scanner/registry.py:637-657 | a dependency has a finding exactly when some advisory on it stays; it is critical exactly when one is malware, and names them all |
| `OsvLookup.CheckOsv` | src/ide_scanner/registry.py:616-658 | the one-extension lookup, with more results than queries an index error |
| `OsvLookup.CheckOsvMany` | src/ide_scanner/registry.py:661-722 | the batched loops report for each extension the findings its entries have in what the chunks answered, and the failed chunks in order |
| `OsvLookup.EachKeyAskedOnce` | src/ide_scanner/registry.py:672-689 | together the chunks ask about every package version once, at most a hundred at a time |
| `OsvLookup.AskExact` | src/ide_scanner/registry.py:677-696 | what is known in the end is the answer to every query in a chunk that was answered |
| `OsvLookup.ManyGivesWhatOneGives` | src/ide_scanner/registry.py:661-722 | an extension whose keys were in answered chunks, and which is the last of its identifier, gets just the findings of the one-extension lookup, even when other chunks failed |
| `OsvLookup.BatchRefinesSingle` | src/ide_scanner/registry.py:616-722 | with distinct identifiers and no failed request the batched lookup refines the simple one |
| `OsvLookup.SameIdHidesOthers` | src/ide_scanner/registry.py:671 | of extensions with one identifier only the last is looked at |
| `OsvExact.CheckedExact` | src/ide_scanner/registry.py:616-658 | for every extension and every service: one request with the declared versions in their order; a failure is passed on; each result gives the finding of the entry in its place, in order; more results than queries are out of range |
| `OsvExact.FoundExact` | src/ide_scanner/registry.py:637-657 | a finding names in order the advisories that are not the excused placeholder, is critical exactly for malware, and graver for an exact version |
| `OsvExact.AskedExact` | src/ide_scanner/registry.py:677-696 | for every service, also one that answers too much or too little: what is known of a key is the result in its place of the last request that has one there, and the messages are those of the failed requests in order |
| `OsvExact.ManyExact` | src/ide_scanner/registry.py:661-722 | the keys asked for are those of all extensions once each in the order in which they come up, a hundred at a time, and under each identifier is reported what is so known of the dependencies of the last extension that has it |
| `AccuracyGate.ValidateHoldoutResults` | scripts/build_publication_accuracy_gate.py:439-529 | the loop over rows, with its set of seen keys and its counters |
| `AccuracyGate.ValidateExact` | scripts/build_publication_accuracy_gate.py:445-528 | rows are accepted exactly when there are as many as artifacts, of different keys, each passing for the artifact of its key |
| `AccuracyGate.AcceptedCorresponds` | scripts/build_publication_accuracy_gate.py:445-474 | and then rows and artifacts correspond one to one, by pigeonhole, and the corpus has no key twice |
| `AccuracyGate.AcceptedCounts` | scripts/build_publication_accuracy_gate.py:465-528 | the counters are those of the frozen corpus: safe and malicious add up, no safe artifact is blocked, every malicious one is detected, and blocked where that is asked |
| `AccuracyGate.RateIsNearest` | scripts/build_publication_accuracy_gate.py:540-559 | no number of ten-thousandths is nearer to the true rate |
| `AccuracyGate.RateAtMost` | scripts/build_publication_accuracy_gate.py:302-305 | when a rounded rate passes an even bound, as an inequality of whole numbers |
| `AccuracyGate.ReviewCeiling` | scripts/build_publication_accuracy_gate.py:304-305 | the review ceiling passes exactly 20000 r <= 4001 n, which below 4000 artifacts is 5 r <= n |
| `AccuracyGate.ReviewCeilingRounds` | scripts/build_publication_accuracy_gate.py:304-305 | beyond, more than a fifth can pass |
| `AccuracyGate.ZeroRate` | scripts/build_publication_accuracy_gate.py:302-303 | a zero rate means none below 20000, and from there on one is lost in rounding |
| `AccuracyGate.CountedMeans` | scripts/build_publication_accuracy_gate.py:272-305 | what a passing gate whose summary matches its rows guarantees of its counts |
| `AccuracyGate.PublishedMeans` | scripts/build_publication_accuracy_gate.py:74-164 | what a publication stands on: rows for exactly the frozen artifacts, one identity, no safe block, every malicious artifact blocked, at least five of each, and rules that fired |
| `AccuracyGate.BehaviorMeans` | scripts/build_publication_accuracy_gate.py:165-220 | the behaviour-only run stands on rows for the same artifacts and detects every malicious one; one allowed is hidden only among twenty thousand |
| `AccuracyGate.AuditMeans` | scripts/build_publication_accuracy_gate.py:602-702 | an audit is of the same build and artifacts; at most a fifth of the safe ones were reviewed, without rounding, none was blocked, and only a vulnerable dependency called for action |
| `AccuracyGate.FiredAtMostLabelled` | scripts/build_publication_accuracy_gate.py:562-599 | accepted rows that name no rule twice never count a rule more often than there are artifacts of a label |
| `AccuracyGate.AllowedByRounding` | scripts/build_publication_accuracy_gate.py:165-198 | for every number of malicious artifacts and of those allowed, with the rows and gates to it: the behaviour-only rows are accepted with that count, and the publication goes out exactly if 20000 times the allowed are no more than the malicious |
| `PublicationExact.AcceptedExact` | scripts/build_publication_accuracy_gate.py:439-529 | rows are accepted exactly if they are as many as the artifacts, keys differ on both sides and each row has label, digest, flags, run-time contract, verdict and decision as they have to be |
| `PublicationExact.TallyExact` | scripts/build_publication_accuracy_gate.py:456-528 | each counter of accepted rows is the number of rows of its sort |
| `PublicationExact.RateExact` | scripts/build_publication_accuracy_gate.py:540-559 | a rate is the nearest number of ten-thousandths, of two that are equally near the even one |
| `PublicationExact.PublishedExact` | scripts/build_publication_accuracy_gate.py:74-220 | a publication goes out exactly for this evidence: gates that state full passes, one identity, holdout rows that fit the frozen corpus with at least five of each label and both kinds of run, summaries that state their counts and rates, rules named no more often than there are rows, and an audit and a behaviour-only run that fit, if given; it carries the counts of the rows |
| `ReportBundle.DetailNameIsSafe` | src/ide_scanner/report_bundle.py:754-756 | a detail's name has only safe characters, no dot or underscore at its ends, and never falls back |
| `ReportBundle.SafeNameIsKept` | src/ide_scanner/report_bundle.py:754-756 | a name that is safe as it is stays as it is |
| `ReportBundle.DetailRefIsSafe` | src/ide_scanner/report_bundle.py:307 | a reference is a safe member name of two parts in the directory of details |
| `ReportBundle.RefsCollide` | src/ide_scanner/report_bundle.py:754-756 | different extensions can share a reference |
| `ReportBundle.RefsExact` | src/ide_scanner/report_bundle.py:61-64 | the bundle's references are those of its extensions, each once, sorted |
| `ReportBundle.DetailsAreLast` | src/ide_scanner/report_bundle.py:61-64 | behind each is the detail of the last extension that has it |
| `ReportBundle.MembersAreFree` | src/ide_scanner/report_bundle.py:779-789 | every member has a name of its own, safe and not one of the two written last |
| `ReportBundle.EveryRefIsAMember` | src/ide_scanner/report_bundle.py:779-789 | every reference on the leaderboard is a member, even when references collide |
| `BundleExact.DetailNameExact` | src/ide_scanner/report_bundle.py:754-756 | the name of a detail is the one text that has an underscore for each run of characters other than letters, digits and four signs, without dots and underscores at both ends |
| `BundleExact.SafeMemberExact` | src/ide_scanner/report_bundle.py:805-807 | a member name is safe exactly if it is not empty, starts and ends with no slash and has no part of two dots |
| `BundleExact.MembersExact` | src/ide_scanner/report_bundle.py:779-789 | a bundle is its six named members in their order and then the details in ascending order of name, for each name the detail of the last extension that has it, and one for every extension |
| `BundleArchive.WriteArchive` | src/ide_scanner/report_bundle.py:86-94 | the members, then the manifest, then the provenance if there is one |
| `BundleArchive.VerifyReportBundle` | src/ide_scanner/report_bundle.py:103-143 | the checks in order, each loop leaving at the first failure |
| `BundleArchive.CheckSizes` | src/ide_scanner/report_bundle.py:108-114 | the three limits, exactly |
| `BundleExact.VerdictExact` | src/ide_scanner/report_bundle.py:103-143 | an archive gets exactly this verdict: more than 20000 members, one of more than 67108864 bytes, more than 268435456 in all, a name twice, no manifest, an unsafe name, a manifest that cannot be read, of another schema, without files or not of just the members, the first entry that is no entry or does not hold, provenance that is not accepted, in this order |
| `BundleArchive.SameManifestSameMembers` | src/ide_scanner/report_bundle.py:128-142 | archives that verify with one manifest agree on every member but the provenance |
| `BundleArchive.WrittenVerifies` | src/ide_scanner/report_bundle.py:68-151 | whatever is wrong with a written archive is its size |
| `BundleArchive.BundleVerifies` | src/ide_scanner/report_bundle.py:68-151 | a bundle's archive verifies exactly when it is within the three limits |
| `Wilson.IntervalExact` | scripts/summarize_website_benchmark.py:139-142 | the interval is exactly the set of rates that a two-sided score test at z does not reject |
| `Wilson.PlausibleBounds` | scripts/summarize_website_benchmark.py:139-147 | an interval of just those rates lies around the observed one, between 0 and 1 |
| `Wilson.BoundsOfRate` | scripts/summarize_website_benchmark.py:139-147 | so 0 <= lower <= rate <= upper <= 1 |
| `Wilson.ClampsChangeNothing` | scripts/summarize_website_benchmark.py:136-148 | and the clamps at 0 and 1 change neither bound |
| `Wilson.RoundedBounds` | scripts/summarize_website_benchmark.py:146-147 | rounding to six places keeps that order |
| `Wilson.RateExact` | scripts/summarize_website_benchmark.py:136-148 | there is a rate exactly of something, and its bounds enclose exactly the x with n times the squared distance to it at most z squared times x (1 - x), z being 1.959963984540054 |

## Left out

- `Jobs.HolderFound`: a record that cannot be read or parsed counts as absent; the model has no unreadable records.
- `JobKeys.OneJobPerKeyExactly`: assumes that a new job's random identifier was never given out before.
- `JobRuns.CompleteHasReport`: the age of a report file is not modelled, so that a sweep may remove any report; at startup the pass is one step, as nothing else runs yet.
- `JobOutbox.OneNotifier`: a notifier reads, sends and comes to hold its copy in one step, so that nothing happens to the record between its read and its POSTs; `WebhookRuns` has these apart.
- `Jobs.JobStore.NotifyTerminalJob`: whether a webhook is configured and how each POST is answered are parameters; signing, headers and delivery identifiers are not modelled.
- `JobCursor.CursorRoundTrip`: strings have no lone surrogates; JSON objects laid out otherwise or with characters outside ASCII in them, which Python would also load, are refused in the model, and so are characters outside the alphabet, which Python's decoder drops.
- `CursorTexts.DecodeExact`: says which texts the model reads, so that these are no cursors there.
- `JobListing.WalkListsEveryJobOnce`: a record without `updated_at`, which the service never writes, is not modelled.
- `ImportPaths.PathsAreDistinct`: two imports of a module that resolve to one file make the enumeration repeat paths, as in the code; the searches are proved without assuming that away.
- `ValueFlow.FirstHandedExact`: what the patterns match is given; that one assignment's expression, transformations and credential reads are recognised rightly is not modelled, nor are the function summaries.
- `CorpusScheduler.PendingScan.PollChildren`: a child's exit code and report are abstracted to exited or timed out; the second wait after a failed termination is not modelled.
- `ArtifactVault.ArtifactStore.Preserve`: failures of the file system or of the catalog's database inside one call appear only as a call that stops between steps.
- `ArtifactVault.CatalogIsCommitted`: times are compared as numbers; that their text sorts alike, which a whole second without microseconds does not, is not modelled.
- `OsvLookup.BatchRefinesSingle`: the service answers each query by itself and the same way each time; how a declared range becomes a version is a parameter.
- `AccuracyGate.PublishedMeans`: the schema, label evidence, provenance and runtime settings of a gate, corpus or audit are flags.
- `AccuracyGate.RateIsNearest`: rates are exact quotients; binary floating point is not modelled.
- `BundleArchive.WrittenVerifies`: JSON and signatures are given functions; that a written manifest is read back is a hypothesis on them.
- `Wilson.RoundedBounds`: rounds ties up, where Python rounds the binary value's ties to even.
- `JobStore.write_report`, which only tests call, readiness probes and audit lines.
- HTTP transport, authorization, host validation, OpenAPI text and CORS: plumbing without state.
- `module_flow_coverage`, `_is_code_position`, `module_summary` and the expressions they match: reports and pattern details beside the searches.
- Vault and job-history queries beyond the job list: single expressions.
- Detection rules, classification policy, trust tiers, exporters and the command line: tables and text that single branches settle.
- The sandbox runner and its embedded JavaScript: foreign processes.
