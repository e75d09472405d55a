# Verification of the support archive operator

A Dafny model of the operator that collects diagnostic data of a Kubernetes namespace, stores it
on disk, zips it, and deletes it again.  `dafny verify dfyconfig.toml` checks the whole project.

| file | models |
|---|---|
| `LokiPaging.dfy` | the windowed, limit-driven paging of log queries, against every server that answers a request with some of the earliest entries |
| `PrometheusPaging.dfy` | the paging of range queries, compared with one unpaged query |
| `ArchiveProtocol.dfy` | building an archive: one producer goroutine per collector, the zip goroutine, unbuffered channels and the errgroup's context, as a step relation |
| `CollectProtocol.dfy` | running one collector: collector and repository goroutine, likewise |
| `WorkTree.dfy` | deletion of collector data and zips on a directory tree, with failing removals and listings |
| `Reconcile.dfy` | the reconcile step and runs of it |
| `GarbageCollection.dfy` | one garbage collection round |
| `ArchiveAgreement.dfy` | a sync round, and interleavings of sync, garbage collection, reconciler and users |
| `NodeInfo.dfy`, `LogFile.dfy` | the repositories that keep open files per metric and archive |
| `ZipCreation.dfy` | which readers, writers and files the zip repository opens and closes, in which order |
| `ArchivePaths.dfy` | the path of an archive, the pattern that finds archives again, and the walk over the store |
| `CensorYaml.dfy` | the in-place masking of YAML documents |
| `Domain.dfy`, `Collections.dfy`, `Arithmetic.dfy` | identifiers, and facts about collections and integers that several files need |

Times are integers: nanoseconds since Go's zero time for Loki, any unit for Prometheus.  Servers,
the order in which a map is ranged over, and the failures of the environment are parameters or
nondeterministic choices; the theorems hold for all of them.

## Where the code and its documentation part, and where a property has a condition

- `docs/dev/usage.md:24` says that `.done` means that the collector fetched successfully.  It means
  that the channel was closed and the repository's store function accepted everything received:
  collectors close their channel also when they fail (`CollectProtocol.MarkedAlthoughFailed`,
  `CollectProtocol.MarkerMeaning`), and accepted node samples need not be on disk
  (`NodeInfo.NodeInfoRepository.Create`).
- The comment at `pkg/usecase/create_archive.go:89` announces a cleanup of data that is no longer
  required.  The cleanup is given only required collectors and never deletes anything
  (`Reconcile.NothingIsCleanedUp`).
- A context cancelled from outside makes producers drop files while the zip may still be reported as
  created, and errors from closing the zip writer and the zip file are only logged.
  `ArchiveProtocol.RunOutcome` gives the exact condition for a usable zip,
  `ArchiveProtocol.SuccessEitherWay` shows for all inputs that each of the three can break it alone.
- An error of flushing a CSV writer is never asked for (`pkg/adapter/archive/file/nodeInfoFileRepository.go:98`):
  rows can be lost while the collection succeeds and is marked (`NodeInfo.SilentLoss`).
- A collector that fails but is marked done is never run again, so that the archive is built without its
  data (`Reconcile.MarkedFailureIsFinal`).
- An archive whose download path could not be published never gets one, and a broken zip that could
  not be removed is never rebuilt (`Reconcile.LostUrlStaysLost`,
  `Reconcile.LeftoverIsTakenForTheArchive`).
- Against a server that answers every request, log paging ends if and only if the limit is positive and
  either the window is positive or one request spans the range (`LokiPaging.EndsIff`).  With limit 0 an
  empty answer counts as full and the loop starts again from the zero time.
- Against a server that rejects exactly the invalid range queries, metric paging ends unless the page size
  is zero, the step positive and the range not empty (`PrometheusPaging.EndsIff`).
- A metric page holds one sample more per series than the page size says (`PrometheusPaging.PagesTile`).
- Archives whose name contains a dot, which Kubernetes permits, are not listed under their name
  (`ArchivePaths.DottedName`).  Most of them end the walk, so that archives behind them are not listed
  (`ArchivePaths.UnseenBehindTheStop`); sync only logs that, and can succeed although zips without a
  resource remain (`ArchiveAgreement.Operator.SyncStore`).
- An archive that is deleted and created again under its name can lose its zip to a deletion that was
  decided in between, by garbage collection or by the reconciler
  (`pkg/usecase/garbage_collection.go:133-142`, `pkg/adapter/kubernetes/supportArchiveController.go:42-49`;
  `ArchiveAgreement.RecreatedIsDoomed`, `ArchiveAgreement.SafeIff`).
- Creation times count whole seconds.  Among archives of the same second it can depend on the sort which
  are collected, and a failing Exists check can then select another one (`GarbageCollection.SelectedIff`,
  `GarbageCollection.FailedChecksOnlyShrink`).
- `pkg/adapter/kubernetes/supportArchiveController.go:54` says that sync cleans up later what a deletion
  left.  Sync finds archives by their zips, and the zip is deleted also if the data could not be
  (`WorkTree.DeleteArchive`).
- Sync compares the resources of the operator's namespace with the zips of all namespaces, so a zip of
  another namespace is deleted although its resource lives (`ArchiveAgreement.SafeIff`).  One
  operator never stores such a zip, as its cache is restricted to its namespace (`main.go:248-249`); it
  takes a store that operators of several namespaces share, or that is kept when the namespace changes.
- Pruning stops at a directory that does not exist, so a namespace directory stays behind if the
  archive's own directory is missing (`WorkTree.NamespaceGoneIff`).
- A run whose context ends leaves what it stored, and its file handle, behind; the next run appends
  (`CollectProtocol.InterruptedPartStays`, `LogFile.SecondRunAppends`).
- Two collectors send without a select and can be left behind for ever
  (`pkg/adapter/collector/systemState.go:101`, `pkg/adapter/prometheus/v1/api.go:180`);
  `CollectProtocol.CanGetStuckIff` says for which collections that can happen.

## Model

| member | source | states |
|---|---|---|
| LokiPaging.WriteResponse | pkg/adapter/loki/lokiLogsProvider.go:133-154 | emits the parsed lines of all streams in order, stops at the first that does not parse, and returns the latest timestamp and the number of lines |
| LokiPaging.EveryRowIsThere | pkg/adapter/loki/lokiLogsProvider.go:133-144 | row j of stream i of a response is handled at its place, stream after stream |
| LokiPaging.EveryLineIsEmitted | pkg/adapter/loki/lokiLogsProvider.go:134-147 | every row before the first that does not parse is emitted at its place, and nothing behind it |
| LokiPaging.AnswerBrings | pkg/adapter/loki/lokiLogsProvider.go:107-111 | an answer with a malformed row still brings the lines before it; a failed request brings nothing |
| LokiPaging.LatestIsMax | pkg/adapter/loki/lokiLogsProvider.go:134-147 | the running maximum is the timestamp of an emitted line and no line is later (every line lies after the zero time the maximum starts from) |
| LokiPaging.Round | pkg/adapter/loki/lokiLogsProvider.go:100-127 | one pass of the loop: which lines go out and whether the loop ends, aborts or goes on, and where |
| LokiPaging.FindLogs | pkg/adapter/loki/lokiLogsProvider.go:96-129 | the loop does exactly the run of requests and lines that the recursive specification gives, for every conforming server |
| LokiPaging.RequestByRequest | pkg/adapter/loki/lokiLogsProvider.go:99-128 | every request of every run asks for the window behind its start, cut at the end; it is the last one exactly if its answer failed, has a row that does not parse, or reaches the end without being full; otherwise the next one starts at the end of the window, or behind a full answer at its latest line, one nanosecond later if that is where the request started |
| LokiPaging.RunGathers | pkg/adapter/loki/lokiLogsProvider.go:96-129 | the run emits what its answers bring, in order, and succeeds if and only if none of them failed or has a row that does not parse |
| LokiPaging.AnsweredRunSucceeds | pkg/adapter/loki/lokiLogsProvider.go:112-120 | against a server that answers every request with lines, or with none, the run succeeds |
| LokiPaging.StartsIncrease | pkg/adapter/loki/lokiLogsProvider.go:99-128 | request start times strictly increase and never pass the end, across all three ways of advancing |
| LokiPaging.EmitsOnlyTheRange | pkg/adapter/loki/lokiLogsProvider.go:96-129 | nothing is emitted but stored entries with start <= timestamp < end |
| LokiPaging.RequestCovers | pkg/adapter/loki/lokiLogsProvider.go:107-127 | one answered request covers every instant the loop leaves behind: min(n, limit) of its n entries |
| LokiPaging.Completeness | pkg/adapter/loki/lokiLogsProvider.go:96-129 | for every store, every tie-breaking server and every instant the run got past, at least min(n, limit) distinct entries of that instant were emitted; also for runs that end in an error, up to the failed request |
| LokiPaging.OkReachesEnd | pkg/adapter/loki/lokiLogsProvider.go:112-115 | a run without error got past the whole range |
| LokiPaging.NothingLostWhenUncrowded | pkg/adapter/loki/lokiLogsProvider.go:117-124 | if no nanosecond carries more than `limit` entries, a run without error emits every entry of the range |
| LokiPaging.SomethingLostWhenCrowded | pkg/adapter/loki/lokiLogsProvider.go:122-127 | the converse: if one does, a conforming, never failing server exists with which the run succeeds and an entry is never emitted |
| LokiPaging.GoesOnPast | pkg/adapter/loki/lokiLogsProvider.go:117-127 | the loop goes on at or after every emitted entry, and at it only if a full response ended there |
| LokiPaging.AtMostTwice | pkg/adapter/loki/lokiLogsProvider.go:99-128 | no entry is emitted more than twice in a whole run, and one emitted twice has the latest timestamp of a full response |
| LokiPaging.RequestBound | pkg/adapter/loki/lokiLogsProvider.go:96-129 | at most (end-start)/window + 2D + 1 requests, D being the number of distinct timestamps in the range |
| LokiPaging.RequestsCharged | pkg/adapter/loki/lokiLogsProvider.go:254-262 | the same bound from every start inside a run, without division |
| LokiPaging.EndsIff | pkg/adapter/loki/lokiLogsProvider.go:112-127 | against a server that never fails the loop ends if and only if limit > 0 and (window > 0 or the first window reaches the end) |
| LokiPaging.NeverEnds | pkg/adapter/loki/lokiLogsProvider.go:112-127 | where that condition fails, every request is followed by another one |
| PrometheusPaging.WriteMatrixToChannel | pkg/adapter/prometheus/v1/api.go:170-190 | emits every point of every series in order, or fails if the value is no matrix |
| PrometheusPaging.AsManyAsPoints | pkg/adapter/prometheus/v1/api.go:176-187 | a page emits as many samples as its series have points together |
| PrometheusPaging.EveryPointIsWritten | pkg/adapter/prometheus/v1/api.go:176-187 | point j of series i is emitted at its place, with the node of its series |
| PrometheusPaging.QueryRange | pkg/adapter/prometheus/v1/api.go:120-168 | the loop does exactly the specified run of pages and samples |
| PrometheusPaging.PageByPage | pkg/adapter/prometheus/v1/api.go:128-165 | every page of every run starts where the one before it ended, spans step times size, cut at the end, and is the last one exactly if it reaches the end or is not answered with a matrix |
| PrometheusPaging.RunGathers | pkg/adapter/prometheus/v1/api.go:136-164 | the run emits the samples of its answers, in order, and succeeds if and only if all of them are matrices |
| PrometheusPaging.PagesRefineOneQuery | pkg/adapter/prometheus/v1/api.go:128-165 | against a server whose answers have a point for each evaluated sample: the paged run emits each sample as often as its instant is evaluated, once for each instant start + k*step <= end, twice on a page boundary inside the range, never off the grid |
| PrometheusPaging.PageSplitsTimes | pkg/adapter/prometheus/v1/api.go:129-134 | a page before the last takes over exactly the evaluations that the later pages do not make |
| PrometheusPaging.PageCount | pkg/adapter/prometheus/v1/api.go:128-165 | max(1, ceil((end-start)/(step*size))) pages |
| PrometheusPaging.PagesTile | pkg/adapter/prometheus/v1/api.go:129-164 | pages join without gap, none spans more than size steps, the last ends at the end, and each earlier one is evaluated at size + 1 instants |
| PrometheusPaging.InstantCount | pkg/adapter/prometheus/v1/api.go:136-140 | a page of n steps (and less than one more) is evaluated at n + 1 instants |
| PrometheusPaging.EndsIff | pkg/adapter/prometheus/v1/api.go:128-165 | against a server that fails exactly the invalid queries (no positive step, or an end before the start) the loop ends unless step > 0, size = 0 and start < end |
| PrometheusPaging.EndsAtOnce | pkg/adapter/prometheus/v1/api.go:128-165 | a step or size that is not positive otherwise ends the loop with its first page |
| ArchiveProtocol.InitInv | pkg/usecase/create_archive.go:157-195 | the invariant holds when all goroutines have been started |
| ArchiveProtocol.StepKeepsInv | pkg/usecase/create_archive.go:161-197 | every step of every goroutine keeps the invariant |
| ArchiveProtocol.RunKeepsInv | pkg/usecase/create_archive.go:161-197 | so does every interleaving |
| ArchiveProtocol.KeepsZipIsHanded | pkg/adapter/archive/file/zipFileArchiveRepository.go:95-127 | while the consumer works, the zip holds exactly what the producers handed over, per stream in walk order |
| ArchiveProtocol.KeepsLeftBehindClosed | pkg/adapter/archive/file/zipFileArchiveRepository.go:106-123 | the consumer leaves a stream behind only after its producer closed it |
| ArchiveProtocol.KeepsCancelHasCause | pkg/adapter/archive/file/baseFileRepository.go:215-222 | the shared context is done exactly when a goroutine failed or somebody outside cancelled it, and files are dropped only then |
| ArchiveProtocol.NeverStuck | pkg/usecase/create_archive.go:161-197 | no reachable state is stuck, whoever failed: until Wait returns some goroutine can go on |
| ArchiveProtocol.StepDecreases | pkg/usecase/create_archive.go:161-197 | every step decreases a measure of the remaining work |
| ArchiveProtocol.RunsAreBounded | pkg/usecase/create_archive.go:161-197 | every run is finite |
| ArchiveProtocol.NamesDiffer | pkg/adapter/archive/file/zipFileArchiveRepository.go:129-133 | two different files, of the same or of different collectors, never get the same entry name |
| ArchiveProtocol.SuccessMeansHanded | pkg/adapter/archive/file/zipFileArchiveRepository.go:106-124 | after success the zip holds, once each and in walk order, exactly the files that were not dropped |
| ArchiveProtocol.ClosedUnlessCloseFailed | pkg/adapter/archive/file/zipFileArchiveRepository.go:72-79 | the zip of a consumer that is done is finalized, and saved, if and only if the Close of the zip writer, and that of the zip file, did not fail in the run |
| ArchiveProtocol.History | pkg/usecase/create_archive.go:161-197 | what the flags of any reachable state say about the run: the zip was opened, its removal failed, somebody failed, files were dropped, exactly if the run has such a step |
| ArchiveProtocol.ErrorHasCause | pkg/usecase/create_archive.go:161-197 | the end of the context is never the first thing to go wrong: behind every error is a failure of some goroutine of its own, or a cancellation from outside |
| ArchiveProtocol.ClosedWasCollected | pkg/usecase/create_archive.go:431-442 | a stream is closed only by a producer that found its collector done and finished its walk |
| ArchiveProtocol.RunOutcome | pkg/usecase/create_archive.go:157-204 | over all interleavings and failures, in terms of the steps of the run: it succeeds if and only if no step of any goroutine failed, and an error has a cause; success means a zip with every file of every required collector exactly once and nothing else if and only if no file was dropped, which only a cancellation from outside causes, and that every collector was found done; that zip can be used if and only if, besides, neither the Close of its writer nor that of its file failed; after an error no zip remains unless its removal failed, and the earlier one if none was opened |
| ArchiveProtocol.FailureMeansConsumerFailed | pkg/adapter/archive/file/zipFileArchiveRepository.go:104-124 | the consumer cannot succeed unless every producer closed its stream |
| ArchiveProtocol.SuccessEitherWay | pkg/usecase/create_archive.go:157-204 | for every set of collectors and files all outcomes of success are reached: a usable zip, an unusable one by a failing Close of the writer alone or of the file alone, without any cancellation, and one without any file by a cancellation |
| CollectProtocol.StepKeepsInv | pkg/usecase/create_archive.go:334-355 | every step of collector and repository keeps the invariant |
| CollectProtocol.SucceedsIff | pkg/usecase/create_archive.go:334-355 | a finished run succeeds if and only if no step of collector or repository failed: no collecting, no storing, no marking, no closing, and no end of the context; and an error has another cause than that end |
| CollectProtocol.History | pkg/usecase/create_archive.go:334-355 | what the flags of any reachable state say about the run: storing failed, deleting failed, the marker was written, a send was given up, exactly if the run has such a step |
| CollectProtocol.StoresAPrefix | pkg/adapter/archive/file/baseFileRepository.go:117-138 | without outside cancellation and failing stores the directory is, at every moment, the earlier content followed by a prefix of what the collector sends, in order |
| CollectProtocol.MarkerMeaning | pkg/adapter/archive/file/baseFileRepository.go:40-65 | in every run and at every moment: `.done` exists only if the channel was closed and the repository's store function accepted everything received; it stands for all items if and only if the collector got through them and no send was given up; without outside cancellation the latter is sure, so the marker of a collector that ended without an error is complete |
| CollectProtocol.FailedStoreLeavesNothing | pkg/adapter/archive/file/baseFileRepository.go:151-169 | if storing an item failed and the cleanup worked, directory and marker are gone on return |
| CollectProtocol.StuckIff | pkg/usecase/create_archive.go:334-355 | a reachable state is stuck exactly when a collector that sends without a select is left by its receiver |
| CollectProtocol.CanGetStuckIff | pkg/usecase/create_archive.go:334-355 | which collections have a run that gets stuck: those of a collector that sends without a select and has an item; and, as long as nobody cancels from outside, those with a second item |
| CollectProtocol.SelectNeverStuck | pkg/adapter/archive/file/baseFileRepository.go:215-222 | a collector that sends with a select is never stuck, in any run |
| CollectProtocol.RunsAreBounded | pkg/usecase/create_archive.go:339-349 | every run is finite, whoever fails whenever |
| CollectProtocol.MarkedAlthoughFailed | pkg/adapter/collector/logs.go:23-32 | a collector that fails closes its channel first, and so can be marked done without having delivered anything |
| CollectProtocol.LeftByFailedStore | pkg/adapter/prometheus/v1/api.go:179-186 | for every such collector with two items: the run in which storing the first one fails while it sends the second |
| CollectProtocol.LeftByCancellation | pkg/adapter/archive/file/baseFileRepository.go:117-121 | for every such collector with an item: the run in which the receiver sees the end of the context first |
| CollectProtocol.InterruptedPartStays | pkg/adapter/archive/file/baseFileRepository.go:117-121 | per collection: an interrupted run may leave, without a marker, the earlier content and any prefix of the items, and nothing else |
| CollectProtocol.SomethingStaysIff | pkg/adapter/archive/file/baseFileRepository.go:117-121 | so it may leave something if and only if there was earlier content or an item |
| WorkTree.FileSystem.RemoveAll | pkg/adapter/archive/file/baseFileRepository.go:82 | removes all it can of a subtree, keeping what cannot be removed and the directories above that; succeeds exactly if nothing stays and no file stands above, also if there was nothing |
| WorkTree.FileSystem.ReadDir | pkg/adapter/archive/file/baseFileRepository.go:92 | the direct entries of an existing directory |
| WorkTree.FileSystem.Remove | pkg/adapter/archive/file/baseFileRepository.go:98 | removes a file or an empty directory only |
| WorkTree.DeleteCollector | pkg/adapter/archive/file/baseFileRepository.go:79-112 | Delete of one collector: succeeds exactly if the subtree can be removed, and then prunes upwards; the loop terminates and keeps the tree well formed |
| WorkTree.PruneIsSafe | pkg/adapter/archive/file/baseFileRepository.go:88-109 | whatever fails, pruning removes nothing but ancestors it found empty, never the work path |
| WorkTree.PruneExactly | pkg/adapter/archive/file/baseFileRepository.go:88-109 | whatever cannot be removed or listed: pruning removes exactly the ancestors that have nothing under them but the chain and no broken directory on it |
| WorkTree.DeleteIsSafe | pkg/adapter/archive/file/baseFileRepository.go:79-112 | whatever fails, Delete removes only its own directory and ancestors of it below the work path, and never a directory that keeps an entry |
| WorkTree.DeleteExactly | pkg/adapter/archive/file/baseFileRepository.go:79-112 | whatever is broken: an entry goes if and only if it lies in the collector's directory and neither it nor an entry below it has to stay, or, if all of the directory goes, is an ancestor below the work path with nothing else under it, the directory's parent exists, and nothing on the chain is broken (which covers two-level directories such as Resources/Secrets) |
| WorkTree.DeleteOneMore | pkg/adapter/archive/file/baseFileRepository.go:79-112 | deleting one more collector turns the closed form for a set of collectors into that for the larger set, so the order cannot matter |
| WorkTree.DeleteCollectorData | pkg/usecase/delete_archive.go:23-31 | deletes all collectors in whatever order the map is ranged over, with failures that may come and go between them: there are as many errors as collectors whose data cannot be deleted completely; in each collector's directory just that is left which cannot be removed, so nothing if there is no error; nothing outside the archive and its namespace directory is lost; without failures the final tree is one and the same closed form |
| WorkTree.OthersUnaffected | pkg/usecase/delete_archive.go:25-31 | deleting one collector, whatever fails, loses nothing in the directory of another one |
| WorkTree.DeleteArchive | pkg/usecase/delete_archive.go:23-39 | the whole use case: whatever fails, only the archive's data, its zip and its two namespace directories lose anything, and the zip goes if it can be removed, however much of the data stays; there is an error for every collector whose data cannot be deleted completely, and without an error neither data nor zip is left |
| WorkTree.OtherArchivesKeepAll | pkg/usecase/delete_archive.go:23-39 | whatever fails, data and zip of every other archive stay |
| WorkTree.DeleteArchiveExactly | pkg/usecase/delete_archive.go:23-39 | the whole use case without faults: an entry goes if and only if it belongs to the archive's data, is its zip, or is one of the two namespace directories that held nothing else |
| WorkTree.UnremovableStays | pkg/adapter/archive/file/baseFileRepository.go:79-112 | what cannot be removed stays, whatever else goes |
| WorkTree.RetryCleansUp | pkg/usecase/delete_archive.go:25-31 | after an incomplete deletion a later one without faults still leaves nothing of the archive's data |
| WorkTree.NothingOfTheArchiveRemains | pkg/usecase/delete_archive.go:23-31 | if the archive's content lies in collector directories, exactly its entries go, plus the namespace directory if this archive was all it held |
| WorkTree.NamespaceGoneIff | pkg/usecase/delete_archive.go:23-31 | the namespace directory disappears exactly when the archive has a directory and no other entry uses the namespace |
| WorkTree.RemainderWellFormed | pkg/usecase/delete_archive.go:23-31 | what is left is a tree again |
| WorkTree.DeleteZip | pkg/adapter/archive/file/zipFileArchiveRepository.go:143-178 | deleting a zip: its file, then its namespace directory if that is left empty; it succeeds if and only if there is a file that can be removed and the directory can be listed, and be removed if it is empty; then the zip is gone |
| WorkTree.RemoveDirIfEmpty | pkg/adapter/archive/file/zipFileArchiveRepository.go:161-178 | removes a directory that is empty; fails if it cannot be listed, or is empty and cannot be removed |
| WorkTree.DeleteZipExactly | pkg/adapter/archive/file/zipFileArchiveRepository.go:143-178 | an entry goes if and only if it is the zip, or the namespace directory with nothing else in it |
| Reconcile.CreateArchiveUseCase.GetAlreadyExecutedCollectors | pkg/usecase/create_archive.go:357-380 | exactly the required collectors that are done, in any map order; fails exactly if one of them cannot be checked |
| Reconcile.CreateArchiveUseCase.DeleteUnusedRepositoryData | pkg/usecase/create_archive.go:143-155 | deletes the data of the executed collectors that are not required, as far as that works |
| Reconcile.CreateArchiveUseCase.GetCollectorTypesToExecute | pkg/usecase/create_archive.go:382-399 | exactly the required collectors that are not completed |
| Reconcile.CreateArchiveUseCase.HandleArchiveRequest | pkg/usecase/create_archive.go:77-127 | one call, with every failure: the new state and the outcome, for some missing collector that the map order puts first |
| Reconcile.RequiredIff | pkg/usecase/create_archive.go:35-57 | a collector is required exactly if its own flag does not exclude it |
| Reconcile.ErrorIff | pkg/usecase/create_archive.go:77-127 | a call fails exactly if what is there cannot be found out, or the collector, the build or the publication that it attempts fails |
| Reconcile.RequeueIff | pkg/usecase/create_archive.go:117-126 | a call asks for a requeue exactly if it ran a missing collector without an error |
| Reconcile.CallChanges | pkg/usecase/create_archive.go:77-127 | a call changes a marker only by running a missing collector, the zip only by building a missing one, the download path only by publishing the zip just built, and nothing otherwise |
| Reconcile.NothingIsCleanedUp | pkg/usecase/create_archive.go:89-90 | whatever fails, no run of calls ever removes a marker or a zip: the cleanup of unused data never deletes anything |
| Reconcile.NeverReruns | pkg/usecase/create_archive.go:92-117 | whatever fails, a run executes only required collectors that were not done at its start |
| Reconcile.RequeuesAreBounded | pkg/usecase/create_archive.go:126 | whatever fails, no more requeues than collectors were missing |
| Reconcile.Convergence | pkg/usecase/create_archive.go:77-127 | from every state, with error-free calls: exactly the missing collectors run, once each, with one requeue each; then the zip is built, once and only if there was none; every later call changes nothing |
| Reconcile.StaysSettled | pkg/usecase/create_archive.go:109-112 | a finished archive stays as it is |
| Reconcile.LostUrlStaysLost | pkg/usecase/create_archive.go:97-112 | if publishing the download path failed after the zip was built, no later call publishes it |
| Reconcile.LeftoverIsTakenForTheArchive | pkg/adapter/archive/file/zipFileArchiveRepository.go:60-69 | a broken zip that could not be removed is taken for the archive by every later call |
| Reconcile.MarkedFailureIsFinal | pkg/usecase/create_archive.go:117-124 | a collector that failed and was marked done is never run again, and later error-free calls build the zip without its data |
| GarbageCollection.GetCompletedArchives | pkg/usecase/garbage_collection.go:93-115 | the archives whose zip exists, in list order; a failing check counts as missing and as one error |
| GarbageCollection.CompletedIff | pkg/usecase/garbage_collection.go:93-115 | completed is an archive exactly if it is listed and its zip was found |
| GarbageCollection.SortByCreation | pkg/usecase/garbage_collection.go:122-124 | an order by creation time, in which equal times may come in any order |
| GarbageCollection.GetOldestArchivesExcludingTheOnesToKeep | pkg/usecase/garbage_collection.go:117-128 | selects all but the newest `keep` of some such order |
| GarbageCollection.KeepsTheNewest | pkg/usecase/garbage_collection.go:117-128 | exactly max(0, m - keep) are selected, and for every selected one at least `keep` others at least as new are not |
| GarbageCollection.SelectedIff | pkg/usecase/garbage_collection.go:117-128 | an archive is selected in every order by age if and only if at least `keep` completed ones are newer, and in none if and only if at most `keep`, itself included, are not older; no assumption on creation times |
| GarbageCollection.SelectedWithDistinctTimes | pkg/usecase/garbage_collection.go:117-128 | with distinct creation times that decides every selection |
| GarbageCollection.ShrinksIff | pkg/usecase/garbage_collection.go:117-128 | a selection among fewer archives is contained in every one among all if and only if each of the fewer is selected in none of theirs or in all of the others |
| GarbageCollection.DeterminedIff | pkg/usecase/garbage_collection.go:122-127 | the selection is the same whatever the sort does with ties if and only if no tie lies across the cut |
| GarbageCollection.FailedChecksOnlyShrink | pkg/usecase/garbage_collection.go:101-110 | exactly when failing Exists checks can only shrink the selection; distinct creation times suffice |
| GarbageCollection.TiesMayFlip | pkg/usecase/garbage_collection.go:122-127 | for every list and number to keep: an archive between the two bounds is selected in one order and spared in another |
| GarbageCollection.Cluster.DeleteArchives | pkg/usecase/garbage_collection.go:130-149 | the data of an archive is deleted only after its resource was; failures of single archives leave the others alone |
| GarbageCollection.EnoughAreSpared | pkg/usecase/garbage_collection.go:87-128 | a deletion confined to the selected archives spares at least min(keep, completed) archives with resource and zip |
| GarbageCollection.Cluster.CollectGarbage | pkg/usecase/garbage_collection.go:71-85 | one round, whatever checks and deletions fail: exactly the selected archives lose resource and zip, as far as that works, and the round succeeds if and only if no check and no deletion failed; every archive that was not selected keeps its resource and its zip, and at least min(keep, completed) archives have both afterwards |
| ArchiveAgreement.Diff | pkg/usecase/sync_archives.go:104-121 | the stored archives without a descriptor |
| ArchiveAgreement.Operator.SyncArchives | pkg/usecase/sync_archives.go:73-102 | one round with any list, also of archives that are not stored, and failing deletions: exactly the listed zips without a resource go, a resource in the namespace protects its zip, and after an error-free round zips and resources agree if and only if every zip without a resource was listed |
| ArchiveAgreement.LivingStep | pkg/usecase/sync_archives.go:73-102 | no single step of sync, garbage collection, reconciler or user dooms an archive whose resource lives |
| ArchiveAgreement.LivingArchiveKeepsZip | pkg/usecase/sync_archives.go:73-102 | over every interleaving, the zip of an archive whose resource lives through the run is never deleted |
| ArchiveAgreement.SafeIff | pkg/usecase/sync_archives.go:73-102 | from every state, no run through which an archive's resource lives deletes its zip if and only if the archive is in the operator's namespace and nobody has already decided to delete its data |
| ArchiveAgreement.RecreatedIsDoomed | pkg/usecase/garbage_collection.go:133-142 | the race that reaches such a decision: garbage collection or the reconciler decides while the resource is gone, and one of the same name is created before the data is deleted |
| ArchiveAgreement.SyncSparesLiving | pkg/usecase/sync_archives.go:84-96 | sync itself never deletes the zip of a living archive of its namespace, whatever the others have decided |
| ArchiveAgreement.ZipHistory | pkg/usecase/sync_archives.go:73-102 | over every interleaving a zip comes only from being built and goes only by a deletion, of one of the three actors, that worked |
| ArchiveAgreement.ResourceHistory | pkg/usecase/garbage_collection.go:130-149 | likewise a resource comes only from being created and goes only by a deletion of a user or of garbage collection |
| ArchiveAgreement.DoomHistory | pkg/usecase/garbage_collection.go:130-149 | over every interleaving nobody is about to delete an archive's data without a decision in the run: a resource found missing, deleted by garbage collection, or not listed by sync |
| ArchiveAgreement.EachSelectedIsTried | pkg/usecase/garbage_collection.go:130-149 | whoever else is at work and whatever fails, a collection tries to delete every selected archive before it ends |
| ArchiveAgreement.CollectionTakesSelected | pkg/usecase/garbage_collection.go:130-149 | an undisturbed collection takes exactly the selected archives, resource and zip |
| ArchiveAgreement.Operator.SyncStore | pkg/usecase/sync_archives.go:77-102 | a round on what List finds: without an error zips and resources agree afterwards if and only if the walk found every zip without a resource, which it does if all stored archives are listable |
| ArchiveAgreement.RoundDeletesForeignZip | pkg/usecase/sync_archives.go:77-96 | the round that deletes the zip of a living archive of another namespace |
| ArchiveAgreement.QuietRoundAgrees | pkg/usecase/sync_archives.go:89-96 | an undisturbed, error-free round ends with exactly the zips that have a resource, in any order of deletion |
| NodeInfo.NodeInfoRepository.CreateNodeInfo | pkg/adapter/archive/file/nodeInfoFileRepository.go:47-78 | appends one row to its metric's file, after a header if the file was not open, and touches no other metric or archive |
| NodeInfo.NodeInfoRepository.Close | pkg/adapter/archive/file/nodeInfoFileRepository.go:95-117 | flushes, as far as that works, and closes everything of one archive, and leaves the handles and buffers of every other archive alone; it reports errors of closing files but not of flushing |
| NodeInfo.NodeInfoRepository.MarkDone | pkg/adapter/archive/file/nodeInfoFileRepository.go:87 | `.done` is written only when no buffer of the archive is left |
| NodeInfo.NodeInfoRepository.FinishCollection | pkg/adapter/archive/file/nodeInfoFileRepository.go:80-93 | closes, then marks, also if closing reported an error |
| NodeInfo.NodeInfoRepository.HandleCreateErr | pkg/adapter/archive/file/baseFileRepository.go:151-169 | closes everything of the archive and, if the deletion works, deletes it; nothing else changes |
| NodeInfo.NodeInfoRepository.Receive | pkg/adapter/archive/file/nodeInfoFileRepository.go:47-78 | for every interleaving of metrics and every buffering, up to the first sample that cannot be stored: each metric has its earlier content, a header if it was not open, and exactly its rows in order; everything is stored exactly if no sample meets a fault |
| NodeInfo.NodeInfoRepository.ReceiveOne | pkg/adapter/archive/file/nodeInfoFileRepository.go:47-78 | one more sample: its metric grows by its row, every other keeps what it has; it is stored exactly if no fault is met, and opening faults are met only by the first sample of a metric that is not open |
| NodeInfo.NodeInfoRepository.Create | pkg/adapter/archive/file/nodeInfoFileRepository.go:41-43 | for every place of failure, of flushing, closing, marking and deleting too: after an ok stream each metric's file and what its flush lost are together the earlier content, a header if it was not open, and exactly that metric's rows in order, and the file is complete if and only if its flush got through all buffered rows, which does not influence the result; after a failure nothing of the archive is left if deleting worked; other archives are never touched |
| NodeInfo.CompleteIffNothingLost | pkg/adapter/archive/file/nodeInfoFileRepository.go:95-102 | rows that a flush loses are missing at the end of the file, and only there |
| NodeInfo.LosesTheLast | pkg/adapter/archive/file/nodeInfoFileRepository.go:95-102 | a flush loses the rows behind those it gets through, so none exactly if it gets through all |
| NodeInfo.SilentLoss | pkg/adapter/archive/file/nodeInfoFileRepository.go:98 | a collection that returns no error and is marked although its row never reached the file |
| NodeInfo.FreshFile | pkg/adapter/archive/file/nodeInfoFileRepository.go:53-72 | from nothing, a metric's file is one header and its rows, and a metric without rows has none |
| NodeInfo.GoesOnBehind | pkg/adapter/archive/file/nodeInfoFileRepository.go:53-72 | what a file holds is kept: a closed one goes on with another header, an open one without |
| NodeInfo.EverySampleHasItsRow | pkg/adapter/archive/file/nodeInfoFileRepository.go:71-75 | the sample at position i has its row, with node, value and time, behind those of the earlier samples of its metric |
| NodeInfo.RowsAddUp | pkg/adapter/archive/file/nodeInfoFileRepository.go:71-75 | the row counts of all metrics add up to the length of the stream |
| NodeInfo.RowsOfAppend | pkg/adapter/archive/file/nodeInfoFileRepository.go:71-75 | the rows of a metric follow the stream wherever it is cut |
| LogFile.SingleLogFileRepository.CreateLog | pkg/adapter/archive/file/singleLogFileRepository.go:35-61 | appends one line, after the header if the file was not open |
| LogFile.SingleLogFileRepository.Close | pkg/adapter/archive/file/singleLogFileRepository.go:63-81 | closes and forgets the file of one archive and no other; reports an unusable file and an error of closing |
| LogFile.SingleLogFileRepository.Create | pkg/adapter/archive/file/singleLogFileRepository.go:31-33 | for every place of failure, of closing, marking and deleting too: the file holds its earlier content and the lines in order of arrival, or nothing of the archive is left if deleting worked; it stays open if the context ends or the marker cannot be written |
| LogFile.FreshFile | pkg/adapter/archive/file/singleLogFileRepository.go:49-57 | from nothing, the file is one header and the lines |
| LogFile.SecondRunAppends | pkg/adapter/archive/file/singleLogFileRepository.go:45 | a later run goes on behind what is there, with a second header exactly if the file had been closed |
| LogFile.ReadsBackIff | pkg/adapter/archive/file/singleLogFileRepository.go:55-58 | the stored text can be read back as the received lines if and only if none of them contains a newline |
| ZipCreation.ZipRepository.CopyItems | pkg/adapter/archive/file/zipFileArchiveRepository.go:104-126 | receives and copies items up to the first failure, keeping the readers it opened |
| ZipCreation.ZipRepository.CloseReaders | pkg/adapter/archive/file/zipFileArchiveRepository.go:97-102 | closes every reader opened so far, once, in order |
| ZipCreation.ZipRepository.RangeOverStream | pkg/adapter/archive/file/zipFileArchiveRepository.go:95-127 | the actions of one stream for every exit: closed stream, end of the context, failing constructor, entry or copy |
| ZipCreation.ZipRepository.Create | pkg/adapter/archive/file/zipFileArchiveRepository.go:47-89 | the actions of the whole creation and whether it succeeds |
| ZipCreation.ReadersConserved | pkg/adapter/archive/file/zipFileArchiveRepository.go:95-127 | on every exit each opened reader is closed exactly once, after it was opened, and no other is |
| ZipCreation.AllReadersConserved | pkg/adapter/archive/file/zipFileArchiveRepository.go:81-86 | the same over all streams of a Create |
| ZipCreation.CreateOrder | pkg/adapter/archive/file/zipFileArchiveRepository.go:60-80 | the zip is opened first; its writer is closed before the file, after every reader, and both before a failed archive is removed, which happens exactly on failure and last |
| ZipCreation.SuccessWritesEverything | pkg/adapter/archive/file/zipFileArchiveRepository.go:81-86 | a Create that succeeds has written every received item in full, in order, under its collector's name |
| ZipCreation.SucceedsIff | pkg/adapter/archive/file/zipFileArchiveRepository.go:106-124 | a Create succeeds if and only if every received item of every stream is copied and every stream ends by being closed, not by the end of the context |
| ZipCreation.OpenedIff | pkg/adapter/archive/file/zipFileArchiveRepository.go:109-117 | a reader is opened if and only if all items before its own were copied and its constructor works |
| ZipCreation.EntriesAreOfOpened | pkg/adapter/archive/file/zipFileArchiveRepository.go:109-141 | every entry written is that of an opened item, under its name, and complete if and only if it was copied |
| ZipCreation.AsManyAsItems | pkg/adapter/archive/file/zipFileArchiveRepository.go:109-133 | there are as many names as received items |
| ZipCreation.EveryItemIsNamed | pkg/adapter/archive/file/zipFileArchiveRepository.go:129-133 | and item j of stream s has its name at its place, in its collector's directory |
| ArchivePaths.PathIsLocation | pkg/adapter/archive/file/zipFileArchiveRepository.go:219-221 | an archive's path leads from the root through the namespace to the name, step by step |
| ArchivePaths.DeletesWhatWasCreated | pkg/adapter/archive/file/zipFileArchiveRepository.go:147-148 | Delete removes the very file that Create writes and Exists looks for, for every id |
| ArchivePaths.ParsesWhatMatches | pkg/adapter/archive/file/zipFileArchiveRepository.go:194 | greedy matching finds the groups of the pattern exactly when they are there: they are unique |
| ArchivePaths.FindIsLeftmost | pkg/adapter/archive/file/zipFileArchiveRepository.go:194-205 | what the pattern finds in a path is its leftmost match, wherever that begins |
| ArchivePaths.RoundTrip | pkg/adapter/archive/file/zipFileArchiveRepository.go:193-221 | the List pattern applied to getArchivePath(id) yields id if and only if the namespace is a plain path element and the name is non-empty without '/' and '.' |
| ArchivePaths.FoundIsListable | pkg/adapter/archive/file/zipFileArchiveRepository.go:200-211 | whatever the pattern finds in an archive's path is such an id |
| ArchivePaths.PathsDiffer | pkg/adapter/archive/file/zipFileArchiveRepository.go:219-221 | distinct ids whose namespace and name are plain path elements have distinct paths, dotted names included |
| ArchivePaths.PathShared | pkg/adapter/archive/file/zipFileArchiveRepository.go:219-221 | other ids can share a path |
| ArchivePaths.SpecialNamespaces | pkg/adapter/archive/file/zipFileArchiveRepository.go:219-221 | the empty namespace and "." vanish from a path, and ".." leads beside the archives directory |
| ArchivePaths.PathsAgreeWithTheTree | pkg/adapter/archive/file/zipFileArchiveRepository.go:147-148 | the zip that the deletion on the tree removes is the file of the archive's path |
| ArchivePaths.DottedName | pkg/adapter/archive/file/zipFileArchiveRepository.go:194 | what the pattern makes of a name with a dot: the part before the first dot if "zip" follows it, otherwise no match |
| ArchivePaths.VisitEntry | pkg/adapter/archive/file/zipFileArchiveRepository.go:199-214 | the callback: appends what it finds, stops the walk on an error or a file that does not match |
| ArchivePaths.List | pkg/adapter/archive/file/zipFileArchiveRepository.go:193-217 | the ids found up to the first stop, and whether there was one; without an archives directory it panics |
| ArchivePaths.SucceedsIff | pkg/adapter/archive/file/zipFileArchiveRepository.go:199-214 | List completes if and only if no visit failed and every visited file matches the pattern |
| ArchivePaths.ListsExactlyIff | pkg/adapter/archive/file/zipFileArchiveRepository.go:193-217 | for a complete walk in any order over a store of archives: List returns exactly the stored ids, each once and without error, if and only if all of them are of that kind |
| ArchivePaths.ListedIsListable | pkg/adapter/archive/file/zipFileArchiveRepository.go:203-211 | nothing else is ever listed, even if the walk stops early |
| ArchivePaths.UnseenBehindTheStop | pkg/adapter/archive/file/zipFileArchiveRepository.go:199-214 | behind the first file that the pattern does not match no archive is listed |
| ArchivePaths.ListedIffExists | pkg/adapter/archive/file/zipFileArchiveRepository.go:180-191 | on such a store an id is listed if and only if Exists accepts it |
| CensorYaml.CensorYaml | pkg/adapter/collector/secrets.go:89-103 | in place: every scalar in a value position becomes the mask, every other value stays; keys, kinds, children, aliases and all other nodes are outside its frame |
| CensorYaml.CensorMapping | pkg/adapter/collector/secrets.go:93-97 | the same for a mapping, which masks behind every second child only |
| CensorYaml.CensorYamlNode | pkg/adapter/collector/secrets.go:105-109 | the same for documents and sequences, which mask behind every child |
| CensorYaml.CensorYamlTwice | pkg/adapter/collector/secrets.go:89-103 | running it twice equals running it once |
| CensorYaml.ShapeKept | pkg/adapter/collector/secrets.go:89-103 | as kinds and children are kept, so is what is in a value position |
| CensorYaml.ExposesIff | pkg/adapter/collector/secrets.go:89-109 | masked are exactly the scalars at the end of a path through value positions |
| Domain.DirsApart | pkg/adapter/archive/file/secretsFileRepository.go:13 | no collector directory lies inside another one |
| Domain.EntryNameInjective | pkg/adapter/archive/file/zipFileArchiveRepository.go:130 | a zip entry name determines the collector and the file |

## Left out

- LokiPaging.FindLogs: the context of the log query is not cancelled during the run (the protocol in CollectProtocol covers given-up sends), and `limit` is not negative.
- LokiPaging.WriteResponse: times outside the years 1678 to 2262, where nanoseconds do not fit 64 bits, and overflow of 64-bit durations are not modelled.
- PrometheusPaging.QueryRange: overflow of step times page size is not modelled; `+Inf`, `NaN` and float rounding of sample values are not either.
- PrometheusPaging.QueryRange: a method must end, so its contract leaves out the inputs with which the loop never does (and LokiPaging.FindLogs likewise); NeverEnds and EndsIff are about those.
- ArchiveProtocol.RunOutcome: collectors of the wrong type in the mapping, which make createArchive return before it waits, are not modelled; the files of a collector do not change while they are streamed.
- ArchivePaths.Exists: errors of Stat other than a missing file.
- ArchiveAgreement.SafeIff: a resource that is being deleted, but still has its finalizer, counts as deleted.
- WorkTree.DeleteZip: the resources' finalizer and the controller that calls it are not part of this model.
- NodeInfo.NodeInfoRepository.Create: a flush that fails loses whole rows; half a row, and CSV quoting, are not modelled.
- LogFile.SingleLogFileRepository.Create: a deletion that fails keeps the file as a whole or not at all.
- WorkTree.DeleteCollectorData: what is broken may change between two collectors, not while the data of one is being deleted.
- GarbageCollection.SortByCreation: the library sorts in place with an algorithm of its own; here any order it may produce, computed on values.
- GarbageCollection.GetOldestArchivesExcludingTheOnesToKeep: a negative number to keep, with which the slice expression of the source reaches beyond the list.
- GarbageCollection.Cluster.CollectGarbage: an error of listing the resources, which ends the round at once.
- Reconcile.CreateArchiveUseCase.HandleArchiveRequest: two calls for one archive at the same time; status conditions and their retries, except that publishing the download path may fail.
- CensorYaml.CensorYaml: a mapping with an odd number of children, which the YAML parser does not produce and on which the code would fail with an index out of range; the fallback that censors a secret whose annotation does not parse.
- The repositories for volumes, secrets, events and system state: they store one file per item and overwrite it; only the shared protocol is modelled.
- The collectors themselves: producers of a sequence of items.
- HTTP, JSON and YAML encoding, query strings, the Prometheus and Kubernetes clients, the ZIP format, file permissions and time formatting.
- Tickers and interval loops: one round is one step; main, configuration and logging.
