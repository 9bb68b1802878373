# CodeArtifact import pipeline — a Dafny model

This project models the sequential core of a small Go service that copies
the package-version listings of an AWS CodeArtifact domain into a
RethinkDB table and serves them over HTTP. The model covers six parts:

- **Registry adapter (src/aux.go).** The SDK's summary records, which the adapter returns, and three loops that follow continuation tokens:
  - `AllPackageVersions` and `AllPackagesInRepo` concatenate the pages.
  - `AllRepos` redeclares its accumulator inside the loop. Because of that, the token it sends never advances.
- **Producers and batch accumulator (src/import.go).**
  - `Versions` and `Packages` turn listings into artifacts and package pairings. On a listing error they send a single error-only value.
  - `BatchArtifacts` groups artifacts into batches of the page size, and also sends a partial batch after five idle seconds.
  - `insertBatch` refuses any batch that holds an errored artifact.
  - `LoadArtifacts` skips the repositories named in the configuration.
- **The entry point's copies of the producers (app.go).** They use the flat record layout and key each artifact by `namespace:package:version`.
- **The document store (src/storage.go).**
  - the filter that `artifactsQuery` selects;
  - the per-record error vector of `Insert`, whose conflict policy keeps the new document;
  - the three outcomes of `List`;
  - that file's own status list.
- **The configuration helpers (src/config.go).**
- **The record types (src/domain.go).**

The model keeps both record layouts, as the source does:
- `Domain.Artifact` embeds an `ArtifactId`.
- `Storage.Artifact` is flat and carries a string `id`.

External systems and time are replaced by explicit inputs:
- **Registry:** a script of replies, the reply to the first request, then the second, and so on. Each reply is either a page or an error.
  - A loop that still wants a page after the script runs out "has not returned" (`returned == false`). This is how the model shows a loop that never ends.
- **Goroutine channels:** a `Stream`, i.e. the values sent plus whether the channel was closed.
- **Batch accumulator:** a step function over a trace of `Recv`, `Timeout` (the five-second timer firing) and `Close` events.
- **Database driver:** failures are parameters: one optional error per write, and a fault for `List`.
- **Wall clock:** a `now` parameter.

Where a loop or `select` of the source is modelled, the model does what the
code does, even where that differs from what the surrounding code evidently intends.
For each such place, a corrected definition sits next to the as-written
one, and "## Findings" lists them. The producers, `insertBatch` and `List`
use the as-written definitions. The composition lemmas of `Ingest` state
the per-package flow both ways:
- `InsertSteps` uses the as-written accumulator.
- `InsertStepsFlushing` uses the corrected accumulator.

Modules: `Prelude` (shared wrappers, `Flatten`), `Domain`, `Config`,
`Registry`, `Batcher`, `Ingest`, `Storage`, `App`, one file each.

## Model

| member | source | states |
|---|---|---|
| Domain.ArtifactIdEquality | src/domain.go:8-12 | two artifact identities are equal iff namespace, package and version are all equal |
| Domain.StatusIsOpen | src/domain.go:26-27 | any string converts to a status with that name; a name outside the six constants gives a status not in `AllStatuses` |
| Domain.AllStatusesListsEachOnce | src/domain.go:29-45 | the list has six entries; a status is in it iff it is one of the six declared constants; no entry repeats |
| Domain.ErrorPackage | src/import.go:106-107 | the package sent on a listing error is well formed (error only, no summaries) and carries that error |
| Domain.PairedPackage | src/import.go:115-119 | the package sent per summary is well formed, has no error, and pairs exactly that repository and that summary |
| Domain.ErrorArtifact | src/import.go:127-128 | the artifact sent on a listing error has every field at its zero value except the error, which is the listing's |
| Config.AwsPageSize | src/config.go:21-24 | the registry page size equals the configured page size (a widening conversion loses nothing) |
| Config.Skip | src/config.go:26-33 | a name is skipped iff it is an element of the skip list |
| Config.Listed | src/config.go:27-32 | the scan returns true iff some index of the list holds exactly the name |
| Config.SkipEmptyList | src/config.go:27-32 | with an empty skip list no name is skipped |
| Config.SkipIsExact | src/config.go:28 | with the default list "maven-central" and "maven-central-store" are skipped, but the prefix "maven", the fragment "central" and the extension "maven-central-store-2" are not |
| Config.WithTableName | src/config.go:45-49 | the copy has the new table name and every other field of the receiver |
| Config.WithDbNAme | src/config.go:51-55 | the copy has the new database name and every other field of the receiver |
| Config.BuildersCommuteAndOverwrite | src/config.go:45-55 | the two builders commute; building twice keeps only the last value; setting the current value changes nothing |
| Batcher.Run | src/import.go:77-99 | once the input has closed no further event changes anything, and batches already sent are never retracted; the size and record invariants of a whole trace are `Batcher.RunKeepsInv` and `Batcher.Conservation` |
| Batcher.BatchArtifacts | src/import.go:72-102 | the batches the output channel carries for a trace from the empty start: each holds between one and max(n,1) records; which records they hold is stated by `Batcher.Conservation` and `Batcher.ReceiveAllThenClose` |
| Batcher.Step | src/import.go:77-98 | after the input has closed nothing changes; otherwise one event sends at most one batch and never retracts an earlier one |
| Batcher.StepKeepsInv | src/import.go:84-97 | one event keeps the pending batch below the threshold and every sent batch well sized |
| Batcher.RunKeepsInv | src/import.go:77-99 | a whole trace keeps the same invariant |
| Batcher.BatchSizes | src/import.go:84-97 | every sent batch is non-empty, has at most max(n,1) records, and is not a close-time batch; a size-triggered batch has exactly max(n,1) records; an idle batch has fewer |
| Batcher.Conservation | src/import.go:79-91 | the size-triggered batches, concatenated, followed by the pending records are exactly the records received before close, in order |
| Batcher.ReceiveAllThenClose | src/import.go:79-91 | for n ≥ 1 and L receives then close: L/n batches of n records, together the first L − L mod n inputs in order; the last L mod n stay pending and are never sent |
| Batcher.NonPositiveSizeSendsSingletons | src/import.go:84-90 | with batch size ≤ 0 every received record is sent alone, in order |
| Batcher.RunWithoutTimeoutsIsFull | src/import.go:84-91 | a trace without idle timeouts sends only size-triggered batches |
| Batcher.TimeoutKeepsPending | src/import.go:92-97 | an idle timeout with nothing pending changes nothing; with records pending it sends them and keeps them pending |
| Batcher.NextBatchStartsWithPending | src/import.go:84-97 | whatever is pending is a prefix of the next batch sent, so records of an idle batch are sent again |
| Batcher.TimeoutRedelivers | src/import.go:92-97 | with size 3, receiving 1, an idle timeout, then 2 and 3 sends [1] and then [1, 2, 3] |
| Batcher.CloseDropsPending | src/import.go:79-82 | with size 3, receiving 1 and 2 and then closing sends nothing, though both records were taken from the input |
| Batcher.RunFlushing | src/import.go:77-99 | corrected run: once closed nothing changes and sent batches are never retracted; `Batcher.FlushingDeliversEveryRecord` relates its output to the records received |
| Batcher.BatchArtifactsFlushing | src/import.go:72-102 | corrected output channel: each batch holds between one and max(n,1) records; `Batcher.FlushingSendsEverything` states that together they are the input |
| Batcher.StepFlushing | src/import.go:77-98 | corrected step: closed is absorbing; one event sends at most one batch and keeps earlier ones |
| Batcher.StepFlushingConserves | src/import.go:79-97 | corrected step: the received record, if any, is appended to the sent-then-pending records; after close nothing is pending |
| Batcher.FlushingDeliversEveryRecord | src/import.go:79-97 | corrected accumulator: once closed, all sent batches concatenated are exactly the records received before close, each batch of 1 to max(n,1) records |
| Batcher.FlushingSendsEverything | src/import.go:79-97 | corrected accumulator: receives followed by close are sent completely, in order, in batches of 1 to max(n,1) records |
| Batcher.FlushingSendsTailOnClose | src/import.go:79-82 | corrected accumulator: with size 3, receiving 1 and 2 and then closing sends one final batch [1, 2] |
| Registry.Collect | src/aux.go:34-64 | each request carries the previous page's token (the first carries the start's); the loop returns exactly when a reply is an error or a page without a token; the output holds the start's items followed by every page's items in order, the last page's metadata and token, and the ending error |
| Registry.AllPackageVersions | src/aux.go:24-66 | the accumulation promise above from an empty output; the first request has no token; every request asks for the configured page size of this package, namespace, format, repository and domain |
| Registry.AllPackagesInRepo | src/aux.go:68-97 | the same accumulation promise for packages; every request asks for the page size in this repository and domain, with no prefix |
| Registry.CompleteListingReturnsAllPages | src/aux.go:51-63 | when every page arrives and only the last lacks a token, the loop sends one request per page and returns every item of every page, in order, without error |
| Registry.ReposLoop | src/aux.go:106-125 | every request carries the outer output's token; the loop returns only on an error or a token-less page; on error it returns the outer output unchanged; on success only the last page's items after the outer items |
| Registry.AllRepos | src/aux.go:100-126 | every request has no token and the page size; on error the list is empty; on success it holds only the final page's repositories |
| Registry.AllReposNeverReturns | src/aux.go:106-125 | against a registry that answers the first-page request with a token, n replies give n requests and no return, for every n |
| Registry.AllReposKeepsOnlyLastPage | src/aux.go:117-124 | pages [a] with a token and then [b] without give [b] only, after two token-less requests |
| Registry.AllReposFixed | src/aux.go:100-126 | corrected loop: the accumulation and token-chaining promises of the other two loops, for repositories |
| Ingest.VersionArtifacts | src/import.go:135-155 | one artifact per version summary in order, each normalized: identity from package and version, revision and status from the version, repository name, domain and format from the pair, no error or problems, the given time |
| Ingest.Versions | src/import.go:125-157 | closes iff the listing returns; on a listing error sends exactly one error-only artifact with that error; on success one normalized artifact per listed version, in order; sends nothing while the listing has not returned |
| Ingest.CompleteListingGivesEveryVersion | src/import.go:125-157 | a complete listing gives one error-free artifact per version of every page, in page order, and closes |
| Ingest.Packages | src/import.go:104-123 | closes iff the listing returns; every package sent is well formed; on error exactly one error-only package; on success one pairing per listed summary, in order, all with the same repository |
| Ingest.FirstErrorIndex | src/import.go:53-57 | the result is the position of the first errored artifact, or the batch length when none has an error |
| Ingest.InsertBatch | src/import.go:52-59 | the run stops iff some artifact has an error, and then with the first such error; otherwise the whole batch is handed to the store |
| Ingest.CleanBatchesInsertWhole | src/import.go:52-59 | batches of error-free artifacts are all handed to the store whole |
| Ingest.Kept | src/import.go:15-19 | the loop with its `continue`: it keeps no more repositories than were listed and none whose name is skipped; `Ingest.KeptCounts` adds membership in both directions and multiplicity, `Ingest.KeptAppend` order |
| Ingest.ReposToLoad | src/import.go:15-19 | a repository is processed iff it is listed and not skipped, with its listed multiplicity |
| Ingest.ReposToLoadAppend | src/import.go:15-19 | skipping works per repository: filtering a concatenation concatenates the filtered parts |
| Ingest.PackageInserts | src/import.go:35-46 | when the idle timer does not fire, for a page size that is a valid channel capacity (≥ 0): every step that reaches the store carries one to max(n,1) artifacts, none with an error, and only the last step can be an exit; which artifacts is stated by `Ingest.ListingErrorReachesInsertOnlyForSmallPages` and `Ingest.ListingInsertsWholeBatchesOnly` |
| Ingest.InsertSteps | src/import.go:42-59 | for any producer stream fed without idle timeouts and any batch size n: every step that reaches the store carries one to max(n,1) artifacts, none with an error; only the last step can be an exit, since nothing runs after `log.Fatal` |
| Ingest.UntilFatal | src/import.go:44-55 | the steps taken are a prefix of the batches' steps; every step but the last calls the store; either all steps are taken or the last one taken is the exit; with no exit, all are taken |
| Ingest.FatalStopsTheRun | src/import.go:44-55 | with batches of one, an errored artifact followed by a clean one exits at the first, and the clean one never reaches the store |
| Ingest.ListingErrorReachesInsertOnlyForSmallPages | src/import.go:35-46 | for a failed version listing, when the idle timer does not fire: with page size ≥ 2 no insert step happens at all (the error is lost); with page size 0 or 1 the run stops with that error |
| Ingest.CleanStreamInsertsWholeBatches | src/import.go:42-46 | a closed stream of L error-free artifacts is inserted as L/n whole batches of n, the first L − L mod n artifacts in order |
| Ingest.ListingInsertsWholeBatchesOnly | src/import.go:35-46 | when the idle timer does not fire, a version listing that returns without error, with page size n ≥ 1, is inserted as whole batches of n covering all but the last L mod n artifacts |
| Ingest.CleanStreamInsertsEverythingWhenFlushing | src/import.go:42-46 | with the corrected accumulator every error-free artifact of a closed stream is inserted, in order, in batches of 1 to max(n,1) |
| Ingest.InsertStepsFlushing | src/import.go:42-59 | with the corrected accumulator and no idle timeouts, only the last step can be an exit, and every step that reaches the store carries one to max(n,1) artifacts, none with an error; `Ingest.CleanStreamInsertsEverythingWhenFlushing` states that all of a clean stream is stored |
| Ingest.ListingErrorFatalWhenFlushing | src/import.go:35-59 | with the corrected accumulator a failed version listing always stops the run with its error, for every non-negative page size |
| Storage.AllStatusesIncomplete | src/storage.go:38-43 | this list has four entries, names Unfinished twice, lacks Unlisted, Disposed and Deleted, and holds only declared statuses |
| Storage.EffectiveStatuses | src/storage.go:168-172 | an empty status list means Published alone; a non-empty one is used as given |
| Storage.ArtifactsQuery | src/storage.go:167-181 | the query is unordered and a document passes iff its status equals the first requested (or defaulted) status, whatever the substrings |
| Storage.IntendedQuery | src/storage.go:173-196 | corrected query: ordered by id then newest; a document passes iff its status is one of those requested and both substrings occur in its namespace and package |
| Storage.QueryUsesFirstStatusOnly | src/storage.go:175-196 | asking for Published and Archived in namespaces containing "client": the written query admits a Published "other" and misses an Archived "client" artifact; the corrected one does the reverse |
| Storage.Doc | src/storage.go:13-23 | the stored document keeps every field of the artifact except the error, which is not stored (`rethinkdb:"-"`) |
| Storage.Upserted | src/storage.go:104-114 | reference fold with no contract of its own: the table after the first n writes, each successful one replacing the document under its id; `Storage.LastWriteWins` states its keys and documents, and `Storage.Insert` returns it |
| Storage.Insert | src/storage.go:101-118 | one error slot per artifact, slot i holding the i-th write's outcome; the table afterwards is the in-order fold of the successful writes |
| Storage.LastWriteWins | src/storage.go:104-114 | after the writes a key is present iff it was present or written; it holds the document of its last successful write; keys nobody wrote keep their document |
| Storage.ReinsertReplaces | src/storage.go:106-111 | two writes under one id leave the second document; writing the same artifact twice equals writing it once |
| Storage.Select | src/storage.go:128-138 | the results are exactly the stored documents passing the filter, each once |
| Storage.List | src/storage.go:124-140 | a failing query gives an empty list with the error; a failing decode gives no list with the error; otherwise every stored document with the first requested status, once each, and no error |
| App.MakeId | app.go:122 | the key is the namespace, a colon, the package, a colon and the version: each segment is stated by position, with the two colons between them |
| App.ParseId | app.go:122 | the inverse reading: a parsed key rebuilds the same key from colon-free namespace and package |
| App.IdRoundTrip | app.go:116-122 | reading back the key of colon-free namespace and package gives the three parts |
| App.IdInjective | app.go:116-122 | with colon-free namespaces and packages, two keys are equal iff all three parts are |
| App.IdCollision | app.go:122 | ("a:b", "c", "d") and ("a", "b:c", "d") get the same key |
| App.StoredArtifacts | app.go:115-133 | one flat artifact per version summary in order, keyed by the joined identity, with the same fields as the import producer |
| App.Versions | app.go:107-135 | closes iff the listing returns; on error exactly one error-only flat artifact with an empty key; on success one keyed artifact per listed version, in order |
| App.VersionsAgreeWithImport | app.go:107-135 | both version producers send the same artifacts in the same order, field for field, up to layout |
| App.Packages | app.go:86-105 | the same promises as the import package producer: well-formed packages, one error-only package on error, one pairing per summary in order |
| App.ReposToLoad | app.go:41-45 | a repository is processed iff it is listed and its name is not on the skip list, with its listed multiplicity |
| App.FailedListingStoresBlankDocument | app.go:61-79 | an errored artifact is still written, so a failed version listing whose write succeeds stores a blank document under the empty key and changes no other key |

## Left out

- Goroutines, channels and scheduling: each producer is a stream of values and the accumulator a trace of events. The interleaving between producer, accumulator and the inserting goroutines of app.go is not modelled. Nor is the order in which app.go's per-artifact insert goroutines run.
- The five-second timer is the `Timeout` event; real time is not modelled. `time.Now()` is the `now` parameter, and all artifacts of one call share it.
- AWS session and client construction (`NewCodeArtifactAux`, src/aux.go:14-22): network I/O, replaced by the reply script.
- The registry's own fields: summaries hold only the fields the core reads. SDK string pointers are modelled as present strings, so a nil-pointer panic on a missing field is not modelled.
- App.FailedListingStoresBlankDocument: assumes the write of the blank document succeeds (no fault). If the driver reports an error, app.go:77 exits and nothing is stored; `Storage.LastWriteWins` covers faulted writes in general.
- App.Versions, App.VersionsAgreeWithImport and App.FailedListingStoresBlankDocument: require both summaries to be present. An error-only package does reach `versions` in app.go: the log call at app.go:54 has no `Msg`, so it never exits, and `go versions(p, aux, as)` at app.go:59 then dereferences the nil summaries and panics. That crash is not modelled.
- Ingest.Versions, Ingest.CompleteListingGivesEveryVersion, Ingest.PackageInserts, Ingest.ListingErrorReachesInsertOnlyForSmallPages, Ingest.ListingInsertsWholeBatchesOnly and Ingest.ListingErrorFatalWhenFlushing: require both summaries to be present. With either one missing, the listing call dereferences nil and panics. An error-only package therefore crashes `LoadArtifacts` (src/import.go:27-37), because the log call at line 28 never exits. That crash is not modelled.
- Ingest.PackageInserts, Ingest.InsertSteps, Ingest.InsertStepsFlushing, Ingest.ListingErrorReachesInsertOnlyForSmallPages and Ingest.ListingInsertsWholeBatchesOnly: feed the accumulator no `Timeout` event. `Versions` sends its artifacts and closes its channel right after the listing call returns (src/import.go:125-157), far inside the five-second timer. If the timer did fire between an artifact and the close, the pending records would be sent: a lone error artifact would then reach `insertBatch`, and a trailing partial batch would be inserted. The general accumulator, timer included, is covered by the `Batcher` lemmas.
- Ingest.PackageInserts, Ingest.ListingErrorReachesInsertOnlyForSmallPages and Ingest.ListingErrorFatalWhenFlushing: require a page size of at least zero. The page size is also the capacity of the artifact channel (src/import.go:35), and Go panics when creating a channel with a negative capacity. That panic is not modelled.
- Ingest.PackageInserts and Ingest.InsertStepsFlushing: cover one package only. The full fan-out over repositories and packages is not composed into one function, and neither are the fatal exit on a repository listing error and the driver's insert error (src/import.go:10-13, 59-69).
- The validating store `BoltStorage` used by src/import.go is not part of this model. A batch that passes `insertBatch` ends at `CallInsert`.
- RethinkDB connection and table creation (src/storage.go:57-99): driver I/O.
- The `Changes` feed (src/storage.go:142-163): a blocking stream. After its cursor ends, it keeps sending on a closed channel.
- Storage.List: the document order of an unordered query is left to the scan (`Select` picks keys nondeterministically). The driver's decoding is modelled as returning the stored documents unchanged.
- Storage.Insert: the driver's write result is not modelled, only the error slot. A failed write is assumed to leave the table unchanged.
- HTTP routing, templates and the server (src/http.go): UI and I/O.
- `LoadSpecification` and its environment defaults (src/config.go:35-43): environment I/O. Only the default skip list appears, as a constant.
- Logging: zerolog calls that never send (src/import.go:28, app.go:54, 63, 72) are not exits. They are modelled as doing nothing.

## Findings

| source | as written | input that shows it | evidently intended | confidence | as-written member | corrected member |
|---|---|---|---|---|---|---|
| src/import.go:79-82 | when the input closes, the goroutine returns without sending the pending batch | batch size 3; receive 1, receive 2, close: nothing is sent. With page size ≥ 2, and when the idle timer does not fire, a failed version listing never reaches `insertBatch` | send the pending records as a last batch before closing | not executed | Batcher.CloseDropsPending | Batcher.FlushingDeliversEveryRecord |
| src/import.go:95-97 | an idle flush sends the pending batch but does not reset it | batch size 3; receive 1, timeout, receive 2, receive 3: [1] then [1, 2, 3], so 1 is inserted twice | start a new batch after an idle flush | not executed | Batcher.TimeoutRedelivers | Batcher.FlushingDeliversEveryRecord |
| src/aux.go:117 | `output :=` declares a new variable inside the loop, so the accumulator and its token never change | two pages, [a] with token "t" then [b]: both requests carry no token and the result is [b]; a registry answering the first request with a token is asked for ever | assign `output =` so pages accumulate and the token advances | not executed | Registry.AllReposKeepsOnlyLastPage | Registry.AllReposFixed |
| src/storage.go:176-181 | the loop over statuses returns a single-status query in its first iteration | statuses [Published, Archived] and namespace "client": a Published "other" artifact is listed, an Archived "client" artifact is not | filter on any requested status and both substrings, ordered by id then newest | not executed | Storage.QueryUsesFirstStatusOnly | Storage.IntendedQuery |
| src/storage.go:38-43 | this file's status list names Unfinished twice and lacks Unlisted, Disposed and Deleted | the list itself | the six declared statuses, each once, as in src/domain.go:38-45 | not executed | Storage.AllStatusesIncomplete | Domain.AllStatusesListsEachOnce |
