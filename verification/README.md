# Warg registry client core, in Dafny

This project models the decision logic of the Warg registry client
(`crates/client/src/lib.rs`) and proves properties of it:

- **Checkpoint synchronisation** (`update_checkpoint`). The client brings
  the locally stored operator log and a set of package logs up to a
  registry checkpoint that the registry has signed. It fetches new log
  records page by page and replays them through the record validators.
  Records at or below a log's head index are skipped. Next it checks the
  checkpoint signature against a key held in the operator state, asks the
  registry to prove that every log head is included, and checks that the
  new checkpoint neither rewinds nor forks the stored one. Only then does
  it store anything.
- **Publishing** (`publish`, `publish_with_info`). Before any record is
  submitted, the client checks the entries and the
  `(initializing, head present)` combination. Then it uploads the content
  the registry reports missing. It clears the staged publish information
  whatever the outcome.
- **Waiting for a publish** (`wait_for_publish`). The client reacts to each
  observed record state.
- **Downloading** (`fetch_package`, `download`, `download_exact`,
  `download_content`). The client resolves a release from a package log,
  fetching the log on first use. It materialises the release's content and
  downloads it only when it is not cached.
- **Error translation** (`translate_log_not_found`). A "log not found"
  answer about a known log becomes "package does not exist".

Every operation is a pure function. Effects are explicit in the result:

- the registry API calls issued, as `calls: seq<ApiCall>`;
- the storage writes performed, as `writes: seq<StoreWrite>`, which
  `ApplyWrites` turns into the new stored state;
- the outcome.

This makes properties such as "nothing is fetched when every package is
current", "storage is written only after every check passed" and
"nothing reaches the network before the empty-entries check" statements
about values.

The registry's answers are given as data:

- fetch pages are a finite sequence of responses;
- the latest checkpoint, the submit answer, uploads and content fetches are
  answers or function-typed collaborators.

The record validators, signature verification and the inclusion and
consistency proofs are oracles held in `Sync.Oracles`.

Modules:

| file | module | contents |
|---|---|---|
| wrappers.dfy | Wrappers | `Option`, `Result`, `Outcome` |
| types.dfy | Types | log ids, checkpoints, records, log cursors, package and publish info, stored state, API calls and storage writes |
| errors.dfy | Errors | the client's error kinds and `TranslateLogNotFound` |
| replay.dfy | LogReplay | replaying fetched records onto a log with the skip rule |
| verifier.dfy | CheckpointVerifier | signature check and checkpoint progression check |
| sync.dfy | Sync | `UpdateCheckpoint` and its stages |
| sync_properties.dfy | SyncProperties | properties of a whole synchronisation |
| publish.dfy | Publish | `Publish`, `PublishWithInfo`, uploads, waiting |
| download.dfy | Download | `FetchPackage`, release resolution, `Download`, `DownloadExact`, `DownloadContent` |

Where the model makes a choice the code leaves open:

- `PublishInfo::initializing` is defined in the storage module, which is
  not part of this model. `Types.Initializing` takes it to mean "some entry
  is an `Init` entry".
- The pending packages form a hash map keyed by log id. For duplicate
  names, the last occurrence wins, as when collecting into a map.
  Iteration (fetch cursors, inclusion leaves, storage writes) follows the
  order of first occurrence. The code's iteration order is not defined.
- A package's log id is `PackageLog(name)`, a collision-free stand-in for
  the hash of the name.
- When the fetch loop needs another page and the given responses are
  exhausted, the model fails with `Api(NoResponse)`. It does not commit.
- The `unwrap` calls on the operator head (lib.rs:509) and on each
  package head (lib.rs:521) during the inclusion leaf build would panic if
  a log has a head index but no head record. The model reports either
  panic as the error `HeadUnwrapPanic`.
- The code always calls the inclusion proof, because the operator leaf is
  always present by then. The `!leafs.is_empty()` guard at lib.rs:530 is
  therefore always true, and the model has no branch for it.

## Model

| member | source | states |
|---|---|---|
| Errors.TranslateLogNotFound | crates/client/src/lib.rs:880-895 | The result is `PackageDoesNotExist` exactly when the error is a fetch or package "log not found" whose log the lookup knows. It then carries the looked-up name. Every other error is passed through as an API error. |
| LogReplay.ReplayAppend | crates/client/src/lib.rs:427-442 | Replaying two pages one after the other is the same as replaying their concatenation, so the head and cursor carry over between pages. |
| LogReplay.ReplayHeadIsMaximum | crates/client/src/lib.rs:431-441 | After a successful replay, every record decoded. The head index is at least the old head and at least every record's index. The head index and fetch token are either unchanged or those of one of the records. |
| LogReplay.ReplaySeenRecordsIsIdentity | crates/client/src/lib.rs:453-467 | Records at or below the held head index are skipped without validation, and the log is unchanged. |
| LogReplay.Replay | crates/client/src/lib.rs:427-467 | A successful replay never moves the head index backwards, and a replay that leaves the head index where it was leaves the log unchanged. Any undecodable record fails the replay, even a skipped one. |
| LogReplay.ReplayValidatesExactlyFreshRecords | crates/client/src/lib.rs:453-467 | A successful replay validates exactly the records whose index is above every earlier index and the starting head, in order. No skipped record reaches the validator. |
| LogReplay.ReplaySucceedsWhenFreshRecordsValidate | crates/client/src/lib.rs:427-467 | The converse: when every record decodes and the validator accepts the fresh records in order, the replay succeeds. |
| Sync.PendingOf | crates/client/src/lib.rs:390-398 | The pending set holds the log of every package not already at the target checkpoint, and of no package at it. Each log is keyed by its log id, with one entry per log id, and the iteration order has no duplicates. It is empty exactly when every package is at the target. |
| Sync.ApplyOperatorRecords | crates/client/src/lib.rs:427-442 | Operator records apply exactly as their replay does. An undecodable record is an error, and a validation failure becomes `OperatorValidationFailed` with the validator's error. |
| Sync.ApplyBatch | crates/client/src/lib.rs:444-475 | Records for an unknown log fail with `UnknownPackageLog`. Otherwise the batch applies exactly when the replay of its records succeeds and leaves a head. An undecodable record gives `UndecodableRecord`, and a validation failure gives `PackageValidationFailed` with the package name and the validator's error. A log still without a head gives `PackageLogEmpty`. On success, the log becomes the replay and no other pending package changes. |
| Sync.ApplyBatches | crates/client/src/lib.rs:444-476 | Applying a page's batches keeps the same pending logs in the same order, with names and checkpoints untouched, and no head index moves backwards. |
| Sync.BatchesStopAtFirstFailure | crates/client/src/lib.rs:444-476 | A page fails with the error of its first batch that does not apply to the logs left by the batches before it. |
| SyncProperties.ApplyBatchesSucceedsIffEveryBatchApplies | crates/client/src/lib.rs:444-476 | A page's batches apply exactly when each batch's log was requested and the replay of that log's records, from every batch up to and including that one, succeeds with a head. |
| Sync.ApplyBatchesRejectsUnknownLog | crates/client/src/lib.rs:444-447 | A page with a batch for a log that was not requested fails, wherever in the page that batch is. |
| Sync.ApplyBatchesKeepHeads | crates/client/src/lib.rs:449-475 | After a successful page, no pending log has lost its head. |
| Sync.ApplyBatchesLeaveHeads | crates/client/src/lib.rs:444-476 | After a successful page, every log it carried records for was requested and has a head. |
| Sync.ApplyPage | crates/client/src/lib.rs:427-476 | A page applies exactly when its operator records replay and its package batches apply. An operator failure is reported as undecodable or as `OperatorValidationFailed`, ahead of any batch failure. Otherwise a batch failure is the page's error. On success, the operator log is the replay and heads only move forward. |
| Sync.FetchLoop | crates/client/src/lib.rs:403-486 | The first request carries the initial cursors, and every request asks for the target log length. Request `i + 1` is sent only after page `i` arrived with more to fetch. It carries the cursors of the state after the first `i + 1` pages. On success, the result is the state after all pages consumed, and only the last page said there was no more. A failure is the error of the last page consumed: a failed fetch, translated, or a page that did not apply. When the responses run out, it is `Api(NoResponse)`. The pending set keeps its packages, names and checkpoints, and every head only moves forward. |
| Sync.FetchLoopSucceedsWhenPagesApply | crates/client/src/lib.rs:403-486 | The converse: when the first `k` responses are pages, only the last says there is no more, and they all apply, the loop succeeds after exactly `k` requests with the state after those pages. |
| Sync.InclusionLeaves | crates/client/src/lib.rs:500-528 | No operator head index gives `NoOperatorRecords`, and an operator head index without a head record gives `HeadUnwrapPanic`. Otherwise the first package in iteration order without a full head decides the error: no head index gives `PackageLogEmpty` with its name, and a head index without a head record gives `HeadUnwrapPanic`. It succeeds exactly when every log has a full head. Then there are one index and one leaf per pending package plus one, with the operator leaf first and the package heads after it in iteration order. |
| CheckpointVerifier.VerifySignature | crates/client/src/lib.rs:488-498 | Passes exactly when the checkpoint's key id is in the operator state and the signature verifies under that key. An unknown key gives `InvalidCheckpointKeyId` and a bad signature gives `InvalidCheckpointSignature`. |
| CheckpointVerifier.CheckProgression | crates/client/src/lib.rs:543-578 | With no stored checkpoint, it passes. A longer stored checkpoint gives `CheckpointLogLengthRewind(from, to)`. Equal lengths with another log or map root give `CheckpointChangedLogRootOrMapRoot`. A shorter stored checkpoint gives exactly the consistency proof's verdict. Only that last case calls the registry. |
| Sync.VerifyHeads | crates/client/src/lib.rs:488-578 | Passes exactly when the signature, inclusion and progression checks all pass. A signature failure is returned with no call. A leaf-building failure is returned with no call. A rejected inclusion proof gives its API error after that one call, with no consistency call. Otherwise the single inclusion call is followed by the progression check's calls and verdict. |
| Sync.UpdateCheckpoint | crates/client/src/lib.rs:376-590 | It makes no call at all exactly when every package is already at the target, and then returns no updates. A failure writes nothing. Every call is a log fetch or a proof request, and the first is the fetch with the initial cursors. A success that made calls commits: the operator is written first, the target checkpoint last, and there are exactly two more writes than pending packages. `SyncProperties.SyncFailsAtFirstFailingStage` and `Sync.CommitWrites` together state that the writes in between are the stamped pending packages in order. It returns exactly the pending logs, each carrying the target checkpoint. |
| SyncProperties.SyncFailsAtFirstFailingStage | crates/client/src/lib.rs:403-587 | With something to update, a failed fetch loop is the synchronisation's error, with the loop's calls and no write. After it, the first failing signature, leaf, inclusion or progression check gives its own error and no write. When all pass, the fetched state is committed and returned, stamped with the target. |
| SyncProperties.WritesOnlyWhenTrusted | crates/client/src/lib.rs:488-587 | Storage is written exactly when there was something to update, the fetch succeeded and the signature, inclusion and progression checks passed. The writes are then the commit of the fetched state. |
| SyncProperties.OutcomeIsProgressionVerdict | crates/client/src/lib.rs:543-578 | Once the heads are fetched and proved included, the synchronisation succeeds exactly when the progression check passes, and it fails with that check's error otherwise. |
| SyncProperties.RewindRejected | crates/client/src/lib.rs:548-553 | A target shorter than the stored checkpoint never changes storage. |
| SyncProperties.BadSignatureRejected | crates/client/src/lib.rs:488-498 | A fetched checkpoint whose signature fails fails the whole synchronisation with that error (`InvalidCheckpointKeyId` or `InvalidCheckpointSignature`). Nothing is stored, and only log fetches were issued. |
| SyncProperties.EquivocationRejected | crates/client/src/lib.rs:566-576 | A target of the stored length with another log or map root never changes storage. |
| SyncProperties.CommitStoresTarget | crates/client/src/lib.rs:580-589 | After a committing synchronisation, the target is the stored checkpoint. Every pending package is stored, carrying the target checkpoint. Every other stored package and the staged publish info are unchanged. |
| Sync.CommitWrites | crates/client/src/lib.rs:580-587 | The commit writes the operator first and the new checkpoint last. In between, it writes every pending package in iteration order, each carrying the target checkpoint. |
| SyncProperties.SyncUpdatesStalePackages | crates/client/src/lib.rs:390-401 | A successful synchronisation returns every package that was not already at the target checkpoint. |
| SyncProperties.SyncedPackagesHaveHeads | crates/client/src/lib.rs:500-528 | Every package a successful synchronisation returns has a head record. |
| SyncProperties.HeadsNeverDecrease | crates/client/src/lib.rs:431-441 | No updated package's head index and no stored operator head index moves backwards across a synchronisation. |
| SyncProperties.SecondSyncIsNoOp | crates/client/src/lib.rs:390-401 | Synchronising the returned packages again to the same checkpoint fetches, verifies and stores nothing. |
| SyncProperties.LoopIsReplayOfAllPages | crates/client/src/lib.rs:408-486 | The multi-page fetch leaves each log, operator included, exactly as one replay of all its records from every page consumed would. |
| SyncProperties.BatchesReplayEachLog | crates/client/src/lib.rs:444-469 | A page's batches leave each pending log as one replay of that log's records from all batches. |
| Publish.UploadMissing | crates/client/src/lib.rs:186-220 | Uploads pass exactly when every missing content with an endpoint is stored locally and its upload to the first endpoint passes. Only such uploads are sent, and on success they are exactly those uploads, in order. A policy rejection names the package and record. |
| Publish.UploadsStopAtFirstFailure | crates/client/src/lib.rs:186-220 | The first uploadable entry that does not pass decides the result. Absent local content gives `ContentNotFound(digest)` after the uploads before it. Otherwise its upload is sent, and a policy rejection gives `PublishRejected(name, recordId, reason)` while any other error is passed through as an API error. |
| Publish.Submit | crates/client/src/lib.rs:153-184 | Initializing with a head gives `CannotInitializePackage`, and no head when not initializing gives `MustInitializePackage`, both without a call. Otherwise the record is submitted to the package's own log first. A failed submission gives `PackageDoesNotExist` exactly when the registry reports that log as not found, and the API error otherwise. An accepted submission succeeds with its record id exactly when the uploads pass, and fails with the uploads' error otherwise. |
| Publish.PublishWithInfo | crates/client/src/lib.rs:118-223 | Empty entries fail with `NothingToPublish` before any call or write. Initializing with a head fails with `CannotInitializePackage` without a call. When initializing, or when a head is given, nothing is synchronised or stored, and the run is that of submitting the info to the loaded package. Otherwise the head is learnt first: its failure is returned, and on success the info is submitted with the learnt head, after the learning calls. |
| Publish.PublishSucceedsIffAcceptedAndUploaded | crates/client/src/lib.rs:161-223 | For an accepted combination, a publish succeeds exactly when the registry accepts the record and every missing content uploads. It then returns the record id the registry assigned. |
| Publish.LearnHead | crates/client/src/lib.rs:144-151 | The latest checkpoint is requested first, and its failure is an API error. Otherwise the calls, writes and success are those of synchronising the package to it. A package already at that checkpoint keeps its own head. Any other package that synchronises gets a head, and it is exactly the head of that package as the synchronisation returns it. |
| Publish.SubmittedRecordMatchesInfo | crates/client/src/lib.rs:123-184 | A record is submitted only when there are entries. It carries the entries and name being published, to the package's log. It has no head exactly when initializing, and it keeps a head given explicitly. |
| Publish.MustInitializeWhenSyncFindsNoHead | crates/client/src/lib.rs:144-159 | Not initializing, with no head given and none found by synchronising, fails with `MustInitializePackage` and submits nothing. |
| Publish.Publish | crates/client/src/lib.rs:99-109 | Without staged info it fails with `NotPublishing` and does nothing. Otherwise it runs the publish of the staged info, and the staged info is cleared whatever that publish returned. |
| Publish.WaitStep | crates/client/src/lib.rs:239-259 | `Processing` is the only state that polls again. `Published` is the only state that succeeds. `Rejected` gives `PublishRejected` with its reason, and `Sourcing` gives `PackageMissingContent`. |
| Publish.WaitForPublish | crates/client/src/lib.rs:230-260 | One record fetch per answer consumed, each for the record in the package's own log. There is no verdict exactly when every answer was `Processing`. |
| Publish.WaitStopsAtFirstFinalAnswer | crates/client/src/lib.rs:236-260 | Waiting stops at the first answer that is not `Processing`, after one fetch per answer up to it. A failed fetch is translated to `PackageDoesNotExist` for the package's own log, and a final state gives its verdict. |
| Publish.WaitSucceedsIffPublishedAfterProcessing | crates/client/src/lib.rs:230-260 | Waiting succeeds exactly when the record is observed `Published` after being observed only `Processing`. |
| Download.DownloadContent | crates/client/src/lib.rs:634-655 | No call is made exactly when the digest is cached, and then its path is returned and nothing changes. A miss downloads the digest once. A failed download is an API error and leaves content storage unchanged. A successful download leaves the content as stored, and succeeds exactly when the digest is then present; content still missing is `ContentNotFound`. A returned path is the content's location. |
| Download.DownloadContentIsIdempotent | crates/client/src/lib.rs:634-655 | After content was materialised, asking for it again makes no call, changes nothing and returns the same location. |
| Download.FetchPackage | crates/client/src/lib.rs:592-606 | A stored package is returned with no call or write. An unknown one first requests the latest checkpoint; if that fails, the result is its API error. Otherwise the calls and writes are exactly those of synchronising that package to it, and it fails exactly when the synchronisation does, with its error. On success, the returned package is at that checkpoint, and it is what storage then holds under its name. A failure writes nothing. |
| Download.FetchPackageSynced | crates/client/src/lib.rs:598-603 | A synchronisation of a package never seen before that succeeds returns it, under its name, at the target checkpoint. |
| Download.UnknownPackageDoesNotExist | crates/client/src/lib.rs:421-425 | A package the registry reports as having no log gives `PackageDoesNotExist` with its name, and nothing is stored. |
| Download.ResolveLatest | crates/client/src/lib.rs:320-334 | No release matching the requirement gives `None`, with no call. A matching release without content is an invalid-state error. Otherwise the result succeeds exactly when materialising the content does, and it carries the release's version and digest and the content's location. Its calls and content storage are exactly those of materialising the release's content, and a materialising failure is its error. |
| Download.ResolveExact | crates/client/src/lib.rs:354-373 | A version not released, or one whose release has no content, gives `PackageVersionDoesNotExist(version, name)` with no call. Otherwise the result succeeds exactly when materialising the content does, and it carries that version, the release's digest and the content's location. Its calls and content storage are exactly those of materialising the release's content, and a materialising failure is its error. |
| Download.Download | crates/client/src/lib.rs:312-335 | Only the log load writes registry storage. A load failure is returned with the load's calls, and content is untouched. No matching release in the loaded log gives `None` with only the load's calls. A matching release without content gives `ReleaseMissingContent`. A download returned is the found release's version and digest, at the content's location. A stored package is resolved without writing anything, asking only for content. For a release with content, the calls are the load's followed by those of materialising it, content storage is as that leaves it, and the download succeeds exactly when materialising does. |
| Download.DownloadExact | crates/client/src/lib.rs:346-374 | Only the log load writes registry storage. A load failure is returned with the load's calls, and content is untouched. A version the loaded log never released, or whose release was yanked, gives `PackageVersionDoesNotExist(version, name)` with no content call. A download returned is that version with the release's digest, at the content's location. A stored package is resolved without writing anything, asking only for content. For a released version with content, the calls are the load's followed by those of materialising it, content storage is as that leaves it, and the download succeeds exactly when materialising does. |
| Download.LatestIsExactOfFoundRelease | crates/client/src/lib.rs:312-374 | When the release found for a requirement is the one the log records for its version, downloading the latest match makes the same calls and content changes as downloading exactly that version, and returns the same download. |

## Left out

- The async runtime, `tokio::time::sleep` and the polling interval are not modelled. `Publish.WaitForPublish` takes the sequence of observed answers. The unbounded polling loop is represented by a `None` verdict when every answer so far was `Processing`.
- HTTP and transport details of the API client (`fetch_logs`, `upload_content`, `download_content`, request bodies and streaming) are left out. Responses are given as data, and a transport failure is one `ApiError` value.
- Record validation internals from the protocol crate are oracles: a partial function from a state and an envelope to a state. Decoding a record is modelled only as success or `UndecodableRecord`.
- Checkpoint signature cryptography and Merkle inclusion and consistency arithmetic are oracles.
- Semantic-version matching in `find_latest_release` is an oracle selector, `findLatestRelease`.
- Filesystem storage, directory locking, configuration (`new`, `try_new_with_config`, `new_with_config`), `reset_registry`, `clear_content_cache` and logging are left out. Storage operations are taken to succeed.
- Because storage is taken to succeed, the commit at lib.rs:580-587 is modelled as all-or-nothing. The code can fail halfway through, leaving the operator and some packages stored without the new checkpoint.
- `update` and `upsert` (lib.rs:263-297) are thin wrappers that load packages and call `update_checkpoint`. They are not modelled separately; `Download.FetchPackage` and `Publish.LearnHead` show the same composition.
- Signing and finalising a publish record (`info.finalize`) are taken to succeed. The record submitted is represented by the publish info itself.
- Only `Http` upload endpoints exist in the model. Upload headers are not modelled.
- Sync.UpdateCheckpoint: the contracts cover only the stored state and the returned package infos. The in-memory `PackageInfo` values that the code mutates in place, including the state it resets before a validation error propagates (lib.rs:457), are not modelled.
- Publish.UploadMissing: the missing contents are uploaded in the order of a given sequence. The code iterates a hash map whose order is not defined (lib.rs:186-220); the model's properties hold for every order.
- Sync.UpdateCheckpoint: the pending map's iteration order is fixed as the order of first occurrence. The code's hash-map order is not defined, and the proved properties do not depend on it.
