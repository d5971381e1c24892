/**
 * The publish pipeline: the preconditions checked before a record is
 * submitted, the upload of content the registry is missing, the cleanup of
 * the staged publish information, and one step of waiting for a submitted
 * record to reach a final state.
 */
module Publish {
  import opened Wrappers
  import opened Types
  import opened Errors
  import opened Sync
  import SyncProperties

  /** The registry's answers during a publish. */
  datatype PublishRegistry = PublishRegistry(
    latest: Result<SignedCheckpoint, ApiError>,
    responses: seq<FetchResponse>,
    submit: (LogId, PublishInfo) -> Result<SubmittedRecord, ApiError>,
    upload: (UploadEndpoint, Digest) -> Outcome<ApiError>)

  /** What a publish did: registry calls, storage writes and the published record id. */
  datatype PublishRun = PublishRun(calls: seq<ApiCall>, writes: seq<StoreWrite>, outcome: Result<RecordId, ClientError>)

  /** The stored package of that name, or a fresh one when none is stored. */
  function LoadPackage(store: RegistryStore, name: PackageName): PackageInfo
  {
    if name in store.packages then store.packages[name] else NewPackageInfo(name)
  }

  /** Uploads sent and their verdict. */
  datatype Uploads = Uploads(calls: seq<ApiCall>, outcome: Outcome<ClientError>)

  /** Missing content entry `m` has an upload endpoint, so it must be uploaded. */
  predicate Uploadable(m: MissingContent)
  {
    m.upload != []
  }

  /** Missing content `m` needs no upload, or is stored locally and its upload is accepted. */
  predicate UploadPasses(m: MissingContent, content: ContentStore, upload: (UploadEndpoint, Digest) -> Outcome<ApiError>)
  {
    !Uploadable(m) || (m.digest in content && upload(m.upload[0], m.digest).Pass?)
  }

  /** The upload of every missing content with an endpoint, to its first endpoint, in order. */
  function UploadCalls(missing: seq<MissingContent>): seq<ApiCall>
    decreases |missing|
  {
    if missing == [] then []
    else
      (if Uploadable(missing[0]) then [UploadContent(missing[0].upload[0], missing[0].digest)] else []) +
      UploadCalls(missing[1..])
  }

  /** The uploads of a non-empty prefix: those of its first entry, then those of the rest. */
  lemma UploadCallsPrefix(missing: seq<MissingContent>, k: nat)
    requires 1 <= k <= |missing|
    ensures UploadCalls(missing[..k]) ==
            (if Uploadable(missing[0]) then [UploadContent(missing[0].upload[0], missing[0].digest)] else []) +
            UploadCalls(missing[1..][..k - 1])
  {
    assert missing[..k][0] == missing[0];
    assert missing[..k][1..] == missing[1..][..k - 1];
  }

  /**
   * Uploads, one after the other, each missing content that has an upload
   * endpoint, to its first endpoint. Content with no endpoint is skipped;
   * content absent from local storage is fatal; a policy rejection by the
   * registry is reported as a rejected publish.
   */
  function UploadMissing(missing: seq<MissingContent>, name: PackageName, recordId: RecordId,
                         content: ContentStore, upload: (UploadEndpoint, Digest) -> Outcome<ApiError>): (r: Uploads)
    ensures r.outcome.Pass? <==>
              forall i :: 0 <= i < |missing| && Uploadable(missing[i]) ==>
                missing[i].digest in content && upload(missing[i].upload[0], missing[i].digest).Pass?
    ensures forall c :: c in r.calls ==> c.UploadContent?
    ensures forall c :: c in r.calls ==>
              exists m :: m in missing && Uploadable(m) && m.digest in content && c == UploadContent(m.upload[0], m.digest)
    ensures r.outcome.Pass? ==>
              forall i :: 0 <= i < |missing| && Uploadable(missing[i]) ==>
                UploadContent(missing[i].upload[0], missing[i].digest) in r.calls
    ensures r.outcome.Fail? && r.outcome.error.PublishRejected? ==>
              r.outcome.error.name == name && r.outcome.error.recordId == recordId
    ensures r.outcome.Pass? ==> r.calls == UploadCalls(missing)
    decreases |missing|
  {
    if missing == [] then Uploads([], Pass)
    else
      var m := missing[0];
      assert forall i :: 1 <= i < |missing| ==> missing[i] == missing[1..][i - 1];
      if !Uploadable(m) then UploadMissing(missing[1..], name, recordId, content, upload)
      else if m.digest !in content then Uploads([], Fail(ContentNotFound(m.digest)))
      else
        var call := UploadContent(m.upload[0], m.digest);
        match upload(m.upload[0], m.digest)
        case Fail(PackageRejection(reason)) => Uploads([call], Fail(PublishRejected(name, recordId, reason)))
        case Fail(e) => Uploads([call], Fail(Api(e)))
        case Pass =>
          var rest := UploadMissing(missing[1..], name, recordId, content, upload);
          Uploads([call] + rest.calls, rest.outcome)
  }

  /**
   * Uploads stop at the first missing content that does not pass: the
   * calls are the uploads before it (and its own, when it was attempted),
   * and its failure decides the error.
   */
  lemma {:induction false} UploadsStopAtFirstFailure(missing: seq<MissingContent>, name: PackageName, recordId: RecordId,
                                                     content: ContentStore, upload: (UploadEndpoint, Digest) -> Outcome<ApiError>, k: nat)
    requires k < |missing| && !UploadPasses(missing[k], content, upload)
    requires forall i :: 0 <= i < k ==> UploadPasses(missing[i], content, upload)
    ensures var r := UploadMissing(missing, name, recordId, content, upload);
            var m := missing[k];
            var attempt := upload(m.upload[0], m.digest);
            && (m.digest !in content ==> r == Uploads(UploadCalls(missing[..k]), Fail(ContentNotFound(m.digest))))
            && (m.digest in content && attempt.Fail? && attempt.error.PackageRejection? ==>
                  r == Uploads(UploadCalls(missing[..k + 1]), Fail(PublishRejected(name, recordId, attempt.error.reason))))
            && (m.digest in content && attempt.Fail? && !attempt.error.PackageRejection? ==>
                  r == Uploads(UploadCalls(missing[..k + 1]), Fail(Api(attempt.error))))
    decreases k
  {
    var m := missing[0];
    if k == 0 {
      assert missing[..1] == [m];
      assert [m][1..] == [];
    } else {
      assert UploadPasses(m, content, upload);
      UploadsStopAtFirstFailure(missing[1..], name, recordId, content, upload, k - 1);
      UploadCallsPrefix(missing, k);
      UploadCallsPrefix(missing, k + 1);
    }
  }

  /** Recognises the log of package `name`, and no other, as that package's. */
  function OwnLog(name: PackageName): LogId -> Option<PackageName>
  {
    id => if id == PackageLog(name) then Some(name) else None
  }

  /**
   * The `(initializing, head present)` match, then submission and uploads.
   * Only a new package without a head, or an existing one with a head,
   * reaches the registry.
   */
  function Submit(package: PackageInfo, info: PublishInfo, initializing: bool, content: ContentStore,
                  reg: PublishRegistry): (r: PublishRun)
    ensures r.writes == []
    ensures initializing && info.head.Some? ==> r == PublishRun([], [], Failure(CannotInitializePackage(package.name)))
    ensures !initializing && info.head.None? ==> r == PublishRun([], [], Failure(MustInitializePackage(package.name)))
    ensures initializing == info.head.None? ==>
              r.calls != [] && r.calls[0] == PublishRecord(PackageLog(package.name), info)
    ensures forall c :: c in r.calls && !c.UploadContent? ==> c == PublishRecord(PackageLog(package.name), info)
    ensures initializing == info.head.None? ==>
              var call := PublishRecord(PackageLog(package.name), info);
              var submitted := reg.submit(PackageLog(package.name), info);
              && (submitted.Failure? ==>
                    && r.calls == [call]
                    && (r.outcome == Failure(PackageDoesNotExist(package.name)) <==>
                          IsLogNotFound(submitted.error) && submitted.error.logId == PackageLog(package.name))
                    && (r.outcome != Failure(PackageDoesNotExist(package.name)) ==> r.outcome == Failure(Api(submitted.error))))
              && (submitted.Success? ==>
                    var up := UploadMissing(submitted.value.missing, package.name, submitted.value.recordId, content, reg.upload);
                    && r.calls == [call] + up.calls
                    && (r.outcome.Success? <==> up.outcome.Pass?)
                    && (r.outcome.Success? ==> r.outcome.value == submitted.value.recordId)
                    && (up.outcome.Fail? ==> r.outcome == Failure(up.outcome.error)))
  {
    if initializing && info.head.Some? then PublishRun([], [], Failure(CannotInitializePackage(package.name)))
    else if !initializing && info.head.None? then PublishRun([], [], Failure(MustInitializePackage(package.name)))
    else
      var logId := PackageLog(package.name);
      var call := PublishRecord(logId, info);
      match reg.submit(logId, info)
      case Failure(e) =>
        PublishRun([call], [], Failure(TranslateLogNotFound(e, OwnLog(package.name))))
      case Success(rec) =>
        var up := UploadMissing(rec.missing, package.name, rec.recordId, content, reg.upload);
        PublishRun([call] + up.calls, [],
                   if up.outcome.Pass? then Success(rec.recordId) else Failure(up.outcome.error))
  }

  /** The head learnt by synchronising to the latest checkpoint, with the calls and writes that took. */
  datatype HeadRun = HeadRun(calls: seq<ApiCall>, writes: seq<StoreWrite>, outcome: Result<Option<RecordId>, ClientError>)

  /**
   * Synchronises `package` to the latest checkpoint and reads its head; a
   * package already at that checkpoint keeps the head it has.
   */
  function LearnHead(store: RegistryStore, package: PackageInfo, reg: PublishRegistry, o: Oracles): (r: HeadRun)
    ensures r.calls != [] && r.calls[0] == LatestCheckpoint
    ensures forall c :: c in r.calls ==> c == LatestCheckpoint || SyncCall(c)
    ensures r.outcome.Failure? ==> r.writes == []
    ensures reg.latest.Failure? ==> r == HeadRun([LatestCheckpoint], [], Failure(Api(reg.latest.error)))
    ensures reg.latest.Success? ==>
              var sync := UpdateCheckpoint(store, reg.latest.value, [package], reg.responses, o);
              && r.calls == [LatestCheckpoint] + sync.calls
              && r.writes == sync.writes
              && (r.outcome.Success? <==> sync.outcome.Success?)
              && (sync.outcome.Failure? ==> r.outcome == Failure(sync.outcome.error))
    ensures reg.latest.Success? && package.checkpoint == Some(reg.latest.value.checkpoint) ==>
              r == HeadRun([LatestCheckpoint], [], Success(package.log.state.head))
    ensures reg.latest.Success? && package.checkpoint != Some(reg.latest.value.checkpoint) && r.outcome.Success? ==>
              r.outcome.value.Some?
    ensures reg.latest.Success? && package.checkpoint != Some(reg.latest.value.checkpoint) && r.outcome.Success? ==>
              var sync := UpdateCheckpoint(store, reg.latest.value, [package], reg.responses, o);
              && PackageLog(package.name) in sync.outcome.value
              && r.outcome.value == sync.outcome.value[PackageLog(package.name)].log.state.head
  {
    match reg.latest
    case Failure(e) => HeadRun([LatestCheckpoint], [], Failure(Api(e)))
    case Success(latest) =>
      var sync := UpdateCheckpoint(store, latest, [package], reg.responses, o);
      var id := PackageLog(package.name);
      match sync.outcome
      case Failure(e) => HeadRun([LatestCheckpoint] + sync.calls, sync.writes, Failure(e))
      case Success(updated) =>
        SyncProperties.SyncUpdatesStalePackages(store, latest, [package], reg.responses, o);
        if id in updated then
          SyncProperties.SyncedPackagesHaveHeads(store, latest, [package], reg.responses, o);
          HeadRun([LatestCheckpoint] + sync.calls, sync.writes, Success(updated[id].log.state.head))
        else HeadRun([LatestCheckpoint] + sync.calls, sync.writes, Success(package.log.state.head))
  }

  /**
   * Publishes `info`: fails first when there is nothing to publish; when
   * publishing to an existing package without an explicit head, first
   * synchronises the package to the latest checkpoint to learn its head.
   */
  function PublishWithInfo(store: RegistryStore, content: ContentStore, info: PublishInfo,
                           reg: PublishRegistry, o: Oracles): (r: PublishRun)
    ensures info.entries == [] ==> r == PublishRun([], [], Failure(NothingToPublish(info.name)))
    ensures info.entries != [] && Initializing(info) && info.head.Some? ==>
              r == PublishRun([], [], Failure(CannotInitializePackage(LoadPackage(store, info.name).name)))
    ensures (Initializing(info) || info.head.Some?) ==> r.writes == [] && LatestCheckpoint !in r.calls
    ensures info.entries != [] && Initializing(info) == info.head.None? ==>
              r == Submit(LoadPackage(store, info.name), info, Initializing(info), content, reg)
    ensures info.entries != [] && !Initializing(info) && info.head.None? ==>
              var learnt := LearnHead(store, LoadPackage(store, info.name), reg, o);
              && (learnt.outcome.Failure? ==> r == PublishRun(learnt.calls, learnt.writes, Failure(learnt.outcome.error)))
              && (learnt.outcome.Success? ==>
                    var sub := Submit(LoadPackage(store, info.name), info.(head := learnt.outcome.value), false, content, reg);
                    r == PublishRun(learnt.calls + sub.calls, learnt.writes, sub.outcome))
  {
    if info.entries == [] then PublishRun([], [], Failure(NothingToPublish(info.name)))
    else
      var initializing := Initializing(info);
      var package := LoadPackage(store, info.name);
      if !initializing && info.head.None? then
        var learnt := LearnHead(store, package, reg, o);
        match learnt.outcome
        case Failure(e) => PublishRun(learnt.calls, learnt.writes, Failure(e))
        case Success(head) =>
          var sub := Submit(package, info.(head := head), initializing, content, reg);
          var calls := learnt.calls + sub.calls;
          PublishRun(calls, learnt.writes, sub.outcome)
      else
        Submit(package, info, initializing, content, reg)
  }

  /**
   * A record reaches the registry only with entries, and it carries the
   * entries and name being published to the package's log; it has no head
   * exactly when the package is being initialized, and keeps a head given
   * explicitly.
   */
  lemma {:induction false} SubmittedRecordMatchesInfo(store: RegistryStore, content: ContentStore, info: PublishInfo,
                                                      reg: PublishRegistry, o: Oracles, c: ApiCall)
    requires c in PublishWithInfo(store, content, info, reg, o).calls && c.PublishRecord?
    ensures info.entries != []
    ensures c.info.entries == info.entries && c.info.name == info.name
    ensures c.logId == PackageLog(LoadPackage(store, info.name).name)
    ensures Initializing(info) <==> c.info.head.None?
    ensures info.head.Some? ==> c.info.head == info.head
  {
    var package := LoadPackage(store, info.name);
    if !Initializing(info) && info.head.None? {
      var learnt := LearnHead(store, package, reg, o);
      var head := learnt.outcome.value;
      var sub := Submit(package, info.(head := head), false, content, reg);
      assert c !in learnt.calls;
      assert c in sub.calls;
    }
  }

  /**
   * A publish succeeds exactly when the registry accepts the submitted
   * record and every missing content uploads, and it returns the record id
   * the registry assigned. The record submitted is the publish info, with
   * the head learnt by synchronising when none was given.
   */
  lemma PublishSucceedsIffAcceptedAndUploaded(store: RegistryStore, content: ContentStore, info: PublishInfo,
                                              reg: PublishRegistry, o: Oracles)
    ensures var r := PublishWithInfo(store, content, info, reg, o);
            var package := LoadPackage(store, info.name);
            var learnt := LearnHead(store, package, reg, o);
            var needsHead := !Initializing(info) && info.head.None?;
            info.entries != [] && (!needsHead || learnt.outcome.Success?) ==>
              var submitted := if needsHead then info.(head := learnt.outcome.value) else info;
              var answer := reg.submit(PackageLog(package.name), submitted);
              (Initializing(info) == submitted.head.None? ==>
                && (r.outcome.Success? <==>
                      answer.Success? &&
                      UploadMissing(answer.value.missing, package.name, answer.value.recordId, content, reg.upload).outcome.Pass?)
                && (r.outcome.Success? ==> r.outcome.value == answer.value.recordId))
  {
  }

  /**
   * Publishing to an existing package without a head fails with
   * `MustInitializePackage` when synchronising finds no head either, and
   * then no record is submitted.
   */
  lemma MustInitializeWhenSyncFindsNoHead(store: RegistryStore, content: ContentStore, info: PublishInfo,
                                          reg: PublishRegistry, o: Oracles)
    requires info.entries != [] && !Initializing(info) && info.head.None?
    requires LearnHead(store, LoadPackage(store, info.name), reg, o).outcome == Success(None)
    ensures var r := PublishWithInfo(store, content, info, reg, o);
            && r.outcome == Failure(MustInitializePackage(LoadPackage(store, info.name).name))
            && r.calls == LearnHead(store, LoadPackage(store, info.name), reg, o).calls
            && forall c :: c in r.calls ==> !c.PublishRecord?
  {
    var learnt := LearnHead(store, LoadPackage(store, info.name), reg, o);
    assert learnt.calls + [] == learnt.calls;
  }

  /**
   * Publishes the publish information staged in storage. The staged
   * information is cleared whatever the publish returns; without staged
   * information nothing is done.
   */
  function Publish(store: RegistryStore, content: ContentStore, reg: PublishRegistry, o: Oracles): (r: PublishRun)
    ensures store.publish.None? ==> r == PublishRun([], [], Failure(NotPublishing))
    ensures ApplyWrites(store, r.writes).publish.None?
    ensures store.publish.Some? ==>
              var inner := PublishWithInfo(store, content, store.publish.value, reg, o);
              && r.outcome == inner.outcome
              && r.calls == inner.calls
              && r.writes == inner.writes + [StorePublish(None)]
  {
    match store.publish
    case None => PublishRun([], [], Failure(NotPublishing))
    case Some(info) =>
      var run := PublishWithInfo(store, content, info, reg, o);
      ApplyWritesAppend(store, run.writes, [StorePublish(None)]);
      assert ApplyWrites(ApplyWrites(store, run.writes), [StorePublish(None)]).publish.None?;
      PublishRun(run.calls, run.writes + [StorePublish(None)], run.outcome)
  }

  /** The reaction to one observation while waiting: finished with a verdict, or poll again. */
  datatype WaitVerdict = Done(result: Outcome<ClientError>) | PollAgain

  /** The reaction to one observed state of a submitted record. */
  function WaitStep(name: PackageName, recordId: RecordId, state: RecordState): (r: WaitVerdict)
    ensures r.PollAgain? <==> state.Processing?
    ensures r == Done(Pass) <==> state.Published?
    ensures state.Rejected? ==> r == Done(Fail(PublishRejected(name, recordId, state.reason)))
    ensures state.Sourcing? ==> r == Done(Fail(PackageMissingContent))
  {
    match state
    case Sourcing(_) => Done(Fail(PackageMissingContent))
    case Published => Done(Pass)
    case Rejected(reason) => Done(Fail(PublishRejected(name, recordId, reason)))
    case Processing => PollAgain
  }

  /** The record fetches issued while waiting, and the verdict; `None` while only `Processing` was seen. */
  datatype WaitRun = WaitRun(calls: seq<ApiCall>, outcome: Option<Outcome<ClientError>>)

  /**
   * Waiting over the record fetches the registry answers, in order, one
   * fetch per answer consumed; `None` when every answer so far was
   * `Processing` (the source polls on without bound).
   */
  function WaitForPublish(name: PackageName, recordId: RecordId,
                          observations: seq<Result<RecordState, ApiError>>): (r: WaitRun)
    ensures r.outcome.None? <==> forall i :: 0 <= i < |observations| ==> observations[i] == Success(Processing)
    ensures r.outcome.None? ==> |r.calls| == |observations|
    ensures 1 <= |r.calls| || observations == []
    ensures |r.calls| <= |observations|
    ensures forall c :: c in r.calls ==> c == GetPackageRecord(PackageLog(name), recordId)
    decreases |observations|
  {
    if observations == [] then WaitRun([], None)
    else
      var call := GetPackageRecord(PackageLog(name), recordId);
      match observations[0]
      case Failure(e) => WaitRun([call], Some(Fail(TranslateLogNotFound(e, OwnLog(name)))))
      case Success(state) =>
        match WaitStep(name, recordId, state)
        case Done(result) => WaitRun([call], Some(result))
        case PollAgain =>
          var rest := WaitForPublish(name, recordId, observations[1..]);
          assert forall i :: 1 <= i < |observations| ==> observations[i] == observations[1..][i - 1];
          WaitRun([call] + rest.calls, rest.outcome)
  }

  /**
   * Waiting stops at the first answer that is not `Processing`, after one
   * fetch per answer up to it: a failed fetch of a record in an unknown log
   * means the package does not exist, and a final state gives its verdict.
   */
  lemma {:induction false} WaitStopsAtFirstFinalAnswer(name: PackageName, recordId: RecordId,
                                                       observations: seq<Result<RecordState, ApiError>>, k: nat)
    requires k < |observations| && observations[k] != Success(Processing)
    requires forall j :: 0 <= j < k ==> observations[j] == Success(Processing)
    ensures var r := WaitForPublish(name, recordId, observations);
            && |r.calls| == k + 1
            && (observations[k].Failure? ==> r.outcome == Some(Fail(TranslateLogNotFound(observations[k].error, OwnLog(name)))))
            && (observations[k].Success? ==> r.outcome == Some(WaitStep(name, recordId, observations[k].value).result))
    decreases k
  {
    if k > 0 {
      assert observations[1..][k - 1] == observations[k];
      WaitStopsAtFirstFinalAnswer(name, recordId, observations[1..], k - 1);
    }
  }

  /** Waiting succeeds exactly when the record is seen published after being seen only processing. */
  lemma {:induction false} WaitSucceedsIffPublishedAfterProcessing(name: PackageName, recordId: RecordId,
                                                                   observations: seq<Result<RecordState, ApiError>>)
    ensures WaitForPublish(name, recordId, observations).outcome == Some(Pass) <==>
            exists k :: 0 <= k < |observations| && observations[k] == Success(Published) &&
              forall j :: 0 <= j < k ==> observations[j] == Success(Processing)
    decreases |observations|
  {
    if observations != [] {
      var tail := observations[1..];
      WaitSucceedsIffPublishedAfterProcessing(name, recordId, tail);
      if observations[0] == Success(Processing) {
        if exists k :: 0 <= k < |tail| && tail[k] == Success(Published) &&
             forall j :: 0 <= j < k ==> tail[j] == Success(Processing) {
          var k :| 0 <= k < |tail| && tail[k] == Success(Published) &&
                   forall j :: 0 <= j < k ==> tail[j] == Success(Processing);
          assert observations[k + 1] == Success(Published);
          assert forall j :: 1 <= j < k + 1 ==> observations[j] == tail[j - 1];
        }
        if exists k :: 0 <= k < |observations| && observations[k] == Success(Published) &&
             forall j :: 0 <= j < k ==> observations[j] == Success(Processing) {
          var k :| 0 <= k < |observations| && observations[k] == Success(Published) &&
                   forall j :: 0 <= j < k ==> observations[j] == Success(Processing);
          assert k > 0;
          assert tail[k - 1] == Success(Published);
          assert forall j :: 0 <= j < k - 1 ==> tail[j] == observations[j + 1];
        }
      }
    }
  }
}
