/**
 * Properties of the synchroniser that relate several of its steps: what the
 * commit writes, that it happens exactly when every check passed, that the
 * stored checkpoint never rewinds or equivocates, that heads never move
 * backwards, and that paging does not change what is validated.
 */
module SyncProperties {
  import opened Wrappers
  import opened Types
  import opened Errors
  import opened LogReplay
  import opened CheckpointVerifier
  import opened Sync

  /** Where the fetch loop of a synchronisation ends, when there is anything to update. */
  ghost function Fetched(store: RegistryStore, target: SignedCheckpoint, packages: seq<PackageInfo>,
                         responses: seq<FetchResponse>, o: Oracles): Result<LoopState, ClientError>
  {
    var pending := PendingOf(packages, target.checkpoint);
    FetchLoop(target.checkpoint.logLength, LoopState(LoadOperator(store), pending), responses, o).outcome
  }

  /**
   * A synchronisation with something to update runs its stages in order and
   * stops at the first that fails, with that stage's error and no write: the
   * fetch loop, then the signature, leaf, inclusion and progression checks.
   * When all pass, it commits the fetched state stamped with the target.
   */
  lemma SyncFailsAtFirstFailingStage(store: RegistryStore, target: SignedCheckpoint, packages: seq<PackageInfo>,
                                     responses: seq<FetchResponse>, o: Oracles)
    ensures var r := UpdateCheckpoint(store, target, packages, responses, o);
            var pending := PendingOf(packages, target.checkpoint);
            var loop := FetchLoop(target.checkpoint.logLength, LoopState(LoadOperator(store), pending), responses, o);
            pending.order != [] ==>
              && (loop.outcome.Failure? ==> r == SyncRun(loop.calls, [], Failure(loop.outcome.error)))
              && (loop.outcome.Success? ==>
                    var checked := VerifyHeads(store.checkpoint, target, loop.outcome.value, o);
                    && r.calls == loop.calls + checked.calls
                    && (checked.outcome.Fail? ==> r.outcome == Failure(checked.outcome.error) && r.writes == [])
                    && (checked.outcome.Pass? ==>
                          && r.writes == CommitWrites(loop.outcome.value, target)
                          && r.outcome == Success(Stamp(loop.outcome.value.pending, target.checkpoint))))
  {
  }

  /**
   * Storage is written if and only if there was something to update, the
   * fetch loop succeeded and the signature, inclusion and progression checks
   * all passed; the writes are then exactly the commit of the fetched state.
   */
  lemma WritesOnlyWhenTrusted(store: RegistryStore, target: SignedCheckpoint, packages: seq<PackageInfo>,
                              responses: seq<FetchResponse>, o: Oracles)
    ensures var r := UpdateCheckpoint(store, target, packages, responses, o);
            var f := Fetched(store, target, packages, responses, o);
            r.writes != [] <==>
              && PendingOf(packages, target.checkpoint).order != []
              && f.Success?
              && Trusted(store.checkpoint, target, f.value, o)
    ensures var r := UpdateCheckpoint(store, target, packages, responses, o);
            var f := Fetched(store, target, packages, responses, o);
            r.writes != [] ==>
              && r.outcome.Success?
              && ValidPending(f.value.pending)
              && r.writes == CommitWrites(f.value, target)
              && r.outcome.value == Stamp(f.value.pending, target.checkpoint)
  {
  }

  /**
   * A checkpoint whose key is unknown to the fetched operator state, or whose
   * signature does not verify, is rejected with that error before any proof
   * is requested, and nothing is stored.
   */
  lemma BadSignatureRejected(store: RegistryStore, target: SignedCheckpoint, packages: seq<PackageInfo>,
                             responses: seq<FetchResponse>, o: Oracles)
    ensures var r := UpdateCheckpoint(store, target, packages, responses, o);
            var f := Fetched(store, target, packages, responses, o);
            PendingOf(packages, target.checkpoint).order != [] && f.Success? &&
            VerifySignature(f.value.op.state, target, o.verifySignature).Fail? ==>
              var sig := VerifySignature(f.value.op.state, target, o.verifySignature);
              && r.outcome == Failure(sig.error)
              && (sig.error.InvalidCheckpointKeyId? || sig.error == InvalidCheckpointSignature)
              && r.writes == []
              && forall c :: c in r.calls ==> c.FetchLogs?
  {
    var f := Fetched(store, target, packages, responses, o);
    if PendingOf(packages, target.checkpoint).order != [] && f.Success? &&
       VerifySignature(f.value.op.state, target, o.verifySignature).Fail? {
      var cp := target.checkpoint;
      var loop := FetchLoop(cp.logLength, LoopState(LoadOperator(store), PendingOf(packages, cp)), responses, o);
      var st := loop.outcome.value;
      var checked := VerifyHeads(store.checkpoint, target, st, o);
      assert checked.calls == [];
      assert UpdateCheckpoint(store, target, packages, responses, o).calls == loop.calls + [];
    }
  }

  /** A stored checkpoint longer than the target is never replaced: the call fails or had nothing to do. */
  lemma RewindRejected(store: RegistryStore, target: SignedCheckpoint, packages: seq<PackageInfo>,
                       responses: seq<FetchResponse>, o: Oracles)
    requires store.checkpoint.Some?
    requires store.checkpoint.value.checkpoint.logLength > target.checkpoint.logLength
    ensures var r := UpdateCheckpoint(store, target, packages, responses, o);
            r.writes == [] && (r.outcome.Failure? || r.calls == [])
  {
    WritesOnlyWhenTrusted(store, target, packages, responses, o);
  }

  /** A checkpoint of the stored length but with another log or map root is never accepted. */
  lemma EquivocationRejected(store: RegistryStore, target: SignedCheckpoint, packages: seq<PackageInfo>,
                             responses: seq<FetchResponse>, o: Oracles)
    requires store.checkpoint.Some?
    requires store.checkpoint.value.checkpoint.logLength == target.checkpoint.logLength
    requires store.checkpoint.value.checkpoint.logRoot != target.checkpoint.logRoot ||
             store.checkpoint.value.checkpoint.mapRoot != target.checkpoint.mapRoot
    ensures var r := UpdateCheckpoint(store, target, packages, responses, o);
            r.writes == [] && (r.outcome.Failure? || r.calls == [])
  {
    WritesOnlyWhenTrusted(store, target, packages, responses, o);
  }

  /**
   * Once the heads are fetched and proved included, the result of a
   * synchronisation is exactly the verdict of the progression check.
   */
  lemma OutcomeIsProgressionVerdict(store: RegistryStore, target: SignedCheckpoint, packages: seq<PackageInfo>,
                                    responses: seq<FetchResponse>, o: Oracles)
    requires PendingOf(packages, target.checkpoint).order != []
    requires Fetched(store, target, packages, responses, o).Success?
    requires var st := Fetched(store, target, packages, responses, o).value;
             && ValidPending(st.pending)
             && VerifySignature(st.op.state, target, o.verifySignature).Pass?
             && InclusionLeaves(st.op, st.pending).Success?
             && var l := InclusionLeaves(st.op, st.pending).value;
                o.proveInclusion(target.checkpoint.logLength, l.indices, target.checkpoint, l.leaves).Pass?
    ensures var r := UpdateCheckpoint(store, target, packages, responses, o);
            var v := CheckProgression(store.checkpoint, target, o.proveConsistency).outcome;
            && (r.outcome.Success? <==> v.Pass?)
            && (v.Fail? ==> r.outcome == Failure(v.error))
  {
  }

  /** Writing a list of packages with distinct names stores each of them and touches nothing else. */
  lemma {:induction false} PackageWritesEffect(s: RegistryStore, ids: seq<LogId>, infos: map<LogId, PackageInfo>)
    requires forall i :: 0 <= i < |ids| ==> ids[i] in infos
    requires forall i, j :: 0 <= i < j < |ids| ==> ids[i] != ids[j]
    requires forall id :: id in infos ==> id == PackageLog(infos[id].name)
    ensures var s' := ApplyWrites(s, PackageWrites(ids, infos));
            && s'.operator == s.operator && s'.checkpoint == s.checkpoint && s'.publish == s.publish
            && (forall i :: 0 <= i < |ids| ==>
                  infos[ids[i]].name in s'.packages && s'.packages[infos[ids[i]].name] == infos[ids[i]])
            && (forall n :: n in s.packages && PackageLog(n) !in ids ==>
                  n in s'.packages && s'.packages[n] == s.packages[n])
    decreases |ids|
  {
    if ids != [] {
      var w := PackageWrites(ids, infos);
      assert w[1..] == PackageWrites(ids[1..], infos);
      var s1 := ApplyWrite(s, w[0]);
      PackageWritesEffect(s1, ids[1..], infos);
      var s' := ApplyWrites(s, w);
      assert s' == ApplyWrites(s1, w[1..]);
      forall i | 0 <= i < |ids|
        ensures infos[ids[i]].name in s'.packages && s'.packages[infos[ids[i]].name] == infos[ids[i]]
      {
        if i > 0 {
          assert ids[i] == ids[1..][i - 1];
        } else {
          var n := infos[ids[0]].name;
          assert PackageLog(n) !in ids[1..] by {
            forall j | 0 <= j < |ids[1..]| ensures ids[1..][j] != PackageLog(n) {
              assert ids[1..][j] == ids[j + 1];
            }
          }
        }
      }
      forall n | n in s.packages && PackageLog(n) !in ids
        ensures n in s'.packages && s'.packages[n] == s.packages[n]
      {
        assert PackageLog(n) != ids[0];
        assert PackageLog(n) !in ids[1..] by {
          forall j | 0 <= j < |ids[1..]| ensures ids[1..][j] != PackageLog(n) {
            assert ids[1..][j] == ids[j + 1];
          }
        }
      }
    }
  }

  /** The effect on storage of committing a fetched and verified state. */
  lemma CommitEffect(store: RegistryStore, st: LoopState, target: SignedCheckpoint)
    requires ValidPending(st.pending)
    ensures var s' := ApplyWrites(store, CommitWrites(st, target));
            var stamped := Stamp(st.pending, target.checkpoint);
            && s'.checkpoint == Some(target)
            && s'.operator == Some(st.op)
            && s'.publish == store.publish
            && (forall id :: id in stamped ==>
                  stamped[id].name in s'.packages && s'.packages[stamped[id].name] == stamped[id])
            && (forall n :: n in store.packages && PackageLog(n) !in stamped ==>
                  n in s'.packages && s'.packages[n] == store.packages[n])
  {
    var stamped := Stamp(st.pending, target.checkpoint);
    var ids := st.pending.order;
    var s1 := ApplyWrite(store, StoreOperator(st.op));
    var pw := PackageWrites(ids, stamped);
    assert CommitWrites(st, target) == ([StoreOperator(st.op)] + pw) + [StoreCheckpoint(target)];
    ApplyWritesAppend(store, [StoreOperator(st.op)] + pw, [StoreCheckpoint(target)]);
    ApplyWritesAppend(store, [StoreOperator(st.op)], pw);
    assert ApplyWrites(store, [StoreOperator(st.op)]) == s1;
    PackageWritesEffect(s1, ids, stamped);
    var s2 := ApplyWrites(s1, pw);
    assert ApplyWrites(s2, [StoreCheckpoint(target)]) == s2.(checkpoint := Some(target));
    forall id | id in stamped
      ensures stamped[id].name in s2.packages && s2.packages[stamped[id].name] == stamped[id]
    {
      var i :| 0 <= i < |ids| && ids[i] == id;
    }
  }

  /**
   * After a committing synchronisation the target is the stored checkpoint,
   * every updated package is stored carrying the target checkpoint, and every
   * other stored package is untouched.
   */
  lemma CommitStoresTarget(store: RegistryStore, target: SignedCheckpoint, packages: seq<PackageInfo>,
                           responses: seq<FetchResponse>, o: Oracles)
    requires UpdateCheckpoint(store, target, packages, responses, o).writes != []
    ensures var r := UpdateCheckpoint(store, target, packages, responses, o);
            r.outcome.Success? && r.outcome.value.Keys == PendingOf(packages, target.checkpoint).infos.Keys
    ensures var r := UpdateCheckpoint(store, target, packages, responses, o);
            CommitsTo(store, ApplyWrites(store, r.writes), target, r.outcome)
  {
    CommitShape(store, target, packages, responses, o);
    var st := Fetched(store, target, packages, responses, o).value;
    CommitEffect(store, st, target);
  }

  /** A synchronisation that writes commits its fetched state, stamped with the target checkpoint. */
  lemma CommitShape(store: RegistryStore, target: SignedCheckpoint, packages: seq<PackageInfo>,
                    responses: seq<FetchResponse>, o: Oracles)
    requires UpdateCheckpoint(store, target, packages, responses, o).writes != []
    ensures var r := UpdateCheckpoint(store, target, packages, responses, o);
            var f := Fetched(store, target, packages, responses, o);
            && f.Success?
            && ValidPending(f.value.pending)
            && Advances(PendingOf(packages, target.checkpoint), f.value.pending)
            && r.writes == CommitWrites(f.value, target)
            && r.outcome == Success(Stamp(f.value.pending, target.checkpoint))
  {
    SyncFailsAtFirstFailingStage(store, target, packages, responses, o);
  }

  /**
   * `s'` is `s` after committing the packages in `outcome` at checkpoint
   * `target`: the target is the stored checkpoint, each package is stored
   * carrying it, and no other package changed.
   */
  ghost predicate CommitsTo(s: RegistryStore, s': RegistryStore, target: SignedCheckpoint,
                            outcome: Result<map<LogId, PackageInfo>, ClientError>)
  {
    && outcome.Success?
    && s'.checkpoint == Some(target)
    && s'.operator.Some?
    && s'.publish == s.publish
    && (forall id :: id in outcome.value ==>
          && outcome.value[id].checkpoint == Some(target.checkpoint)
          && outcome.value[id].name in s'.packages
          && s'.packages[outcome.value[id].name] == outcome.value[id])
    && (forall n :: n in s.packages && PackageLog(n) !in outcome.value ==>
          n in s'.packages && s'.packages[n] == s.packages[n])
  }

  /** A successful synchronisation returns every package that was not already at the target checkpoint. */
  lemma SyncUpdatesStalePackages(store: RegistryStore, target: SignedCheckpoint, packages: seq<PackageInfo>,
                                 responses: seq<FetchResponse>, o: Oracles)
    ensures var r := UpdateCheckpoint(store, target, packages, responses, o);
            r.outcome.Success? ==>
              forall i :: 0 <= i < |packages| && packages[i].checkpoint != Some(target.checkpoint) ==>
                PackageLog(packages[i].name) in r.outcome.value
  {
    var r := UpdateCheckpoint(store, target, packages, responses, o);
    if r.outcome.Success? && r.calls != [] {
      assert r.writes != [];
      CommitStoresTarget(store, target, packages, responses, o);
    }
  }

  /** Every package a successful synchronisation returns has a head record. */
  lemma SyncedPackagesHaveHeads(store: RegistryStore, target: SignedCheckpoint, packages: seq<PackageInfo>,
                                responses: seq<FetchResponse>, o: Oracles)
    ensures var r := UpdateCheckpoint(store, target, packages, responses, o);
            r.outcome.Success? ==> forall id :: id in r.outcome.value ==> r.outcome.value[id].log.state.head.Some?
  {
    var r := UpdateCheckpoint(store, target, packages, responses, o);
    if r.outcome.Success? && r.writes != [] {
      CommitShape(store, target, packages, responses, o);
      WritesOnlyWhenTrusted(store, target, packages, responses, o);
      var st := Fetched(store, target, packages, responses, o).value;
      assert PackagesHaveHeads(st.pending);
    }
  }

  /**
   * Synchronisation is idempotent: synchronising the packages a successful
   * synchronisation returned to the same checkpoint again fetches,
   * verifies and stores nothing.
   */
  lemma SecondSyncIsNoOp(store: RegistryStore, target: SignedCheckpoint, packages: seq<PackageInfo>,
                         responses: seq<FetchResponse>, o: Oracles, again: seq<PackageInfo>,
                         responses': seq<FetchResponse>)
    requires UpdateCheckpoint(store, target, packages, responses, o).outcome.Success?
    requires forall i :: 0 <= i < |again| ==>
               again[i] in UpdateCheckpoint(store, target, packages, responses, o).outcome.value.Values
    ensures var s' := ApplyWrites(store, UpdateCheckpoint(store, target, packages, responses, o).writes);
            var r' := UpdateCheckpoint(s', target, again, responses', o);
            r'.calls == [] && r'.writes == [] && r'.outcome == Success(map[])
  {
    var r := UpdateCheckpoint(store, target, packages, responses, o);
    WritesOnlyWhenTrusted(store, target, packages, responses, o);
    if r.writes != [] {
      CommitStoresTarget(store, target, packages, responses, o);
    }
    forall i | 0 <= i < |again| ensures again[i].checkpoint == Some(target.checkpoint) {
      assert again[i] in r.outcome.value.Values;
      var id :| id in r.outcome.value && r.outcome.value[id] == again[i];
    }
  }

  /** Head indices never move backwards: not for the operator log, not for any updated package. */
  lemma HeadsNeverDecrease(store: RegistryStore, target: SignedCheckpoint, packages: seq<PackageInfo>,
                           responses: seq<FetchResponse>, o: Oracles)
    ensures var r := UpdateCheckpoint(store, target, packages, responses, o);
            var pending := PendingOf(packages, target.checkpoint);
            r.outcome.Success? ==>
              forall id :: id in r.outcome.value ==>
                id in pending.infos &&
                AtLeast(r.outcome.value[id].log.headIndex, pending.infos[id].log.headIndex)
    ensures var r := UpdateCheckpoint(store, target, packages, responses, o);
            r.writes != [] ==>
              var s' := ApplyWrites(store, r.writes);
              s'.operator.Some? && AtLeast(s'.operator.value.headIndex, LoadOperator(store).headIndex)
  {
    var r := UpdateCheckpoint(store, target, packages, responses, o);
    WritesOnlyWhenTrusted(store, target, packages, responses, o);
    if r.writes != [] {
      var st := Fetched(store, target, packages, responses, o).value;
      CommitEffect(store, st, target);
    }
  }

  // ---------------------------------------------------------------------------
  // Paging does not change what is validated.
  // ---------------------------------------------------------------------------

  /** All records fetched for log `id` in a list of batches, in order. */
  function RecordsFor(id: LogId, batches: seq<PackageBatch>): seq<FetchedRecord>
    decreases |batches|
  {
    if batches == [] then []
    else (if batches[0].logId == id then batches[0].records else []) + RecordsFor(id, batches[1..])
  }

  /** The operator records of the first `n` pages, in order. */
  function OperatorRecordsOf(responses: seq<FetchResponse>, n: nat): seq<FetchedRecord>
    requires n <= |responses|
  {
    if n == 0 then []
    else OperatorRecordsOf(responses, n - 1) +
         (if responses[n - 1].Success? then responses[n - 1].value.operator else [])
  }

  /** The records for log `id` in the first `n` pages, in order. */
  function PackageRecordsOf(id: LogId, responses: seq<FetchResponse>, n: nat): seq<FetchedRecord>
    requires n <= |responses|
  {
    if n == 0 then []
    else PackageRecordsOf(id, responses, n - 1) +
         (if responses[n - 1].Success? then RecordsFor(id, responses[n - 1].value.packages) else [])
  }

  /** Applying a page's batches replays, for every pending log, all of its records of that page in one go. */
  lemma {:induction false} BatchesReplayEachLog(p: Pending, batches: seq<PackageBatch>, o: Oracles)
    requires ValidPending(p)
    requires ApplyBatches(p, batches, o).Success?
    ensures forall id :: id in p.infos ==>
              Replay(p.infos[id].log, RecordsFor(id, batches), o.validatePackage)
              == Success(ApplyBatches(p, batches, o).value.infos[id].log)
    decreases |batches|
  {
    if batches == [] {
    } else {
      var q := ApplyBatch(p, batches[0], o).value;
      BatchesReplayEachLog(q, batches[1..], o);
      var r := ApplyBatches(p, batches, o).value;
      forall id | id in p.infos
        ensures Replay(p.infos[id].log, RecordsFor(id, batches), o.validatePackage) == Success(r.infos[id].log)
      {
        var here := if batches[0].logId == id then batches[0].records else [];
        ReplayAppend(p.infos[id].log, here, RecordsFor(id, batches[1..]), o.validatePackage);
        if batches[0].logId != id {
          assert q.infos[id] == p.infos[id];
          assert Replay(p.infos[id].log, here, o.validatePackage) == Success(p.infos[id].log);
        }
      }
    }
  }

  /**
   * Batch `k` of a page applies: it is for a requested log, and replaying
   * that log's records from the page's first `k + 1` batches succeeds and
   * leaves the log with a head.
   */
  ghost predicate BatchApplies(p: Pending, batches: seq<PackageBatch>, k: nat, o: Oracles)
    requires k < |batches|
  {
    var id := batches[k].logId;
    && id in p.infos
    && var replayed := Replay(p.infos[id].log, RecordsFor(id, batches[..k + 1]), o.validatePackage);
       replayed.Success? && replayed.value.state.head.Some?
  }

  /** A page's batches apply exactly when each batch applies on top of the batches before it. */
  lemma {:induction false} ApplyBatchesSucceedsIffEveryBatchApplies(p: Pending, batches: seq<PackageBatch>, o: Oracles)
    requires ValidPending(p)
    ensures ApplyBatches(p, batches, o).Success? <==> forall k :: 0 <= k < |batches| ==> BatchApplies(p, batches, k, o)
    decreases |batches|
  {
    if batches != [] {
      FirstBatchApplies(p, batches, o);
      if ApplyBatch(p, batches[0], o).Success? {
        var q := ApplyBatch(p, batches[0], o).value;
        var tail := batches[1..];
        ApplyBatchesSucceedsIffEveryBatchApplies(q, tail, o);
        assert ApplyBatches(p, batches, o).Success? <==> ApplyBatches(q, tail, o).Success?;
        forall k | 1 <= k < |batches| ensures BatchApplies(p, batches, k, o) <==> BatchApplies(q, tail, k - 1, o) {
          LaterBatchApplies(p, batches, o, k);
        }
        if forall k :: 0 <= k < |batches| ==> BatchApplies(p, batches, k, o) {
          forall k | 0 <= k < |tail| ensures BatchApplies(q, tail, k, o) {
            assert BatchApplies(p, batches, k + 1, o);
          }
        }
        if forall k :: 0 <= k < |tail| ==> BatchApplies(q, tail, k, o) {
          forall k | 0 <= k < |batches| ensures BatchApplies(p, batches, k, o) {
            if k > 0 {
              assert BatchApplies(q, tail, k - 1, o);
            }
          }
        }
      }
    }
  }

  /** The first batch applies on its own terms exactly when `ApplyBatch` accepts it. */
  lemma FirstBatchApplies(p: Pending, batches: seq<PackageBatch>, o: Oracles)
    requires ValidPending(p)
    requires batches != []
    ensures BatchApplies(p, batches, 0, o) <==> ApplyBatch(p, batches[0], o).Success?
  {
    var b := batches[0];
    assert batches[..1] == [b];
    assert [b][1..] == [];
    assert RecordsFor(b.logId, [b]) == b.records;
  }

  /** Once the first batch applied, batch `k` applies exactly when it applies to the rest of the page. */
  lemma LaterBatchApplies(p: Pending, batches: seq<PackageBatch>, o: Oracles, k: nat)
    requires ValidPending(p)
    requires 1 <= k < |batches|
    requires ApplyBatch(p, batches[0], o).Success?
    ensures BatchApplies(p, batches, k, o) <==> BatchApplies(ApplyBatch(p, batches[0], o).value, batches[1..], k - 1, o)
  {
    var tail := batches[1..];
    assert tail[k - 1] == batches[k];
    var id := batches[k].logId;
    if id in p.infos {
      BatchPrefixShift(p, batches, o, id, k);
    }
  }

  /** After the first batch applied, replaying a log's records of the first `n + 1` batches continues from it. */
  lemma {:induction false} BatchPrefixShift(p: Pending, batches: seq<PackageBatch>, o: Oracles, id: LogId, n: nat)
    requires ValidPending(p)
    requires n + 1 <= |batches| && id in p.infos
    requires ApplyBatch(p, batches[0], o).Success?
    ensures var q := ApplyBatch(p, batches[0], o).value;
            && id in q.infos
            && Replay(p.infos[id].log, RecordsFor(id, batches[..n + 1]), o.validatePackage)
               == Replay(q.infos[id].log, RecordsFor(id, batches[1..][..n]), o.validatePackage)
  {
    var q := ApplyBatch(p, batches[0], o).value;
    var prefix := batches[..n + 1];
    assert prefix[0] == batches[0];
    assert prefix[1..] == batches[1..][..n];
    var here := if batches[0].logId == id then batches[0].records else [];
    assert RecordsFor(id, prefix) == here + RecordsFor(id, batches[1..][..n]);
    ReplayAppend(p.infos[id].log, here, RecordsFor(id, batches[1..][..n]), o.validatePackage);
    if batches[0].logId != id {
      assert Replay(p.infos[id].log, here, o.validatePackage) == Success(p.infos[id].log);
    }
  }

  /**
   * A fetch loop that succeeds after `k` pages leaves every log exactly as
   * one replay of all its records from those pages, concatenated in page
   * order: records repeated by overlapping pages are applied once.
   */
  lemma LoopIsReplayOfAllPages(logLength: nat, st: LoopState, responses: seq<FetchResponse>, o: Oracles)
    requires ValidPending(st.pending)
    requires FetchLoop(logLength, st, responses, o).outcome.Success?
    ensures var r := FetchLoop(logLength, st, responses, o);
            var k := |r.calls|;
            && k <= |responses|
            && Replay(st.op, OperatorRecordsOf(responses, k), o.validateOperator) == Success(r.outcome.value.op)
            && forall id :: id in st.pending.infos ==>
                 Replay(st.pending.infos[id].log, PackageRecordsOf(id, responses, k), o.validatePackage)
                 == Success(r.outcome.value.pending.infos[id].log)
  {
    var r := FetchLoop(logLength, st, responses, o);
    PagesAreReplayOfTheirRecords(st, responses, |r.calls|, o);
  }

  /** Applying the first `n` pages replays each log's records of those pages, concatenated in page order. */
  lemma {:induction false} PagesAreReplayOfTheirRecords(st: LoopState, responses: seq<FetchResponse>, n: nat, o: Oracles)
    requires ValidPending(st.pending) && n <= |responses|
    requires AfterPages(st, responses, n, o).Success?
    ensures Replay(st.op, OperatorRecordsOf(responses, n), o.validateOperator) == Success(AfterPages(st, responses, n, o).value.op)
    ensures forall id :: id in st.pending.infos ==>
              Replay(st.pending.infos[id].log, PackageRecordsOf(id, responses, n), o.validatePackage)
              == Success(AfterPages(st, responses, n, o).value.pending.infos[id].log)
    decreases n
  {
    if n == 0 {
      forall id | id in st.pending.infos
        ensures Replay(st.pending.infos[id].log, [], o.validatePackage) == Success(st.pending.infos[id].log)
      {
      }
    } else {
      var page := responses[0].value;
      var st' := ApplyPage(st, page, o).value;
      var tail := responses[1..];
      BatchesReplayEachLog(st.pending, page.packages, o);
      PagesAreReplayOfTheirRecords(st', tail, n - 1, o);
      OperatorRecordsShift(responses, n);
      ReplayAppend(st.op, page.operator, OperatorRecordsOf(tail, n - 1), o.validateOperator);
      forall id | id in st.pending.infos
        ensures Replay(st.pending.infos[id].log, PackageRecordsOf(id, responses, n), o.validatePackage)
                == Success(AfterPages(st, responses, n, o).value.pending.infos[id].log)
      {
        PackageRecordsShift(id, responses, n);
        ReplayAppend(st.pending.infos[id].log, RecordsFor(id, page.packages), PackageRecordsOf(id, tail, n - 1),
                     o.validatePackage);
      }
    }
  }

  lemma {:induction false} OperatorRecordsShift(responses: seq<FetchResponse>, k: nat)
    requires 1 <= k <= |responses|
    requires responses[0].Success?
    ensures OperatorRecordsOf(responses, k) == responses[0].value.operator + OperatorRecordsOf(responses[1..], k - 1)
    decreases k
  {
    if k > 1 {
      OperatorRecordsShift(responses, k - 1);
      assert responses[k - 1] == responses[1..][k - 2];
    }
  }

  lemma {:induction false} PackageRecordsShift(id: LogId, responses: seq<FetchResponse>, k: nat)
    requires 1 <= k <= |responses|
    requires responses[0].Success?
    ensures PackageRecordsOf(id, responses, k) ==
            RecordsFor(id, responses[0].value.packages) + PackageRecordsOf(id, responses[1..], k - 1)
    decreases k
  {
    if k > 1 {
      PackageRecordsShift(id, responses, k - 1);
      assert responses[k - 1] == responses[1..][k - 2];
    }
  }
}
