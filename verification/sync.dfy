/**
 * The log synchroniser (`Client::update_checkpoint`): brings the operator log
 * and a set of package logs up to a target checkpoint, verifies the
 * checkpoint and the inclusion of every log head in it, checks progression
 * against the stored checkpoint, and only then writes to storage.
 */
module Sync {
  import opened Wrappers
  import opened Types
  import opened Errors
  import opened LogReplay
  import opened CheckpointVerifier

  /**
   * The collaborators the synchroniser consults but does not implement:
   * the two log validators, the signature check, and the registry's
   * inclusion and consistency proofs.
   */
  datatype Oracles = Oracles(
    validateOperator: (OperatorState, Envelope) -> Result<OperatorState, ValidationError>,
    validatePackage: (PackageState, Envelope) -> Result<PackageState, ValidationError>,
    verifySignature: (PublicKey, SignedCheckpoint) -> bool,
    proveInclusion: (nat, seq<nat>, Checkpoint, seq<LogLeaf>) -> Outcome<ApiError>,
    proveConsistency: (nat, nat, Digest, Digest) -> Outcome<ApiError>)

  /** A response of the fetch-logs endpoint: a page, or the API error it failed with. */
  type FetchResponse = Result<FetchPage, ApiError>

  /**
   * The package logs being updated, keyed by log id; `order` is the order in
   * which they are visited when the inclusion leaves are built.
   */
  datatype Pending = Pending(order: seq<LogId>, infos: map<LogId, PackageInfo>)

  ghost predicate ValidPending(p: Pending)
  {
    && (forall i, j :: 0 <= i < j < |p.order| ==> p.order[i] != p.order[j])
    && (forall i :: 0 <= i < |p.order| ==> p.order[i] in p.infos)
    && (forall id :: id in p.infos ==> id in p.order && id == PackageLog(p.infos[id].name))
  }

  /**
   * The packages that need updating: those whose stored checkpoint is not the
   * target. Entries for the same log collapse into the last one, as collecting
   * into a map does.
   */
  function PendingOf(packages: seq<PackageInfo>, cp: Checkpoint): (p: Pending)
    ensures ValidPending(p)
    ensures forall id :: id in p.infos ==>
              p.infos[id] in packages && p.infos[id].checkpoint != Some(cp)
    ensures forall i :: 0 <= i < |packages| && packages[i].checkpoint != Some(cp) ==>
              PackageLog(packages[i].name) in p.infos
    ensures p.order == [] <==> forall i :: 0 <= i < |packages| ==> packages[i].checkpoint == Some(cp)
    decreases |packages|
  {
    if packages == [] then Pending([], map[])
    else
      var init := packages[..|packages| - 1];
      var last := packages[|packages| - 1];
      var prev := PendingOf(init, cp);
      assert packages == init + [last];
      if last.checkpoint == Some(cp) then prev
      else Insert(prev, last)
  }

  /** Adds (or replaces) the entry for the log of `info`. */
  function Insert(p: Pending, info: PackageInfo): (q: Pending)
    requires ValidPending(p)
    ensures ValidPending(q)
    ensures q.infos == p.infos[PackageLog(info.name) := info]
    ensures q.order != []
  {
    var id := PackageLog(info.name);
    if id in p.infos then Pending(p.order, p.infos[id := info])
    else Pending(p.order + [id], p.infos[id := info])
  }

  /** The fetch token each pending package log resumes from. */
  function Cursors(p: Pending): map<LogId, Option<FetchToken>>
  {
    map id | id in p.infos :: p.infos[id].log.headToken
  }

  /** Resolves a log id to the pending package it belongs to, for error translation. */
  function PendingName(p: Pending): LogId -> Option<PackageName>
  {
    id => if id in p.infos then Some(p.infos[id].name) else None
  }

  /**
   * `q` is `p` after records were applied: the same logs in the same order,
   * names and checkpoints untouched, and no head index lower than before.
   */
  ghost predicate Advances(p: Pending, q: Pending)
  {
    && q.order == p.order
    && q.infos.Keys == p.infos.Keys
    && forall id :: id in p.infos ==>
         && q.infos[id].name == p.infos[id].name
         && q.infos[id].checkpoint == p.infos[id].checkpoint
         && AtLeast(q.infos[id].log.headIndex, p.infos[id].log.headIndex)
  }

  /** Applies the fetched operator records to the operator log. */
  function ApplyOperatorRecords(op: OperatorInfo, records: seq<FetchedRecord>, o: Oracles): (r: Result<OperatorInfo, ClientError>)
    ensures r.Success? <==> Replay(op, records, o.validateOperator).Success?
    ensures r.Success? ==> r.value == Replay(op, records, o.validateOperator).value
    ensures Replay(op, records, o.validateOperator) == Failure(Undecodable) ==> r == Failure(Other(UndecodableRecord))
    ensures Replay(op, records, o.validateOperator).Failure? && Replay(op, records, o.validateOperator).error.Invalid? ==>
              r == Failure(OperatorValidationFailed(Replay(op, records, o.validateOperator).error.inner))
  {
    match Replay(op, records, o.validateOperator)
    case Success(c) => Success(c)
    case Failure(Undecodable) => Failure(Other(UndecodableRecord))
    case Failure(Invalid(inner)) => Failure(OperatorValidationFailed(inner))
  }

  /**
   * Applies one batch of package records. A batch for a log that was not
   * requested fails, and so does a package log that still has no head after
   * its batch.
   */
  function ApplyBatch(p: Pending, b: PackageBatch, o: Oracles): (r: Result<Pending, ClientError>)
    requires ValidPending(p)
    ensures b.logId !in p.infos ==> r == Failure(Other(UnknownPackageLog(b.logId)))
    ensures r.Success? ==>
              && b.logId in p.infos
              && ValidPending(r.value) && Advances(p, r.value)
              && Replay(p.infos[b.logId].log, b.records, o.validatePackage) == Success(r.value.infos[b.logId].log)
              && r.value.infos[b.logId].log.state.head.Some?
              && forall id :: id in p.infos && id != b.logId ==> r.value.infos[id] == p.infos[id]
    ensures b.logId in p.infos ==>
              var replayed := Replay(p.infos[b.logId].log, b.records, o.validatePackage);
              && (r.Success? <==> replayed.Success? && replayed.value.state.head.Some?)
              && (replayed == Failure(Undecodable) ==> r == Failure(Other(UndecodableRecord)))
              && (replayed.Failure? && replayed.error.Invalid? ==>
                    r == Failure(PackageValidationFailed(p.infos[b.logId].name, replayed.error.inner)))
              && (replayed.Success? && replayed.value.state.head.None? ==>
                    r == Failure(PackageLogEmpty(p.infos[b.logId].name)))
  {
    if b.logId !in p.infos then Failure(Other(UnknownPackageLog(b.logId)))
    else
      var info := p.infos[b.logId];
      match Replay(info.log, b.records, o.validatePackage)
      case Failure(Undecodable) => Failure(Other(UndecodableRecord))
      case Failure(Invalid(inner)) => Failure(PackageValidationFailed(info.name, inner))
      case Success(c) =>
        if c.state.head.None? then Failure(PackageLogEmpty(info.name))
        else
          ReplayHeadIsMaximum(info.log, b.records, o.validatePackage);
          Success(p.(infos := p.infos[b.logId := info.(log := c)]))
  }

  /** Applies the package batches of one page, in the order the page lists them. */
  function ApplyBatches(p: Pending, batches: seq<PackageBatch>, o: Oracles): (r: Result<Pending, ClientError>)
    requires ValidPending(p)
    ensures r.Success? ==> ValidPending(r.value) && Advances(p, r.value)
    decreases |batches|
  {
    if batches == [] then Success(p)
    else
      match ApplyBatch(p, batches[0], o)
      case Failure(e) => Failure(e)
      case Success(q) =>
        var r := ApplyBatches(q, batches[1..], o);
        if r.Failure? then r else AdvancesTrans(p, q, r.value); r
  }

  /** A page holding a batch for a log that was not requested fails, wherever that batch is. */
  lemma {:induction false} ApplyBatchesRejectsUnknownLog(p: Pending, batches: seq<PackageBatch>, o: Oracles, k: nat)
    requires ValidPending(p)
    requires k < |batches| && batches[k].logId !in p.infos
    ensures ApplyBatches(p, batches, o).Failure?
    decreases |batches|
  {
    if k > 0 {
      var q := ApplyBatch(p, batches[0], o);
      if q.Success? {
        assert batches[1..][k - 1] == batches[k];
        ApplyBatchesRejectsUnknownLog(q.value, batches[1..], o, k - 1);
      }
    }
  }

  /** The pending logs after applying the first `n` batches one by one, or the first failure. */
  function AfterBatches(p: Pending, batches: seq<PackageBatch>, n: nat, o: Oracles): (r: Result<Pending, ClientError>)
    requires ValidPending(p)
    requires n <= |batches|
    ensures r.Success? ==> ValidPending(r.value)
    decreases n
  {
    if n == 0 then Success(p)
    else
      match ApplyBatch(p, batches[0], o)
      case Failure(e) => Failure(e)
      case Success(q) => AfterBatches(q, batches[1..], n - 1, o)
  }

  /**
   * A page fails at its first batch that does not apply, with that batch's
   * error: every batch before it applied, in order.
   */
  lemma {:induction false} BatchesStopAtFirstFailure(p: Pending, batches: seq<PackageBatch>, o: Oracles, k: nat)
    requires ValidPending(p)
    requires k < |batches| && AfterBatches(p, batches, k, o).Success?
    requires ApplyBatch(AfterBatches(p, batches, k, o).value, batches[k], o).Failure?
    ensures ApplyBatches(p, batches, o) == ApplyBatch(AfterBatches(p, batches, k, o).value, batches[k], o)
    decreases k
  {
    if k > 0 {
      var q := ApplyBatch(p, batches[0], o).value;
      assert batches[1..][k - 1] == batches[k];
      BatchesStopAtFirstFailure(q, batches[1..], o, k - 1);
    }
  }

  /** Pending log `id` is present and has a head. */
  ghost predicate HasHead(p: Pending, id: LogId)
  {
    id in p.infos && p.infos[id].log.state.head.Some?
  }

  /** After a successful page no pending log has lost its head. */
  lemma {:induction false} ApplyBatchesKeepHeads(p: Pending, batches: seq<PackageBatch>, o: Oracles, id: LogId)
    requires ValidPending(p)
    requires ApplyBatches(p, batches, o).Success?
    requires HasHead(p, id)
    ensures HasHead(ApplyBatches(p, batches, o).value, id)
    decreases |batches|
  {
    if batches != [] {
      var q := ApplyBatch(p, batches[0], o).value;
      assert HasHead(q, id);
      ApplyBatchesKeepHeads(q, batches[1..], o, id);
    }
  }

  /** After a successful page every log it carried records for was requested and has a head. */
  lemma {:induction false} ApplyBatchesLeaveHeads(p: Pending, batches: seq<PackageBatch>, o: Oracles, k: nat)
    requires ValidPending(p)
    requires ApplyBatches(p, batches, o).Success?
    requires k < |batches|
    ensures HasHead(ApplyBatches(p, batches, o).value, batches[k].logId)
    decreases |batches|
  {
    var q := ApplyBatch(p, batches[0], o).value;
    if k == 0 {
      assert HasHead(q, batches[0].logId);
      ApplyBatchesKeepHeads(q, batches[1..], o, batches[0].logId);
    } else {
      assert batches[1..][k - 1] == batches[k];
      ApplyBatchesLeaveHeads(q, batches[1..], o, k - 1);
    }
  }

  lemma AdvancesTrans(p: Pending, q: Pending, r: Pending)
    requires Advances(p, q) && Advances(q, r)
    ensures Advances(p, r)
  {
  }

  /** What the fetch loop tracks: the operator log and the pending package logs. */
  datatype LoopState = LoopState(op: OperatorInfo, pending: Pending)

  /** Applies one fetched page: operator records first, then the package batches. */
  function ApplyPage(st: LoopState, page: FetchPage, o: Oracles): (r: Result<LoopState, ClientError>)
    requires ValidPending(st.pending)
    ensures r.Success? ==>
              && ValidPending(r.value.pending) && Advances(st.pending, r.value.pending)
              && Replay(st.op, page.operator, o.validateOperator) == Success(r.value.op)
              && AtLeast(r.value.op.headIndex, st.op.headIndex)
    ensures var replayed := Replay(st.op, page.operator, o.validateOperator);
            var batches := ApplyBatches(st.pending, page.packages, o);
            && (r.Success? <==> replayed.Success? && batches.Success?)
            && (r.Success? ==> r.value.pending == batches.value)
            && (replayed == Failure(Undecodable) ==> r == Failure(Other(UndecodableRecord)))
            && (replayed.Failure? && replayed.error.Invalid? ==> r == Failure(OperatorValidationFailed(replayed.error.inner)))
            && (replayed.Success? && batches.Failure? ==> r == Failure(batches.error))
  {
    match ApplyOperatorRecords(st.op, page.operator, o)
    case Failure(e) => Failure(e)
    case Success(op) =>
      ReplayHeadIsMaximum(st.op, page.operator, o.validateOperator);
      match ApplyBatches(st.pending, page.packages, o)
      case Failure(e) => Failure(e)
      case Success(p) => Success(LoopState(op, p))
  }

  /** The fetch calls the loop issued and where it ended. */
  datatype LoopRun = LoopRun(calls: seq<ApiCall>, outcome: Result<LoopState, ClientError>)

  /** The request the loop sends from state `st`: every log resumes from its head's fetch token. */
  function RequestFor(logLength: nat, st: LoopState): FetchRequest
  {
    FetchRequest(logLength, st.op.headToken, Cursors(st.pending))
  }

  /**
   * The loop state after applying the first `n` responses in order, whatever
   * their `more` flags say; a failed response or page fails as the loop does.
   */
  function AfterPages(st: LoopState, responses: seq<FetchResponse>, n: nat, o: Oracles): (r: Result<LoopState, ClientError>)
    requires ValidPending(st.pending)
    requires n <= |responses|
    ensures r.Success? ==> ValidPending(r.value.pending) && Advances(st.pending, r.value.pending)
    decreases n
  {
    if n == 0 then Success(st)
    else
      match responses[0]
      case Failure(e) => Failure(TranslateLogNotFound(e, PendingName(st.pending)))
      case Success(page) =>
        match ApplyPage(st, page, o)
        case Failure(e) => Failure(e)
        case Success(st') =>
          var rest := AfterPages(st', responses[1..], n - 1, o);
          if rest.Failure? then rest else AdvancesTrans(st.pending, st'.pending, rest.value.pending); rest
  }

  /**
   * Request `i + 1` of `calls` resumes from the fetch tokens reached after
   * the first `i + 1` pages, and is sent only because page `i` said more
   * records remain.
   */
  ghost predicate ResumesAfterPages(logLength: nat, st: LoopState, responses: seq<FetchResponse>,
                                    calls: seq<ApiCall>, o: Oracles)
    requires ValidPending(st.pending)
  {
    && |calls| <= |responses| + 1
    && forall i :: 0 <= i < |calls| - 1 ==>
         && responses[i].Success? && responses[i].value.more
         && AfterPages(st, responses, i + 1, o).Success?
         && calls[i + 1] == FetchLogs(RequestFor(logLength, AfterPages(st, responses, i + 1, o).value))
  }

  lemma {:induction false} ResumesStep(logLength: nat, st: LoopState, responses: seq<FetchResponse>, o: Oracles,
                                       st': LoopState, later: seq<ApiCall>)
    requires ValidPending(st.pending)
    requires responses != [] && responses[0].Success? && responses[0].value.more
    requires ApplyPage(st, responses[0].value, o) == Success(st')
    requires later != [] && later[0] == FetchLogs(RequestFor(logLength, st'))
    requires ResumesAfterPages(logLength, st', responses[1..], later, o)
    ensures ResumesAfterPages(logLength, st, responses, [FetchLogs(RequestFor(logLength, st))] + later, o)
  {
    var calls := [FetchLogs(RequestFor(logLength, st))] + later;
    forall i | 0 <= i < |calls| - 1
      ensures && responses[i].Success? && responses[i].value.more
              && AfterPages(st, responses, i + 1, o).Success?
              && calls[i + 1] == FetchLogs(RequestFor(logLength, AfterPages(st, responses, i + 1, o).value))
    {
      assert AfterPages(st, responses, i + 1, o) == AfterPages(st', responses[1..], i, o);
      if i > 0 {
        assert responses[i] == responses[1..][i - 1];
      }
    }
  }

  /**
   * Fetches pages until one says no more records remain. Response `i`
   * answers the `i`-th request; if the registry gives no further response
   * the loop fails rather than stopping early.
   */
  function FetchLoop(logLength: nat, st: LoopState, responses: seq<FetchResponse>, o: Oracles): (r: LoopRun)
    requires ValidPending(st.pending)
    ensures 1 <= |r.calls| <= |responses| + 1
    ensures r.calls[0] == FetchLogs(RequestFor(logLength, st))
    ensures forall c :: c in r.calls ==> c.FetchLogs? && c.request.logLength == logLength
    ensures r.outcome.Success? ==>
              && |r.calls| <= |responses|
              && ValidPending(r.outcome.value.pending) && Advances(st.pending, r.outcome.value.pending)
              && AtLeast(r.outcome.value.op.headIndex, st.op.headIndex)
    ensures ResumesAfterPages(logLength, st, responses, r.calls, o)
    ensures r.outcome.Success? ==>
              && AfterPages(st, responses, |r.calls|, o) == r.outcome
              && responses[|r.calls| - 1].Success? && !responses[|r.calls| - 1].value.more
    ensures r.outcome.Failure? && |r.calls| <= |responses| ==> r.outcome == AfterPages(st, responses, |r.calls|, o)
    ensures |r.calls| == |responses| + 1 ==> r.outcome == Failure(Api(NoResponse))
    decreases |responses|
  {
    var call := FetchLogs(RequestFor(logLength, st));
    if responses == [] then LoopRun([call], Failure(Api(NoResponse)))
    else
      match responses[0]
      case Failure(e) => LoopRun([call], Failure(TranslateLogNotFound(e, PendingName(st.pending))))
      case Success(page) =>
        match ApplyPage(st, page, o)
        case Failure(e) => LoopRun([call], Failure(e))
        case Success(st') =>
          if !page.more then LoopRun([call], Success(st'))
          else
            var rest := FetchLoop(logLength, st', responses[1..], o);
            ResumesStep(logLength, st, responses, o, st', rest.calls);
            if rest.outcome.Failure? then
              assert |rest.calls| <= |responses| - 1 ==>
                     AfterPages(st, responses, 1 + |rest.calls|, o) == AfterPages(st', responses[1..], |rest.calls|, o);
              LoopRun([call] + rest.calls, rest.outcome)
            else AdvancesTrans(st.pending, st'.pending, rest.outcome.value.pending);
                 assert responses[|rest.calls|] == responses[1..][|rest.calls| - 1];
                 LoopRun([call] + rest.calls, rest.outcome)
  }

  /**
   * The loop succeeds when the first `k` responses are pages that apply, all
   * but the last saying more records remain; it then sends exactly `k`
   * requests and ends in the state those pages lead to.
   */
  lemma {:induction false} FetchLoopSucceedsWhenPagesApply(logLength: nat, st: LoopState, responses: seq<FetchResponse>,
                                                           o: Oracles, k: nat)
    requires ValidPending(st.pending)
    requires 1 <= k <= |responses|
    requires forall i :: 0 <= i < k ==> responses[i].Success?
    requires forall i :: 0 <= i < k - 1 ==> responses[i].value.more
    requires !responses[k - 1].value.more
    requires AfterPages(st, responses, k, o).Success?
    ensures FetchLoop(logLength, st, responses, o).outcome == AfterPages(st, responses, k, o)
    ensures |FetchLoop(logLength, st, responses, o).calls| == k
    decreases k
  {
    var page := responses[0].value;
    var st' := ApplyPage(st, page, o).value;
    if k > 1 {
      var tail := responses[1..];
      assert forall i :: 0 <= i < k - 1 ==> tail[i] == responses[i + 1];
      FetchLoopSucceedsWhenPagesApply(logLength, st', tail, o, k - 1);
    }
  }

  /** The inclusion-proof request: the registry index and leaf of each log head. */
  datatype Leaves = Leaves(indices: seq<nat>, leaves: seq<LogLeaf>)

  /** Every pending package has a head index and a head record. */
  ghost predicate PackagesHaveHeads(p: Pending)
  {
    forall id :: id in p.infos ==> p.infos[id].log.headIndex.Some? && p.infos[id].log.state.head.Some?
  }

  /** The log of `info` has both a head index and a head record. */
  predicate FullHead(info: PackageInfo)
  {
    info.log.headIndex.Some? && info.log.state.head.Some?
  }

  /**
   * One leaf per package log in `ids`, in that order. The first log without
   * a head index fails the whole list with `PackageLogEmpty`; one with an
   * index but no head record is the source's `unwrap` panic.
   */
  function PackageLeaves(ids: seq<LogId>, infos: map<LogId, PackageInfo>): (r: Result<Leaves, ClientError>)
    requires forall i :: 0 <= i < |ids| ==> ids[i] in infos
    ensures r.Success? <==> forall i :: 0 <= i < |ids| ==> FullHead(infos[ids[i]])
    ensures r.Success? ==>
              && |r.value.indices| == |ids| && |r.value.leaves| == |ids|
              && forall i :: 0 <= i < |ids| ==>
                   && infos[ids[i]].log.headIndex.Some? && infos[ids[i]].log.state.head.Some?
                   && r.value.indices[i] == infos[ids[i]].log.headIndex.value
                   && r.value.leaves[i] == LogLeaf(ids[i], infos[ids[i]].log.state.head.value)
    ensures forall k :: 0 <= k < |ids| && (forall i :: 0 <= i < k ==> FullHead(infos[ids[i]])) ==>
              && (infos[ids[k]].log.headIndex.None? ==> r == Failure(PackageLogEmpty(infos[ids[k]].name)))
              && (infos[ids[k]].log.headIndex.Some? && infos[ids[k]].log.state.head.None? ==> r == Failure(HeadUnwrapPanic))
    decreases |ids|
  {
    if ids == [] then Success(Leaves([], []))
    else
      var info := infos[ids[0]];
      match info.log.headIndex
      case None => Failure(PackageLogEmpty(info.name))
      case Some(index) =>
        match info.log.state.head
        case None => Failure(HeadUnwrapPanic)
        case Some(head) =>
          match PackageLeaves(ids[1..], infos)
          case Failure(e) =>
            assert forall i :: 1 <= i < |ids| ==> ids[i] == ids[1..][i - 1];
            Failure(e)
          case Success(rest) =>
            assert forall i :: 1 <= i < |ids| ==> ids[i] == ids[1..][i - 1];
            Success(Leaves([index] + rest.indices, [LogLeaf(ids[0], head)] + rest.leaves))
  }

  /**
   * The inclusion leaves: the operator head first, then one leaf per pending
   * package; index list and leaf list have one entry per log.
   */
  function InclusionLeaves(op: OperatorInfo, p: Pending): (r: Result<Leaves, ClientError>)
    requires ValidPending(p)
    ensures op.headIndex.None? ==> r == Failure(NoOperatorRecords)
    ensures op.headIndex.Some? && op.state.head.None? ==> r == Failure(HeadUnwrapPanic)
    ensures op.headIndex.Some? && op.state.head.Some? ==>
              forall k :: 0 <= k < |p.order| && (forall i :: 0 <= i < k ==> FullHead(p.infos[p.order[i]])) ==>
                && (p.infos[p.order[k]].log.headIndex.None? ==> r == Failure(PackageLogEmpty(p.infos[p.order[k]].name)))
                && (p.infos[p.order[k]].log.headIndex.Some? && p.infos[p.order[k]].log.state.head.None? ==>
                      r == Failure(HeadUnwrapPanic))
    ensures r.Success? <==> op.headIndex.Some? && op.state.head.Some? && PackagesHaveHeads(p)
    ensures r.Success? ==>
              && |r.value.indices| == |p.order| + 1 && |r.value.leaves| == |p.order| + 1
              && r.value.indices[0] == op.headIndex.value
              && r.value.leaves[0] == LogLeaf(OperatorLog, op.state.head.value)
              && forall i :: 0 <= i < |p.order| ==>
                   && p.infos[p.order[i]].log.headIndex.Some? && p.infos[p.order[i]].log.state.head.Some?
                   && r.value.indices[i + 1] == p.infos[p.order[i]].log.headIndex.value
                   && r.value.leaves[i + 1] == LogLeaf(p.order[i], p.infos[p.order[i]].log.state.head.value)
  {
    match op.headIndex
    case None => Failure(NoOperatorRecords)
    case Some(index) =>
      match op.state.head
      case None => Failure(HeadUnwrapPanic)
      case Some(head) =>
        var pkgs := PackageLeaves(p.order, p.infos);
        PackagesHaveHeadsInOrder(p);
        match pkgs
        case Failure(e) => Failure(e)
        case Success(rest) => Success(Leaves([index] + rest.indices, [LogLeaf(OperatorLog, head)] + rest.leaves))
  }

  /** Every pending package has a full head exactly when every package in iteration order has. */
  lemma PackagesHaveHeadsInOrder(p: Pending)
    requires ValidPending(p)
    ensures PackagesHaveHeads(p) <==> forall i :: 0 <= i < |p.order| ==> FullHead(p.infos[p.order[i]])
  {
  }

  /**
   * Everything the synchroniser checks after fetching holds: the signature
   * verifies under the operator's key, every log has a head, the registry
   * proves the inclusion of those heads, and the checkpoint progresses from
   * the stored one.
   */
  ghost predicate Trusted(stored: Option<SignedCheckpoint>, target: SignedCheckpoint, st: LoopState, o: Oracles)
    requires ValidPending(st.pending)
  {
    && VerifySignature(st.op.state, target, o.verifySignature).Pass?
    && InclusionLeaves(st.op, st.pending).Success?
    && (var l := InclusionLeaves(st.op, st.pending).value;
        o.proveInclusion(target.checkpoint.logLength, l.indices, target.checkpoint, l.leaves).Pass?)
    && ProgressionOk(stored, target, o.proveConsistency)
  }

  /** The registry calls a synchronisation may issue: fetches and proof requests. */
  predicate SyncCall(c: ApiCall)
  {
    c.FetchLogs? || c.ProveInclusion? || c.ProveConsistency?
  }

  /** Signature, inclusion and progression checks, in that order. */
  function VerifyHeads(stored: Option<SignedCheckpoint>, target: SignedCheckpoint, st: LoopState, o: Oracles): (r: Checked)
    requires ValidPending(st.pending)
    ensures r.outcome.Pass? <==> Trusted(stored, target, st, o)
    ensures forall c :: c in r.calls ==> c.ProveInclusion? || c.ProveConsistency?
    ensures r.calls != [] ==>
              && InclusionLeaves(st.op, st.pending).Success?
              && (var l := InclusionLeaves(st.op, st.pending).value;
                  r.calls[0] == ProveInclusion(target.checkpoint.logLength, l.indices, l.leaves))
    ensures var sig := VerifySignature(st.op.state, target, o.verifySignature);
            sig.Fail? ==> r == Checked([], sig)
    ensures var leaves := InclusionLeaves(st.op, st.pending);
            VerifySignature(st.op.state, target, o.verifySignature).Pass? && leaves.Failure? ==>
              r == Checked([], Fail(leaves.error))
    ensures var leaves := InclusionLeaves(st.op, st.pending);
            VerifySignature(st.op.state, target, o.verifySignature).Pass? && leaves.Success? ==>
              var cp := target.checkpoint;
              var call := ProveInclusion(cp.logLength, leaves.value.indices, leaves.value.leaves);
              var proof := o.proveInclusion(cp.logLength, leaves.value.indices, cp, leaves.value.leaves);
              var progression := CheckProgression(stored, target, o.proveConsistency);
              && (proof.Fail? ==> r == Checked([call], Fail(Api(proof.error))))
              && (proof.Pass? ==> r.calls == [call] + progression.calls && r.outcome == progression.outcome)
  {
    var cp := target.checkpoint;
    match VerifySignature(st.op.state, target, o.verifySignature)
    case Fail(e) => Checked([], Fail(e))
    case Pass =>
      match InclusionLeaves(st.op, st.pending)
      case Failure(e) => Checked([], Fail(e))
      case Success(l) =>
        var call := ProveInclusion(cp.logLength, l.indices, l.leaves);
        match o.proveInclusion(cp.logLength, l.indices, cp, l.leaves)
        case Fail(e) => Checked([call], Fail(Api(e)))
        case Pass =>
          var prog := CheckProgression(stored, target, o.proveConsistency);
          Checked([call] + prog.calls, prog.outcome)
  }

  /** The pending packages as they are stored: synchronised to checkpoint `cp`. */
  function Stamp(p: Pending, cp: Checkpoint): map<LogId, PackageInfo>
  {
    map id | id in p.infos :: p.infos[id].(checkpoint := Some(cp))
  }

  /** One package write per log in `ids`, in that order. */
  function PackageWrites(ids: seq<LogId>, infos: map<LogId, PackageInfo>): (w: seq<StoreWrite>)
    requires forall i :: 0 <= i < |ids| ==> ids[i] in infos
    ensures |w| == |ids|
    ensures forall i :: 0 <= i < |ids| ==> w[i] == StorePackage(infos[ids[i]])
    decreases |ids|
  {
    if ids == [] then [] else [StorePackage(infos[ids[0]])] + PackageWrites(ids[1..], infos)
  }

  /** The commit: operator state, then every package, then the new trusted checkpoint. */
  function CommitWrites(st: LoopState, target: SignedCheckpoint): (w: seq<StoreWrite>)
    requires ValidPending(st.pending)
    ensures |w| == |st.pending.order| + 2
    ensures w[0] == StoreOperator(st.op)
    ensures w[|w| - 1] == StoreCheckpoint(target)
    ensures forall i :: 0 <= i < |st.pending.order| ==>
              w[i + 1] == StorePackage(st.pending.infos[st.pending.order[i]].(checkpoint := Some(target.checkpoint)))
  {
    [StoreOperator(st.op)] +
    PackageWrites(st.pending.order, Stamp(st.pending, target.checkpoint)) +
    [StoreCheckpoint(target)]
  }

  /** What a synchronisation did: registry calls, storage writes and its result. */
  datatype SyncRun = SyncRun(calls: seq<ApiCall>, writes: seq<StoreWrite>,
                             outcome: Result<map<LogId, PackageInfo>, ClientError>)

  /** The operator log as loaded from storage, or the default when none is stored. */
  function LoadOperator(store: RegistryStore): OperatorInfo
  {
    if store.operator.Some? then store.operator.value else DefaultOperator()
  }

  /**
   * Synchronises `packages` to the checkpoint `target`. On success the result
   * holds the updated package infos by log id; the caller's other copies are
   * left as they were.
   */
  function UpdateCheckpoint(store: RegistryStore, target: SignedCheckpoint, packages: seq<PackageInfo>,
                            responses: seq<FetchResponse>, o: Oracles): (r: SyncRun)
    ensures r.calls == [] <==> forall i :: 0 <= i < |packages| ==> packages[i].checkpoint == Some(target.checkpoint)
    ensures r.calls == [] ==> r.writes == [] && r.outcome == Success(map[])
    ensures r.outcome.Failure? ==> r.writes == []
    ensures forall c :: c in r.calls ==> SyncCall(c)
    ensures r.calls != [] ==>
              r.calls[0] == FetchLogs(FetchRequest(target.checkpoint.logLength, LoadOperator(store).headToken,
                                                   Cursors(PendingOf(packages, target.checkpoint))))
    ensures r.outcome.Success? && r.calls != [] ==>
              && |r.writes| == |PendingOf(packages, target.checkpoint).order| + 2
              && r.writes[0].StoreOperator?
              && r.writes[|r.writes| - 1] == StoreCheckpoint(target)
              && r.outcome.value.Keys == PendingOf(packages, target.checkpoint).infos.Keys
              && forall id :: id in r.outcome.value ==> r.outcome.value[id].checkpoint == Some(target.checkpoint)
  {
    var cp := target.checkpoint;
    var pending := PendingOf(packages, cp);
    if pending.order == [] then SyncRun([], [], Success(map[]))
    else
      var loop := FetchLoop(cp.logLength, LoopState(LoadOperator(store), pending), responses, o);
      match loop.outcome
      case Failure(e) => SyncRun(loop.calls, [], Failure(e))
      case Success(st) =>
        var checked := VerifyHeads(store.checkpoint, target, st, o);
        var calls := loop.calls + checked.calls;
        match checked.outcome
        case Fail(e) => SyncRun(calls, [], Failure(e))
        case Pass => SyncRun(calls, CommitWrites(st, target), Success(Stamp(st.pending, cp)))
  }
}
