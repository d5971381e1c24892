/**
 * The checkpoint verifier: the signature check against the operator's key
 * set, and the progression check of a new checkpoint against the one the
 * client trusted before.
 */
module CheckpointVerifier {
  import opened Wrappers
  import opened Types
  import opened Errors

  /** The registry calls a check issued and its verdict. */
  datatype Checked = Checked(calls: seq<ApiCall>, outcome: Outcome<ClientError>)

  /**
   * Resolves the checkpoint's key id in the validated operator state and
   * checks the signature with that key; the key is never supplied from outside.
   */
  function VerifySignature(op: OperatorState, ts: SignedCheckpoint,
                           verify: (PublicKey, SignedCheckpoint) -> bool): (r: Outcome<ClientError>)
    ensures r.Pass? <==> ts.keyId in op.keys && verify(op.keys[ts.keyId], ts)
    ensures ts.keyId !in op.keys ==> r == Fail(InvalidCheckpointKeyId(ts.keyId))
    ensures ts.keyId in op.keys && !verify(op.keys[ts.keyId], ts) ==> r == Fail(InvalidCheckpointSignature)
  {
    if ts.keyId !in op.keys then Fail(InvalidCheckpointKeyId(ts.keyId))
    else if !verify(op.keys[ts.keyId], ts) then Fail(InvalidCheckpointSignature)
    else Pass
  }

  /**
   * When a new checkpoint is an acceptable successor of the stored one: there
   * is none yet; or the log grew and the registry proved consistency from the
   * stored roots; or the length is unchanged and so are both roots.
   */
  ghost predicate ProgressionOk(stored: Option<SignedCheckpoint>, next: SignedCheckpoint,
                                consistency: (nat, nat, Digest, Digest) -> Outcome<ApiError>)
  {
    stored.None? ||
    var from := stored.value.checkpoint;
    var to := next.checkpoint;
    (from.logLength < to.logLength &&
     consistency(from.logLength, to.logLength, from.logRoot, to.logRoot).Pass?) ||
    (from.logLength == to.logLength && from.logRoot == to.logRoot && from.mapRoot == to.mapRoot)
  }

  /** The three-way length comparison of the stored checkpoint with the new one. */
  function CheckProgression(stored: Option<SignedCheckpoint>, next: SignedCheckpoint,
                            consistency: (nat, nat, Digest, Digest) -> Outcome<ApiError>): (r: Checked)
    ensures r.outcome.Pass? <==> ProgressionOk(stored, next, consistency)
    ensures stored.Some? && stored.value.checkpoint.logLength > next.checkpoint.logLength ==>
              r.outcome == Fail(CheckpointLogLengthRewind(stored.value.checkpoint.logLength, next.checkpoint.logLength))
    ensures stored.Some? && stored.value.checkpoint.logLength == next.checkpoint.logLength &&
            (stored.value.checkpoint.logRoot != next.checkpoint.logRoot ||
             stored.value.checkpoint.mapRoot != next.checkpoint.mapRoot) ==>
              r.outcome == Fail(CheckpointChangedLogRootOrMapRoot(next.checkpoint.logLength))
    ensures stored.Some? && stored.value.checkpoint.logLength < next.checkpoint.logLength ==>
              var from := stored.value.checkpoint;
              var to := next.checkpoint;
              && r.calls == [ProveConsistency(from.logLength, to.logLength, from.logRoot, to.logRoot)]
              && var proof := consistency(from.logLength, to.logLength, from.logRoot, to.logRoot);
                 r.outcome == (if proof.Pass? then Pass else Fail(Api(proof.error)))
    ensures forall c :: c in r.calls ==> c.ProveConsistency?
    ensures r.calls != [] ==> stored.Some? && stored.value.checkpoint.logLength < next.checkpoint.logLength
  {
    match stored
    case None => Checked([], Pass)
    case Some(prev) =>
      var from := prev.checkpoint;
      var to := next.checkpoint;
      if from.logLength > to.logLength then
        Checked([], Fail(CheckpointLogLengthRewind(from.logLength, to.logLength)))
      else if from.logLength < to.logLength then
        var call := ProveConsistency(from.logLength, to.logLength, from.logRoot, to.logRoot);
        match consistency(from.logLength, to.logLength, from.logRoot, to.logRoot)
        case Fail(e) => Checked([call], Fail(Api(e)))
        case Pass => Checked([call], Pass)
      else if from.logRoot != to.logRoot || from.mapRoot != to.mapRoot then
        Checked([], Fail(CheckpointChangedLogRootOrMapRoot(from.logLength)))
      else
        Checked([], Pass)
  }
}
