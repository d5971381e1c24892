/** The error taxonomy of the client and the translation of registry "log not found" errors. */
module Errors {
  import opened Wrappers
  import opened Types

  /** The cause carried by an operator or package validation failure. */
  datatype ValidationError = ValidationError(reason: string)

  /** Errors reported by the registry API client. */
  datatype ApiError =
    | FetchLogNotFound(logId: LogId)
    | PackageLogNotFound(logId: LogId)
    | PackageRejection(reason: string)
    | ProofRejected(detail: string)
    /** The registry gave no (further) answer to a request. */
    | NoResponse
    | OtherApiError(detail: string)

  /** Failures that the source reports through its catch-all `Other` variant. */
  datatype OtherError =
    | UndecodableRecord
    | UnknownPackageLog(logId: LogId)
    | ReleaseMissingContent

  datatype ClientError =
    | InvalidCheckpointSignature
    | InvalidCheckpointKeyId(keyId: KeyId)
    | NoOperatorRecords
    | OperatorValidationFailed(inner: ValidationError)
    | CannotInitializePackage(name: PackageName)
    | MustInitializePackage(name: PackageName)
    | NotPublishing
    | NothingToPublish(name: PackageName)
    | PackageDoesNotExist(name: PackageName)
    | PackageVersionDoesNotExist(version: Version, name: PackageName)
    | PackageValidationFailed(name: PackageName, inner: ValidationError)
    | ContentNotFound(digest: Digest)
    | PackageLogEmpty(name: PackageName)
    | PublishRejected(name: PackageName, recordId: RecordId, reason: string)
    | PackageMissingContent
    | CheckpointLogLengthRewind(from: nat, to: nat)
    | CheckpointChangedLogRootOrMapRoot(logLength: nat)
    | Api(api: ApiError)
    | Other(other: OtherError)
    /** Not an error value in the source: the panic of `unwrap()` on a missing log head. */
    | HeadUnwrapPanic

  /** Whether the registry reported that it has no log with the given id. */
  predicate IsLogNotFound(e: ApiError)
  {
    e.FetchLogNotFound? || e.PackageLogNotFound?
  }

  /**
   * Turns a registry "log not found" error for a log that `lookup` recognises
   * as a requested package into `PackageDoesNotExist`; every other error is
   * passed through as an API error.
   */
  function TranslateLogNotFound(e: ApiError, lookup: LogId -> Option<PackageName>): (r: ClientError)
    ensures r.PackageDoesNotExist? <==> IsLogNotFound(e) && lookup(e.logId).Some?
    ensures r.PackageDoesNotExist? ==> r.name == lookup(e.logId).value
    ensures !r.PackageDoesNotExist? ==> r == Api(e)
  {
    match e
    case FetchLogNotFound(id) =>
      (match lookup(id) case Some(name) => PackageDoesNotExist(name) case None => Api(e))
    case PackageLogNotFound(id) =>
      (match lookup(id) case Some(name) => PackageDoesNotExist(name) case None => Api(e))
    case _ => Api(e)
  }
}
