/**
 * The data model of the registry client: identifiers, checkpoints, fetched
 * records, per-log validated state, the client's local storage, and the
 * effects (registry API calls and storage writes) an operation performs.
 */
module Types {
  import opened Wrappers

  type PackageName = string
  /** Content digest of a signed record envelope. */
  type RecordId = string
  /** Any content or root digest (`AnyHash`). */
  type Digest = string
  /** Opaque pagination cursor issued by the registry. */
  type FetchToken = string
  type KeyId = string
  type PublicKey = string
  type Signature = string
  type Version = string
  type VersionReq = string
  type Path = string
  type Bytes = seq<int>

  /** Identifier of a log; the hash of the package name is modelled as collision-free. */
  datatype LogId = OperatorLog | PackageLog(name: PackageName)

  /** A registry-wide snapshot. */
  datatype Checkpoint = Checkpoint(logLength: nat, logRoot: Digest, mapRoot: Digest)

  /** A timestamped checkpoint together with the key id and signature of its envelope. */
  datatype SignedCheckpoint = SignedCheckpoint(
    checkpoint: Checkpoint, timestamp: nat, keyId: KeyId, signature: Signature)

  /** A signed record envelope; its content is only interpreted by the validators. */
  datatype Envelope = Envelope(payload: string)

  /** An envelope together with the registry index the registry assigned to it. */
  datatype PublishedEnvelope = PublishedEnvelope(registryIndex: nat, envelope: Envelope)

  /** One fetched record; `envelope` is `None` when the record does not decode. */
  datatype FetchedRecord = FetchedRecord(envelope: Option<PublishedEnvelope>, fetchToken: FetchToken)

  /** The records returned for one package log in one fetch response. */
  datatype PackageBatch = PackageBatch(logId: LogId, records: seq<FetchedRecord>)

  /** One response of the registry's fetch-logs endpoint. */
  datatype FetchPage = FetchPage(operator: seq<FetchedRecord>, packages: seq<PackageBatch>, more: bool)

  /** Validated operator-log state: its head and the keys it authorises. */
  datatype OperatorState = OperatorState(head: Option<RecordId>, keys: map<KeyId, PublicKey>)

  /** A release of a package; `content` is `None` once the release is yanked. */
  datatype Release = Release(version: Version, content: Option<Digest>)

  /** Validated package-log state: its head and its releases by version. */
  datatype PackageState = PackageState(head: Option<RecordId>, releases: map<Version, Release>)

  /** A validated log state with the registry index and fetch token of its head record. */
  datatype LogCursor<S> = LogCursor(state: S, headIndex: Option<nat>, headToken: Option<FetchToken>)

  type OperatorInfo = LogCursor<OperatorState>

  /** The local mirror of one package log and the checkpoint it was last synchronised to. */
  datatype PackageInfo = PackageInfo(name: PackageName, checkpoint: Option<Checkpoint>, log: LogCursor<PackageState>)

  /** The operator log as loaded when nothing is stored (`unwrap_or_default`). */
  function DefaultOperator(): OperatorInfo
  {
    LogCursor(OperatorState(None, map[]), None, None)
  }

  /** A package never synchronised before (`PackageInfo::new`). */
  function NewPackageInfo(name: PackageName): PackageInfo
  {
    PackageInfo(name, None, LogCursor(PackageState(None, map[]), None, None))
  }

  /** One pending edit of a package log. */
  datatype PublishEntry = Init | ReleaseEntry(version: Version, content: Digest) | Yank(version: Version)

  /** Pending local edits not yet submitted to the registry. */
  datatype PublishInfo = PublishInfo(name: PackageName, head: Option<RecordId>, entries: seq<PublishEntry>)

  /** A publish initialises its package when one of its entries is an `Init` entry. */
  predicate Initializing(info: PublishInfo)
  {
    exists i :: 0 <= i < |info.entries| && info.entries[i].Init?
  }

  /** The registry part of client storage. */
  datatype RegistryStore = RegistryStore(
    operator: Option<OperatorInfo>,
    packages: map<PackageName, PackageInfo>,
    checkpoint: Option<SignedCheckpoint>,
    publish: Option<PublishInfo>)

  /** Content storage: where the content for each stored digest lives. */
  type ContentStore = map<Digest, Path>

  /** One leaf of an inclusion proof. */
  datatype LogLeaf = LogLeaf(logId: LogId, recordId: RecordId)

  /** An upload endpoint offered by the registry for missing content. */
  datatype UploadEndpoint = HttpUpload(httpMethod: string, url: string)

  /** Content the registry is missing for a submitted record. */
  datatype MissingContent = MissingContent(digest: Digest, upload: seq<UploadEndpoint>)

  /** The registry's answer to a record submission. */
  datatype SubmittedRecord = SubmittedRecord(recordId: RecordId, missing: seq<MissingContent>)

  /** The state of a submitted record as observed remotely. */
  datatype RecordState = Sourcing(missing: seq<Digest>) | Processing | Published | Rejected(reason: string)

  /** A fetch-logs request: the target length and the cursor of each log. */
  datatype FetchRequest = FetchRequest(
    logLength: nat, operator: Option<FetchToken>, packages: map<LogId, Option<FetchToken>>)

  /** A call to the registry API, in the order it is issued. */
  datatype ApiCall =
    | LatestCheckpoint
    | FetchLogs(request: FetchRequest)
    | ProveInclusion(logLength: nat, leafIndices: seq<nat>, leaves: seq<LogLeaf>)
    | ProveConsistency(from: nat, to: nat, fromRoot: Digest, toRoot: Digest)
    | PublishRecord(logId: LogId, info: PublishInfo)
    | UploadContent(endpoint: UploadEndpoint, digest: Digest)
    | DownloadContent(digest: Digest)
    | GetPackageRecord(logId: LogId, recordId: RecordId)

  /** A write to the registry part of client storage. */
  datatype StoreWrite =
    | StoreOperator(operator: OperatorInfo)
    | StorePackage(package: PackageInfo)
    | StoreCheckpoint(checkpoint: SignedCheckpoint)
    | StorePublish(publish: Option<PublishInfo>)

  /** The effect of one storage write. */
  function ApplyWrite(s: RegistryStore, w: StoreWrite): RegistryStore
  {
    match w
    case StoreOperator(op) => s.(operator := Some(op))
    case StorePackage(p) => s.(packages := s.packages[p.name := p])
    case StoreCheckpoint(cp) => s.(checkpoint := Some(cp))
    case StorePublish(info) => s.(publish := info)
  }

  /** The storage that results from performing `writes` in order. */
  function ApplyWrites(s: RegistryStore, writes: seq<StoreWrite>): RegistryStore
    decreases |writes|
  {
    if writes == [] then s else ApplyWrites(ApplyWrite(s, writes[0]), writes[1..])
  }

  /** Performing two lists of writes one after the other is performing their concatenation. */
  lemma ApplyWritesAppend(s: RegistryStore, a: seq<StoreWrite>, b: seq<StoreWrite>)
    ensures ApplyWrites(s, a + b) == ApplyWrites(ApplyWrites(s, a), b)
    decreases |a|
  {
    if a == [] {
      assert a + b == b;
    } else {
      assert (a + b)[1..] == a[1..] + b;
      ApplyWritesAppend(ApplyWrite(s, a[0]), a[1..], b);
    }
  }
}
