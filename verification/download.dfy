/**
 * The download resolver: makes sure a package log is present locally,
 * resolves the release to download, and materialises its content in
 * content storage, downloading it only when it is not already there.
 */
module Download {
  import opened Wrappers
  import opened Types
  import opened Errors
  import opened Sync
  import SyncProperties

  /** The registry's answers and the collaborators used while downloading. */
  datatype DownloadRegistry = DownloadRegistry(
    latest: Result<SignedCheckpoint, ApiError>,
    responses: seq<FetchResponse>,
    /** The content stream for a digest. */
    fetchContent: Digest -> Result<Bytes, ApiError>,
    /** Content storage after storing downloaded bytes under a digest. */
    storeContent: (ContentStore, Digest, Bytes) -> ContentStore,
    /** The latest release satisfying a version requirement. */
    findLatestRelease: (PackageState, VersionReq) -> Option<Release>)

  /** Information about a downloaded package. */
  datatype PackageDownload = PackageDownload(version: Version, digest: Digest, path: Path)

  /** What materialising content did: calls, the content storage after it, and the content's path. */
  datatype ContentRun = ContentRun(calls: seq<ApiCall>, content: ContentStore, outcome: Result<Path, ClientError>)

  /**
   * Returns where the content for `digest` lives, downloading and storing it
   * first when content storage does not have it yet.
   */
  function DownloadContent(content: ContentStore, digest: Digest, reg: DownloadRegistry): (r: ContentRun)
    ensures r.calls == [] <==> digest in content
    ensures digest in content ==> r.content == content && r.outcome == Success(content[digest])
    ensures digest !in content ==> r.calls == [ApiCall.DownloadContent(digest)]
    ensures r.outcome.Success? ==> digest in r.content && r.outcome.value == r.content[digest]
    ensures r.outcome.Failure? && digest !in content ==>
              (reg.fetchContent(digest).Failure? && r.outcome.error == Api(reg.fetchContent(digest).error)) ||
              (reg.fetchContent(digest).Success? && r.outcome.error == ContentNotFound(digest))
    ensures digest !in content && reg.fetchContent(digest).Failure? ==>
              r.content == content && r.outcome == Failure(Api(reg.fetchContent(digest).error))
    ensures digest !in content && reg.fetchContent(digest).Success? ==>
              && r.content == reg.storeContent(content, digest, reg.fetchContent(digest).value)
              && (r.outcome.Success? <==> digest in r.content)
  {
    if digest in content then ContentRun([], content, Success(content[digest]))
    else
      var call := ApiCall.DownloadContent(digest);
      match reg.fetchContent(digest)
      case Failure(e) => ContentRun([call], content, Failure(Api(e)))
      case Success(bytes) =>
        var stored := reg.storeContent(content, digest, bytes);
        if digest in stored then ContentRun([call], stored, Success(stored[digest]))
        else ContentRun([call], stored, Failure(ContentNotFound(digest)))
  }

  /**
   * Materialising content is idempotent: once content was materialised,
   * asking for it again is a cache hit that makes no call, changes nothing
   * and gives the same location.
   */
  lemma DownloadContentIsIdempotent(content: ContentStore, digest: Digest, reg: DownloadRegistry)
    ensures var r := DownloadContent(content, digest, reg);
            r.outcome.Success? ==> DownloadContent(r.content, digest, reg) == ContentRun([], r.content, r.outcome)
  {
  }

  /** What loading a package log did: calls, storage writes and the package info. */
  datatype FetchRun = FetchRun(calls: seq<ApiCall>, writes: seq<StoreWrite>, outcome: Result<PackageInfo, ClientError>)

  /**
   * The package log from storage; one not stored yet is synchronised from
   * the registry at its latest checkpoint first.
   */
  function FetchPackage(store: RegistryStore, name: PackageName, reg: DownloadRegistry, o: Oracles): (r: FetchRun)
    ensures name in store.packages ==> r == FetchRun([], [], Success(store.packages[name]))
    ensures name !in store.packages ==> r.calls != [] && r.calls[0] == LatestCheckpoint
    ensures r.outcome.Failure? ==> r.writes == []
    ensures name !in store.packages && r.outcome.Success? ==>
              reg.latest.Success? && r.outcome.value.checkpoint == Some(reg.latest.value.checkpoint) &&
              r.outcome.value.name == name
    ensures name !in store.packages && reg.latest.Failure? ==>
              r == FetchRun([LatestCheckpoint], [], Failure(Api(reg.latest.error)))
    ensures name !in store.packages && reg.latest.Success? ==>
              var sync := UpdateCheckpoint(store, reg.latest.value, [NewPackageInfo(name)], reg.responses, o);
              && r.calls == [LatestCheckpoint] + sync.calls
              && r.writes == sync.writes
              && (r.outcome.Failure? <==> sync.outcome.Failure?)
              && (sync.outcome.Failure? ==> r.outcome == Failure(sync.outcome.error))
    ensures r.outcome.Success? ==>
              name in ApplyWrites(store, r.writes).packages && ApplyWrites(store, r.writes).packages[name] == r.outcome.value
  {
    if name in store.packages then FetchRun([], [], Success(store.packages[name]))
    else
      match reg.latest
      case Failure(e) => FetchRun([LatestCheckpoint], [], Failure(Api(e)))
      case Success(latest) =>
        var info := NewPackageInfo(name);
        var sync := UpdateCheckpoint(store, latest, [info], reg.responses, o);
        var id := PackageLog(name);
        match sync.outcome
        case Failure(e) => FetchRun([LatestCheckpoint] + sync.calls, sync.writes, Failure(e))
        case Success(updated) =>
          FetchPackageSynced(store, latest, name, reg, o);
          FetchRun([LatestCheckpoint] + sync.calls, sync.writes, Success(updated[id]))
  }

  /** Synchronising a package never seen before always updates it, to the target checkpoint. */
  lemma FetchPackageSynced(store: RegistryStore, latest: SignedCheckpoint, name: PackageName,
                           reg: DownloadRegistry, o: Oracles)
    ensures var r := UpdateCheckpoint(store, latest, [NewPackageInfo(name)], reg.responses, o);
            r.outcome.Success? ==>
              && PackageLog(name) in r.outcome.value
              && r.outcome.value[PackageLog(name)].checkpoint == Some(latest.checkpoint)
              && r.outcome.value[PackageLog(name)].name == name
              && name in ApplyWrites(store, r.writes).packages
              && ApplyWrites(store, r.writes).packages[name] == r.outcome.value[PackageLog(name)]
  {
    var r := UpdateCheckpoint(store, latest, [NewPackageInfo(name)], reg.responses, o);
    var pending := PendingOf([NewPackageInfo(name)], latest.checkpoint);
    assert PackageLog(name) in pending.infos;
    if r.outcome.Success? {
      assert r.writes != [];
      SyncProperties.CommitStoresTarget(store, latest, [NewPackageInfo(name)], reg.responses, o);
    }
  }

  /** What resolving a release did: calls, content storage after it, and its result. */
  datatype Resolution<T> = Resolution(calls: seq<ApiCall>, content: ContentStore, outcome: Result<T, ClientError>)

  /**
   * Resolves the latest release of a package log satisfying `requirement`
   * and materialises its content. No such release is not an error; a
   * release that is not yanked yet has no content is an inconsistent state.
   */
  function ResolveLatest(state: PackageState, requirement: VersionReq, content: ContentStore,
                         reg: DownloadRegistry): (r: Resolution<Option<PackageDownload>>)
    ensures var found := reg.findLatestRelease(state, requirement);
            && (found.None? ==> r == Resolution([], content, Success(None)))
            && (found.Some? && found.value.content.None? ==>
                  r == Resolution([], content, Failure(Other(ReleaseMissingContent))))
            && (r.outcome.Success? && r.outcome.value.Some? ==>
                  && found.Some? && found.value.content.Some?
                  && r.outcome.value.value.version == found.value.version
                  && r.outcome.value.value.digest == found.value.content.value
                  && found.value.content.value in r.content
                  && r.outcome.value.value.path == r.content[found.value.content.value])
            && (found.Some? && found.value.content.Some? ==>
                  (r.outcome.Success? <==> DownloadContent(content, found.value.content.value, reg).outcome.Success?))
    ensures var found := reg.findLatestRelease(state, requirement);
            found.Some? && found.value.content.Some? ==>
              var got := DownloadContent(content, found.value.content.value, reg);
              && r.calls == got.calls && r.content == got.content
              && (got.outcome.Failure? ==> r.outcome == Failure(got.outcome.error))
              && (got.outcome.Success? ==>
                    r.outcome == Success(Some(PackageDownload(found.value.version, found.value.content.value, got.outcome.value))))
  {
    match reg.findLatestRelease(state, requirement)
    case None => Resolution([], content, Success(None))
    case Some(release) =>
      match release.content
      case None => Resolution([], content, Failure(Other(ReleaseMissingContent)))
      case Some(digest) =>
        var got := DownloadContent(content, digest, reg);
        Resolution(got.calls, got.content,
                   match got.outcome
                   case Failure(e) => Failure(e)
                   case Success(path) => Success(Some(PackageDownload(release.version, digest, path))))
  }

  /**
   * Resolves exactly `version` of a package log and materialises its
   * content. A version that was never released and one whose release was
   * yanked both fail as a version that does not exist.
   */
  function ResolveExact(state: PackageState, name: PackageName, version: Version, content: ContentStore,
                        reg: DownloadRegistry): (r: Resolution<PackageDownload>)
    ensures version !in state.releases || state.releases[version].content.None? ==>
              r == Resolution([], content, Failure(PackageVersionDoesNotExist(version, name)))
    ensures r.outcome.Success? ==>
              && version in state.releases && state.releases[version].content.Some?
              && r.outcome.value.version == version
              && r.outcome.value.digest == state.releases[version].content.value
              && r.outcome.value.digest in r.content
              && r.outcome.value.path == r.content[r.outcome.value.digest]
    ensures version in state.releases && state.releases[version].content.Some? ==>
              (r.outcome.Success? <==> DownloadContent(content, state.releases[version].content.value, reg).outcome.Success?)
    ensures version in state.releases && state.releases[version].content.Some? ==>
              var got := DownloadContent(content, state.releases[version].content.value, reg);
              && r.calls == got.calls && r.content == got.content
              && (got.outcome.Failure? ==> r.outcome == Failure(got.outcome.error))
              && (got.outcome.Success? ==>
                    r.outcome == Success(PackageDownload(version, state.releases[version].content.value, got.outcome.value)))
  {
    if version !in state.releases then Resolution([], content, Failure(PackageVersionDoesNotExist(version, name)))
    else
      match state.releases[version].content
      case None => Resolution([], content, Failure(PackageVersionDoesNotExist(version, name)))
      case Some(digest) =>
        var got := DownloadContent(content, digest, reg);
        Resolution(got.calls, got.content,
                   match got.outcome
                   case Failure(e) => Failure(e)
                   case Success(path) => Success(PackageDownload(version, digest, path)))
  }

  /** What a download did: calls, storage writes, content storage after it, and its result. */
  datatype DownloadRun<T> = DownloadRun(calls: seq<ApiCall>, writes: seq<StoreWrite>, content: ContentStore,
                                        outcome: Result<T, ClientError>)

  /**
   * Downloads the latest release of package `name` satisfying `requirement`,
   * loading its log first. No matching release is not an error; a stored
   * package is resolved without synchronising.
   */
  function Download(store: RegistryStore, content: ContentStore, name: PackageName, requirement: VersionReq,
                    reg: DownloadRegistry, o: Oracles): (r: DownloadRun<Option<PackageDownload>>)
    ensures var loaded := FetchPackage(store, name, reg, o);
            && r.writes == loaded.writes
            && (loaded.outcome.Failure? ==>
                  r.outcome == Failure(loaded.outcome.error) && r.calls == loaded.calls && r.content == content)
            && (loaded.outcome.Success? && reg.findLatestRelease(loaded.outcome.value.log.state, requirement).None? ==>
                  r.outcome == Success(None) && r.calls == loaded.calls && r.content == content)
            && (loaded.outcome.Success? ==>
                  var found := reg.findLatestRelease(loaded.outcome.value.log.state, requirement);
                  found.Some? && found.value.content.None? ==> r.outcome == Failure(Other(ReleaseMissingContent)))
    ensures r.outcome.Success? && r.outcome.value.Some? ==>
              var loaded := FetchPackage(store, name, reg, o);
              var d := r.outcome.value.value;
              && loaded.outcome.Success?
              && var found := reg.findLatestRelease(loaded.outcome.value.log.state, requirement);
              && found.Some? && found.value.version == d.version && found.value.content == Some(d.digest)
              && d.digest in r.content && d.path == r.content[d.digest]
    ensures var loaded := FetchPackage(store, name, reg, o);
            loaded.outcome.Success? ==>
              var found := reg.findLatestRelease(loaded.outcome.value.log.state, requirement);
              found.Some? && found.value.content.Some? ==>
                var got := DownloadContent(content, found.value.content.value, reg);
                && r.calls == loaded.calls + got.calls && r.content == got.content
                && (r.outcome.Success? <==> got.outcome.Success?)
    ensures name in store.packages ==> r.writes == [] && forall c :: c in r.calls ==> c.DownloadContent?
  {
    LatestAfterLoad(FetchPackage(store, name, reg, o), requirement, content, reg)
  }

  /** Resolves the latest matching release once the package log is loaded, or passes on the load's failure. */
  function LatestAfterLoad(loaded: FetchRun, requirement: VersionReq, content: ContentStore,
                           reg: DownloadRegistry): (r: DownloadRun<Option<PackageDownload>>)
    ensures r.writes == loaded.writes
    ensures loaded.outcome.Failure? ==>
              r.outcome == Failure(loaded.outcome.error) && r.calls == loaded.calls && r.content == content
    ensures loaded.outcome.Success? && reg.findLatestRelease(loaded.outcome.value.log.state, requirement).None? ==>
              r.outcome == Success(None) && r.calls == loaded.calls && r.content == content
    ensures loaded.outcome.Success? ==>
              var found := reg.findLatestRelease(loaded.outcome.value.log.state, requirement);
              found.Some? && found.value.content.None? ==> r.outcome == Failure(Other(ReleaseMissingContent))
    ensures r.outcome.Success? && r.outcome.value.Some? ==>
              var d := r.outcome.value.value;
              && loaded.outcome.Success?
              && var found := reg.findLatestRelease(loaded.outcome.value.log.state, requirement);
              && found.Some? && found.value.version == d.version && found.value.content == Some(d.digest)
              && d.digest in r.content && d.path == r.content[d.digest]
    ensures loaded.outcome.Success? ==>
              var found := reg.findLatestRelease(loaded.outcome.value.log.state, requirement);
              found.Some? && found.value.content.Some? ==>
                var got := DownloadContent(content, found.value.content.value, reg);
                && r.calls == loaded.calls + got.calls && r.content == got.content
                && (r.outcome.Success? <==> got.outcome.Success?)
    ensures loaded.calls == [] ==> forall c :: c in r.calls ==> c.DownloadContent?
  {
    match loaded.outcome
    case Failure(e) => DownloadRun(loaded.calls, loaded.writes, content, Failure(e))
    case Success(info) =>
      var res := ResolveLatest(info.log.state, requirement, content, reg);
      assert loaded.calls == [] ==> loaded.calls + res.calls == res.calls;
      DownloadRun(loaded.calls + res.calls, loaded.writes, res.content, res.outcome)
  }

  /**
   * Downloads exactly `version` of package `name`, loading its log first. A
   * version the loaded log never released, or whose release was yanked,
   * does not exist, and no content is fetched for it.
   */
  function DownloadExact(store: RegistryStore, content: ContentStore, name: PackageName, version: Version,
                         reg: DownloadRegistry, o: Oracles): (r: DownloadRun<PackageDownload>)
    ensures var loaded := FetchPackage(store, name, reg, o);
            && r.writes == loaded.writes
            && (loaded.outcome.Failure? ==>
                  r.outcome == Failure(loaded.outcome.error) && r.calls == loaded.calls && r.content == content)
            && (loaded.outcome.Success? ==>
                  var releases := loaded.outcome.value.log.state.releases;
                  version !in releases || releases[version].content.None? ==>
                    && r.outcome == Failure(PackageVersionDoesNotExist(version, name))
                    && r.calls == loaded.calls && r.content == content)
    ensures r.outcome.Success? ==>
              var loaded := FetchPackage(store, name, reg, o);
              && loaded.outcome.Success?
              && var releases := loaded.outcome.value.log.state.releases;
              && version in releases && releases[version].content == Some(r.outcome.value.digest)
              && r.outcome.value.version == version
              && r.outcome.value.digest in r.content
              && r.outcome.value.path == r.content[r.outcome.value.digest]
    ensures var loaded := FetchPackage(store, name, reg, o);
            loaded.outcome.Success? ==>
              var releases := loaded.outcome.value.log.state.releases;
              version in releases && releases[version].content.Some? ==>
                var got := DownloadContent(content, releases[version].content.value, reg);
                && r.calls == loaded.calls + got.calls && r.content == got.content
                && (r.outcome.Success? <==> got.outcome.Success?)
    ensures name in store.packages ==> r.writes == [] && forall c :: c in r.calls ==> c.DownloadContent?
  {
    ExactAfterLoad(FetchPackage(store, name, reg, o), name, version, content, reg)
  }

  /** Resolves exactly `version` once the package log is loaded, or passes on the load's failure. */
  function ExactAfterLoad(loaded: FetchRun, name: PackageName, version: Version, content: ContentStore,
                          reg: DownloadRegistry): (r: DownloadRun<PackageDownload>)
    ensures r.writes == loaded.writes
    ensures loaded.outcome.Failure? ==>
              r.outcome == Failure(loaded.outcome.error) && r.calls == loaded.calls && r.content == content
    ensures loaded.outcome.Success? ==>
              var releases := loaded.outcome.value.log.state.releases;
              version !in releases || releases[version].content.None? ==>
                && r.outcome == Failure(PackageVersionDoesNotExist(version, name))
                && r.calls == loaded.calls && r.content == content
    ensures r.outcome.Success? ==>
              && loaded.outcome.Success?
              && var releases := loaded.outcome.value.log.state.releases;
              && version in releases && releases[version].content == Some(r.outcome.value.digest)
              && r.outcome.value.version == version
              && r.outcome.value.digest in r.content
              && r.outcome.value.path == r.content[r.outcome.value.digest]
    ensures loaded.outcome.Success? ==>
              var releases := loaded.outcome.value.log.state.releases;
              version in releases && releases[version].content.Some? ==>
                var got := DownloadContent(content, releases[version].content.value, reg);
                && r.calls == loaded.calls + got.calls && r.content == got.content
                && (r.outcome.Success? <==> got.outcome.Success?)
    ensures loaded.calls == [] ==> forall c :: c in r.calls ==> c.DownloadContent?
  {
    match loaded.outcome
    case Failure(e) => DownloadRun(loaded.calls, loaded.writes, content, Failure(e))
    case Success(info) =>
      var res := ResolveExact(info.log.state, name, version, content, reg);
      assert loaded.calls == [] ==> loaded.calls + res.calls == res.calls;
      DownloadRun(loaded.calls + res.calls, loaded.writes, res.content, res.outcome)
  }

  /**
   * Downloading the latest matching release is downloading exactly its
   * version, when the release found is the one the log records for that
   * version: the same calls, the same content storage, and the same
   * download on success.
   */
  lemma LatestIsExactOfFoundRelease(store: RegistryStore, content: ContentStore, name: PackageName,
                                    requirement: VersionReq, reg: DownloadRegistry, o: Oracles)
    requires FetchPackage(store, name, reg, o).outcome.Success?
    requires var state := FetchPackage(store, name, reg, o).outcome.value.log.state;
             var found := reg.findLatestRelease(state, requirement);
             found.Some? && found.value.version in state.releases && state.releases[found.value.version] == found.value
    ensures var state := FetchPackage(store, name, reg, o).outcome.value.log.state;
            var version := reg.findLatestRelease(state, requirement).value.version;
            var latest := Download(store, content, name, requirement, reg, o);
            var exact := DownloadExact(store, content, name, version, reg, o);
            && latest.calls == exact.calls
            && latest.content == exact.content
            && latest.writes == exact.writes
            && (latest.outcome.Success? <==> exact.outcome.Success?)
            && (exact.outcome.Success? ==> latest.outcome.value == Some(exact.outcome.value))
  {
  }

  /**
   * A package the registry reports as having no log is reported as a
   * package that does not exist, not as a transport error.
   */
  lemma UnknownPackageDoesNotExist(store: RegistryStore, name: PackageName, reg: DownloadRegistry, o: Oracles)
    requires name !in store.packages
    requires reg.latest.Success?
    requires reg.responses != []
    requires reg.responses[0] == Failure(FetchLogNotFound(PackageLog(name)))
    ensures FetchPackage(store, name, reg, o).outcome == Failure(PackageDoesNotExist(name))
    ensures FetchPackage(store, name, reg, o).writes == []
  {
    var pending := PendingOf([NewPackageInfo(name)], reg.latest.value.checkpoint);
    assert PackageLog(name) in pending.infos;
  }
}
