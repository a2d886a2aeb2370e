/**
 * What `DevPublishPlugin` decides for each `PublishToMavenRepository` task: which
 * tasks it configures, the `onlyIf` gate that skips a publication whose fingerprint
 * matches the stored one, and the staging steps before and after the publication.
 * Also the publication data it builds from a `MavenPublication`.
 */
module Plugin {
  import opened Wrappers
  import opened Binary
  import opened Text
  import opened Disk
  import opened FileChecksums
  import CreateChecksum
  import LoadChecksum
  import LegacyChecksum
  import GenerateTasks
  import Collect
  import StdlibUtils

  type PublicationData = LegacyChecksum.PublicationData

  /** `DEV_PUB__MAVEN_REPO_NAME`. */
  const RepoName: string := "DevPublishMaven"
  const PublishSuffix: string := "To" + RepoName + "Repository"

  // ---------------------------------------------------------------- which tasks

  /** Only publish tasks whose name ends with `To<RepoName>Repository` are configured. */
  predicate IsDevPubPublishTask(taskName: string) {
    EndsWith(taskName, PublishSuffix)
  }

  /** Every publication's task for the dev repository is configured; a name shorter than the suffix never is. */
  lemma ConfiguredTasks(prefix: string, taskName: string)
    ensures IsDevPubPublishTask(prefix + PublishSuffix)
    ensures |taskName| < |PublishSuffix| ==> !IsDevPubPublishTask(taskName)
  {
    assert (prefix + PublishSuffix)[|prefix|..] == PublishSuffix;
  }

  /** `repository?.name == DEV_PUB__MAVEN_REPO_NAME`, false when the publish task has no repository. */
  function RepoIsDevPub(repository: Option<string>): (b: bool)
    ensures b ==> repository.Some?
  {
    repository.Some? && repository.value == RepoName
  }

  // ---------------------------------------------------------------- the gate

  /**
   * `onlyIf_`: a task publishing elsewhere always runs, without reading either
   * checksum; for the dev repository it runs exactly when the current and the stored
   * checksums differ. Reading the stored checksum can fail, and then the publish task fails.
   */
  function Gate(repository: Option<string>, current: Option<string>, stored: Result<Option<string>, Path>): (r: Result<bool, Path>)
    ensures !RepoIsDevPub(repository) ==> r == Success(true)
    ensures RepoIsDevPub(repository) ==> (r.Failure? <==> stored.Failure?)
    ensures RepoIsDevPub(repository) && stored.Success? ==> r == Success(current != stored.value)
  {
    if !RepoIsDevPub(repository) then Success(true)
    else match stored
      case Success(s) => Success(current != s)
      case Failure(p) => Failure(p)
  }

  /** The value-source parameters the plugin sets for the current checksum: only the project directory and the identifier. */
  function PluginParameters(projectDir: Path, d: PublicationData): CreateChecksum.Parameters {
    CreateChecksum.Parameters(projectDir, [], d.identifier, [])
  }

  function CurrentChecksum(projectDir: Path, d: PublicationData, e: map<Path, Node>, sha256: seq<byte> -> Digest): Option<string> {
    CreateChecksum.Fingerprint(PluginParameters(projectDir, d), e, sha256)
  }

  /** `loadPublicationChecksum` with the publication's `<name>.txt` in the checksum store. */
  function StoredChecksum(d: PublicationData, checksumsStore: Path, e: map<Path, Node>): Result<Option<string>, Path> {
    LoadChecksum.Load(Some(LegacyChecksum.ChecksumFilename(d)), checksumsStore, e)
  }

  /** The gate as the plugin configures it. */
  function OnlyIf(repository: Option<string>, projectDir: Path, d: PublicationData, checksumsStore: Path, e: map<Path, Node>, sha256: seq<byte> -> Digest): Result<bool, Path> {
    Gate(repository, CurrentChecksum(projectDir, d, e, sha256), StoredChecksum(d, checksumsStore, e))
  }

  /** The gate with the current checksum taken over the same parameters the checksum task stores. */
  function CorrectedOnlyIf(repository: Option<string>, projectDir: Path, d: PublicationData, checksumsStore: Path, e: map<Path, Node>, sha256: seq<byte> -> Digest): Result<bool, Path> {
    Gate(repository, GenerateTasks.FingerprintOf(projectDir, e, sha256)(d), StoredChecksum(d, checksumsStore, e))
  }

  /** Before any checksum is stored, a dev-repository publication runs. */
  lemma GateRunsWithoutStoredChecksum(projectDir: Path, d: PublicationData, checksumsStore: Path, e: map<Path, Node>, sha256: seq<byte> -> Digest)
    requires CreateChecksum.PlainIdentifier(d.identifier)
    requires StatOf(e, LoadChecksum.Resolve(checksumsStore, LegacyChecksum.ChecksumFilename(d))).Missing?
    ensures OnlyIf(Some(RepoName), projectDir, d, checksumsStore, e, sha256) == Success(true)
  {
    LoadChecksum.LoadMissing(LegacyChecksum.ChecksumFilename(d), checksumsStore, e);
    CreateChecksum.FingerprintOfNoFiles(PluginParameters(projectDir, d), e, sha256);
  }

  // ---------------------------------------------------------------- what the gate sees, as written

  /** The plugin's current checksum reads no file: it is the identifier and `---`, whatever the file system holds. */
  lemma CurrentChecksumReadsNoFile(projectDir: Path, d: PublicationData, e: map<Path, Node>, sha256: seq<byte> -> Digest)
    requires CreateChecksum.PlainIdentifier(d.identifier)
    ensures CurrentChecksum(projectDir, d, e, sha256) == Some(d.identifier + "\n---")
  {
    CreateChecksum.FingerprintOfNoFiles(PluginParameters(projectDir, d), e, sha256);
  }

  /** So the gate's decision depends only on the stored file: changing any other file cannot make a skipped task run. */
  lemma GateSeesOnlyStoredFile(projectDir: Path, d: PublicationData, checksumsStore: Path, e1: map<Path, Node>, e2: map<Path, Node>, sha256: seq<byte> -> Digest)
    requires CreateChecksum.PlainIdentifier(d.identifier)
    requires var p := LoadChecksum.Resolve(checksumsStore, LegacyChecksum.ChecksumFilename(d)); StatOf(e1, p) == StatOf(e2, p)
    ensures OnlyIf(Some(RepoName), projectDir, d, checksumsStore, e1, sha256) == OnlyIf(Some(RepoName), projectDir, d, checksumsStore, e2, sha256)
  {
    CurrentChecksumReadsNoFile(projectDir, d, e1, sha256);
    CurrentChecksumReadsNoFile(projectDir, d, e2, sha256);
    LoadChecksum.LoadReadsOnlyNamedFile(LegacyChecksum.ChecksumFilename(d), checksumsStore, e1, e2);
  }

  /** What the gate reads back after `generate()`: the fingerprint the checksum task stored for the publication. */
  lemma StoredAfterGenerate(projectDir: Path, pubs: seq<PublicationData>, e: map<Path, Node>, sha256: seq<byte> -> Digest, tempDir: Path, checksumsStore: Path, i: nat)
    requires GenerateTasks.DistinctNames(pubs) && i < |pubs| && GenerateTasks.Texts(projectDir, pubs, e, sha256).Some?
    ensures var g := GenerateTasks.Generated(e, GenerateTasks.Staged(pubs, GenerateTasks.Texts(projectDir, pubs, e, sha256).value), tempDir, checksumsStore);
      StoredChecksum(pubs[i], checksumsStore, g) == Success(GenerateTasks.FingerprintOf(projectDir, e, sha256)(pubs[i]))
  {
    GenerateTasks.GenerateThenLoad(projectDir, pubs, e, sha256, tempDir, checksumsStore, i);
  }

  /** A fingerprint with artifact lines is never the bare identifier and `---`. */
  lemma ArtifactLinesDiffer(projectDir: Path, d: PublicationData, e1: map<Path, Node>, e2: map<Path, Node>, sha256: seq<byte> -> Digest)
    requires CreateChecksum.PlainIdentifier(d.identifier) && CreateChecksum.PlainFiles(d.artifacts) && d.artifacts != []
    requires GenerateTasks.FingerprintOf(projectDir, e1, sha256)(d).Some?
    ensures CurrentChecksum(projectDir, d, e2, sha256) != GenerateTasks.FingerprintOf(projectDir, e1, sha256)(d)
  {
    var stored := CreateChecksum.Fingerprint(GenerateTasks.TaskParameters(projectDir, d), e1, sha256);
    var current := CreateChecksum.Fingerprint(PluginParameters(projectDir, d), e2, sha256);
    CreateChecksum.FingerprintLineCount(GenerateTasks.TaskParameters(projectDir, d), e1, sha256);
    CreateChecksum.FingerprintLineCount(PluginParameters(projectDir, d), e2, sha256);
    assert |Lines(stored.value)| != |Lines(current.value)|;
  }

  /**
   * After `generate()` has stored the checksum of a publication with artifacts, the
   * plugin's gate still finds the checksums different: the stored text has a line per
   * artifact that the current one lacks, so the publish task is never skipped.
   */
  lemma GateNeverSkipsStoredArtifacts(projectDir: Path, pubs: seq<PublicationData>, e: map<Path, Node>, sha256: seq<byte> -> Digest, tempDir: Path, checksumsStore: Path, i: nat)
    requires GenerateTasks.DistinctNames(pubs) && i < |pubs| && GenerateTasks.Texts(projectDir, pubs, e, sha256).Some?
    requires CreateChecksum.PlainIdentifier(pubs[i].identifier) && CreateChecksum.PlainFiles(pubs[i].artifacts)
    requires pubs[i].artifacts != []
    ensures var g := GenerateTasks.Generated(e, GenerateTasks.Staged(pubs, GenerateTasks.Texts(projectDir, pubs, e, sha256).value), tempDir, checksumsStore);
      OnlyIf(Some(RepoName), projectDir, pubs[i], checksumsStore, g, sha256) == Success(true)
  {
    var g := GenerateTasks.Generated(e, GenerateTasks.Staged(pubs, GenerateTasks.Texts(projectDir, pubs, e, sha256).value), tempDir, checksumsStore);
    var stored := GenerateTasks.FingerprintOf(projectDir, e, sha256)(pubs[i]);
    Collect.TraverseAt(pubs, GenerateTasks.FingerprintOf(projectDir, e, sha256), i);
    StoredAfterGenerate(projectDir, pubs, e, sha256, tempDir, checksumsStore, i);
    ArtifactLinesDiffer(projectDir, pubs[i], e, g, sha256);
  }

  /**
   * As the plugin wires it, the checksum task and the gate both use the data
   * `createPublicationData` builds, which has no artifacts. Once `generate()` has
   * stored the checksum, and while the stored file stays as it left it, the gate
   * skips the publish task whatever any other file holds.
   */
  lemma GateAlwaysSkipsAsWired(projectDir: Path, publication: MavenPublication, pubs: seq<PublicationData>, e: map<Path, Node>, e2: map<Path, Node>, sha256: seq<byte> -> Digest, tempDir: Path, checksumsStore: Path, i: nat)
    requires GenerateTasks.DistinctNames(pubs) && i < |pubs| && GenerateTasks.Texts(projectDir, pubs, e, sha256).Some?
    requires CreatePublicationData(Some(publication)) == Some(pubs[i])
    requires CreateChecksum.PlainIdentifier(pubs[i].identifier)
    requires var g := GenerateTasks.Generated(e, GenerateTasks.Staged(pubs, GenerateTasks.Texts(projectDir, pubs, e, sha256).value), tempDir, checksumsStore);
      var p := LoadChecksum.Resolve(checksumsStore, LegacyChecksum.ChecksumFilename(pubs[i]));
      StatOf(e2, p) == StatOf(g, p)
    ensures OnlyIf(Some(RepoName), projectDir, pubs[i], checksumsStore, e2, sha256) == Success(false)
  {
    var d := pubs[i];
    var g := GenerateTasks.Generated(e, GenerateTasks.Staged(pubs, GenerateTasks.Texts(projectDir, pubs, e, sha256).value), tempDir, checksumsStore);
    StoredAfterGenerate(projectDir, pubs, e, sha256, tempDir, checksumsStore, i);
    GateSeesOnlyStoredFile(projectDir, d, checksumsStore, e2, g, sha256);
    CreateChecksum.FingerprintOfNoFiles(GenerateTasks.TaskParameters(projectDir, d), e, sha256);
    CurrentChecksumReadsNoFile(projectDir, d, g, sha256);
    assert RepoIsDevPub(Some(RepoName));
  }

  // ---------------------------------------------------------------- the gate, corrected

  /**
   * With the current checksum over the stored parameters, a dev-repository task whose
   * stored file is as `generate()` left it runs exactly when the fingerprint of the
   * publication's artifacts has changed since then.
   */
  lemma CorrectedGateRunsOnChange(projectDir: Path, pubs: seq<PublicationData>, e: map<Path, Node>, e2: map<Path, Node>, sha256: seq<byte> -> Digest, tempDir: Path, checksumsStore: Path, i: nat)
    requires GenerateTasks.DistinctNames(pubs) && i < |pubs| && GenerateTasks.Texts(projectDir, pubs, e, sha256).Some?
    requires var g := GenerateTasks.Generated(e, GenerateTasks.Staged(pubs, GenerateTasks.Texts(projectDir, pubs, e, sha256).value), tempDir, checksumsStore);
      var p := LoadChecksum.Resolve(checksumsStore, LegacyChecksum.ChecksumFilename(pubs[i]));
      StatOf(e2, p) == StatOf(g, p)
    ensures CorrectedOnlyIf(Some(RepoName), projectDir, pubs[i], checksumsStore, e2, sha256)
      == Success(GenerateTasks.FingerprintOf(projectDir, e2, sha256)(pubs[i]) != GenerateTasks.FingerprintOf(projectDir, e, sha256)(pubs[i]))
  {
    var g := GenerateTasks.Generated(e, GenerateTasks.Staged(pubs, GenerateTasks.Texts(projectDir, pubs, e, sha256).value), tempDir, checksumsStore);
    StoredAfterGenerate(projectDir, pubs, e, sha256, tempDir, checksumsStore, i);
    LoadChecksum.LoadReadsOnlyNamedFile(LegacyChecksum.ChecksumFilename(pubs[i]), checksumsStore, e2, g);
    assert RepoIsDevPub(Some(RepoName));
  }

  lemma SameFilesTrans(e1: map<Path, Node>, e2: map<Path, Node>, e3: map<Path, Node>, files: seq<Path>)
    requires CreateChecksum.SameFiles(e1, e2, files) && CreateChecksum.SameFiles(e2, e3, files)
    ensures CreateChecksum.SameFiles(e1, e3, files)
  {
  }

  /** `generate()` leaves artifacts outside both directories it writes as they were, and so their fingerprint. */
  lemma GenerateKeepsArtifacts(projectDir: Path, pubs: seq<PublicationData>, e: map<Path, Node>, sha256: seq<byte> -> Digest, tempDir: Path, checksumsStore: Path, i: nat)
    requires GenerateTasks.DistinctNames(pubs) && i < |pubs| && GenerateTasks.Texts(projectDir, pubs, e, sha256).Some?
    requires forall j :: 0 <= j < |pubs[i].artifacts| ==> !Under(pubs[i].artifacts[j], tempDir) && !Under(pubs[i].artifacts[j], checksumsStore)
    ensures var g := GenerateTasks.Generated(e, GenerateTasks.Staged(pubs, GenerateTasks.Texts(projectDir, pubs, e, sha256).value), tempDir, checksumsStore);
      CreateChecksum.SameFiles(g, e, pubs[i].artifacts) &&
      GenerateTasks.FingerprintOf(projectDir, g, sha256)(pubs[i]) == GenerateTasks.FingerprintOf(projectDir, e, sha256)(pubs[i])
  {
    var d := pubs[i];
    var staged := GenerateTasks.Staged(pubs, GenerateTasks.Texts(projectDir, pubs, e, sha256).value);
    var s1 := SyncResult(e, staged, tempDir);
    var g := SyncResult(s1, staged, checksumsStore);
    GenerateTasks.ArtifactsUntouched(e, staged, tempDir, d);
    GenerateTasks.ArtifactsUntouched(s1, staged, checksumsStore, d);
    SameFilesTrans(g, s1, e, d.artifacts);
    CreateChecksum.FingerprintFrame(GenerateTasks.TaskParameters(projectDir, d), g, e, sha256);
  }

  /** Right after `generate()`, with the artifacts outside both directories it writes, the corrected gate skips. */
  lemma CorrectedGateSkipsUnchanged(projectDir: Path, pubs: seq<PublicationData>, e: map<Path, Node>, sha256: seq<byte> -> Digest, tempDir: Path, checksumsStore: Path, i: nat)
    requires GenerateTasks.DistinctNames(pubs) && i < |pubs| && GenerateTasks.Texts(projectDir, pubs, e, sha256).Some?
    requires forall j :: 0 <= j < |pubs[i].artifacts| ==> !Under(pubs[i].artifacts[j], tempDir) && !Under(pubs[i].artifacts[j], checksumsStore)
    ensures var g := GenerateTasks.Generated(e, GenerateTasks.Staged(pubs, GenerateTasks.Texts(projectDir, pubs, e, sha256).value), tempDir, checksumsStore);
      CorrectedOnlyIf(Some(RepoName), projectDir, pubs[i], checksumsStore, g, sha256) == Success(false)
  {
    var g := GenerateTasks.Generated(e, GenerateTasks.Staged(pubs, GenerateTasks.Texts(projectDir, pubs, e, sha256).value), tempDir, checksumsStore);
    GenerateKeepsArtifacts(projectDir, pubs, e, sha256, tempDir, checksumsStore, i);
    CorrectedGateRunsOnChange(projectDir, pubs, e, g, sha256, tempDir, checksumsStore, i);
  }

  /**
   * For data built as `DevPublishService` builds it, with the publication's artifact
   * files: once `generate()` has stored the checksum, rewriting one of those files with
   * content of a different digest makes the corrected gate run the publish task.
   */
  lemma CorrectedGateRunsOnArtifactChange(projectDir: Path, publication: MavenPublication, pubs: seq<PublicationData>, e: map<Path, Node>, sha256: seq<byte> -> Digest, tempDir: Path, checksumsStore: Path, i: nat, f: Path, data: seq<byte>)
    requires GenerateTasks.DistinctNames(pubs) && i < |pubs| && GenerateTasks.Texts(projectDir, pubs, e, sha256).Some?
    requires ServicePublicationData(Some(publication)) == Some(pubs[i])
    requires CreateChecksum.PlainIdentifier(Identifier(publication)) && CreateChecksum.PlainFiles(publication.artifactFiles)
    requires forall j :: 0 <= j < |publication.artifactFiles| ==> !Under(publication.artifactFiles[j], tempDir) && !Under(publication.artifactFiles[j], checksumsStore)
    requires f in publication.artifactFiles && StatOf(e, f).Regular? && sha256(StatOf(e, f).data) != sha256(data)
    ensures var g := GenerateTasks.Generated(e, GenerateTasks.Staged(pubs, GenerateTasks.Texts(projectDir, pubs, e, sha256).value), tempDir, checksumsStore);
      CorrectedOnlyIf(Some(RepoName), projectDir, pubs[i], checksumsStore, g[f := File(data)], sha256) == Success(true)
  {
    var d := pubs[i];
    var g := GenerateTasks.Generated(e, GenerateTasks.Staged(pubs, GenerateTasks.Texts(projectDir, pubs, e, sha256).value), tempDir, checksumsStore);
    Collect.TraverseAt(pubs, GenerateTasks.FingerprintOf(projectDir, e, sha256), i);
    GenerateKeepsArtifacts(projectDir, pubs, e, sha256, tempDir, checksumsStore, i);
    RewrittenArtifact(projectDir, d, e, g, sha256, checksumsStore, f, data);
    CorrectedGateRunsOnChange(projectDir, pubs, e, g[f := File(data)], sha256, tempDir, checksumsStore, i);
  }

  /** Rewriting an artifact outside the checksum store leaves the stored file alone and changes the fingerprint. */
  lemma RewrittenArtifact(projectDir: Path, d: PublicationData, e: map<Path, Node>, g: map<Path, Node>, sha256: seq<byte> -> Digest, checksumsStore: Path, f: Path, data: seq<byte>)
    requires CreateChecksum.PlainIdentifier(d.identifier) && CreateChecksum.PlainFiles(d.artifacts)
    requires CreateChecksum.SameFiles(g, e, d.artifacts)
    requires GenerateTasks.FingerprintOf(projectDir, g, sha256)(d) == GenerateTasks.FingerprintOf(projectDir, e, sha256)(d)
    requires GenerateTasks.FingerprintOf(projectDir, e, sha256)(d).Some?
    requires f in d.artifacts && !Under(f, checksumsStore) && StatOf(e, f).Regular? && sha256(StatOf(e, f).data) != sha256(data)
    ensures var p := LoadChecksum.Resolve(checksumsStore, LegacyChecksum.ChecksumFilename(d));
      StatOf(g[f := File(data)], p) == StatOf(g, p)
    ensures GenerateTasks.FingerprintOf(projectDir, g[f := File(data)], sha256)(d) != GenerateTasks.FingerprintOf(projectDir, e, sha256)(d)
  {
    var stored := LoadChecksum.Resolve(checksumsStore, LegacyChecksum.ChecksumFilename(d));
    OutsideStore(f, checksumsStore, LegacyChecksum.ChecksumFilename(d));
    ChangedArtifact(GenerateTasks.TaskParameters(projectDir, d), e, g, f, data, sha256);
  }

  lemma OutsideStore(f: Path, store: Path, name: string)
    requires !Under(f, store) && name != ""
    ensures f != LoadChecksum.Resolve(store, name)
  {
    assert (store + [name])[..|store|] == store;
  }

  lemma ChangedArtifact(p: CreateChecksum.Parameters, e: map<Path, Node>, g: map<Path, Node>, f: Path, data: seq<byte>, sha256: seq<byte> -> Digest)
    requires CreateChecksum.PlainIdentifier(p.identifier) && CreateChecksum.PlainFiles(p.artifacts) && p.gradleModuleMetadata == []
    requires CreateChecksum.SameFiles(g, e, p.artifacts)
    requires CreateChecksum.Fingerprint(p, g, sha256) == CreateChecksum.Fingerprint(p, e, sha256)
    requires CreateChecksum.Fingerprint(p, e, sha256).Some?
    requires f in p.artifacts && StatOf(e, f).Regular? && sha256(StatOf(e, f).data) != sha256(data)
    ensures CreateChecksum.Fingerprint(p, g[f := File(data)], sha256) != CreateChecksum.Fingerprint(p, e, sha256)
  {
    var k :| 0 <= k < |p.artifacts| && p.artifacts[k] == f;
    assert StatOf(g, f) == StatOf(e, f);
    CreateChecksum.ChangedArtifactChangesFingerprint(p, g, f, data, sha256);
  }

  // ---------------------------------------------------------------- staging

  /** The staging directory, existing and empty; everything else as it was. */
  function Cleared(e: map<Path, Node>, staging: Path): map<Path, Node> {
    SyncResult(e, map[], staging)
  }

  /** `publicationsStore/<taskName>`. */
  function PublicationStore(publicationsStore: Path, taskName: string): Path {
    publicationsStore + [taskName]
  }

  /** Staging synced into the publish task's publication store, then cleared. */
  function Captured(e: map<Path, Node>, staging: Path, publicationStore: Path): map<Path, Node> {
    Cleared(SyncResult(e, Subtree(e, staging), publicationStore), staging)
  }

  /** `doFirst_`: for the dev repository the staging directory is deleted and made again. */
  method DoFirst(fs: FileSystem, repoIsDevPub: bool, staging: Path)
    requires staging != []
    modifies fs
    ensures fs.entries == if repoIsDevPub then Cleared(old(fs.entries), staging) else old(fs.entries)
  {
    if repoIsDevPub {
      ghost var e0 := fs.entries;
      fs.DeleteRecursively(staging);
      fs.Mkdirs(staging);
      EmptySync(e0, staging);
    }
  }

  /** `doLast_`: for the dev repository staging is synced into the publication store and cleared again. */
  method DoLast(fs: FileSystem, repoIsDevPub: bool, staging: Path, publicationStore: Path)
    requires staging != []
    modifies fs
    ensures fs.entries == if repoIsDevPub then Captured(old(fs.entries), staging, publicationStore) else old(fs.entries)
  {
    if repoIsDevPub {
      fs.Sync(Subtree(fs.entries, staging), publicationStore);
      DoFirst(fs, true, staging);
    }
  }

  /** After `doFirst_` the staging directory exists and is empty, and nothing outside it has changed. */
  lemma ClearedIsEmpty(e: map<Path, Node>, staging: Path)
    ensures StatOf(Cleared(e, staging), staging) == Directory
    ensures Subtree(Cleared(e, staging), staging) == map[]
    ensures Outside(Cleared(e, staging), staging) == Outside(e, staging)
  {
    StatOfSyncedChild(e, map[], staging, "");
    SubtreeOfSync(e, map[], staging);
    OutsideOfSync(e, map[], staging);
  }

  /** After `doLast_` the publication store holds exactly what staging held, and staging is empty again. */
  lemma CapturedHoldsStaging(e: map<Path, Node>, staging: Path, publicationStore: Path)
    requires Disjoint(staging, publicationStore)
    ensures Subtree(Captured(e, staging, publicationStore), publicationStore) == Subtree(e, staging)
    ensures Subtree(Captured(e, staging, publicationStore), staging) == map[]
  {
    var s := Subtree(e, staging);
    var synced := SyncResult(e, s, publicationStore);
    SyncKeepsDisjoint(synced, map[], staging, publicationStore);
    SubtreeOfSync(e, s, publicationStore);
    SubtreeOfSync(synced, map[], staging);
  }

  /**
   * A whole dev-repository publication: staging is cleared, the publish writes the tree
   * `written` into it, and `doLast_` moves it; the publish task's publication store then holds
   * exactly the files the publish wrote.
   */
  lemma PublicationCaptured(e: map<Path, Node>, written: map<Path, Node>, staging: Path, publicationStore: Path)
    requires Disjoint(staging, publicationStore) && [] !in written
    ensures var published := SyncResult(Cleared(e, staging), written, staging);
      Subtree(Captured(published, staging, publicationStore), publicationStore) == written
  {
    var published := SyncResult(Cleared(e, staging), written, staging);
    SubtreeOfSync(Cleared(e, staging), written, staging);
    CapturedHoldsStaging(published, staging, publicationStore);
  }

  // ---------------------------------------------------------------- publication data

  /** The fields of a `MavenPublication` the plugin reads. */
  datatype MavenPublication = MavenPublication(name: string, groupId: string, artifactId: string, version: string, artifactFiles: seq<Path>)

  /** `"$groupId:$artifactId:$version"`. */
  function Identifier(p: MavenPublication): string {
    p.groupId + ":" + p.artifactId + ":" + p.version
  }

  /** The identifier splits back into its three parts when the group and artifact ids hold no ':'. */
  lemma IdentifierParts(p: MavenPublication)
    requires NoChar(p.groupId, ':') && NoChar(p.artifactId, ':')
    ensures var (g, rest) := StdlibUtils.SplitToPair(Identifier(p), ":");
      g == p.groupId && StdlibUtils.SplitToPair(rest, ":") == (p.artifactId, p.version)
  {
    assert Identifier(p) == p.groupId + [':'] + (p.artifactId + ":" + p.version);
    StdlibUtils.SplitToPairOfGlued(p.groupId, ':', p.artifactId + ":" + p.version);
    assert p.artifactId + ":" + p.version == p.artifactId + [':'] + p.version;
    StdlibUtils.SplitToPairOfGlued(p.artifactId, ':', p.version);
  }

  /**
   * `createPublicationData`: none for a null publication; otherwise data named after
   * the publication, with its identifier. The plugin sets no artifacts.
   */
  function CreatePublicationData(publication: Option<MavenPublication>): (r: Option<PublicationData>)
    ensures r.None? <==> publication.None?
    ensures r.Some? ==>
      r.value.named == publication.value.name && r.value.identifier == Identifier(publication.value) && r.value.artifacts == []
  {
    match publication
    case None => None
    case Some(p) => Some(LegacyChecksum.PublicationData(p.name, [], Identifier(p)))
  }

  /**
   * `DevPublishService.createPublicationData`: as the plugin's, except that the data
   * also holds the files of the publication's artifacts, in the publication's order.
   */
  function ServicePublicationData(publication: Option<MavenPublication>): (r: Option<PublicationData>)
    ensures r.None? <==> publication.None?
    ensures r.Some? ==>
      r.value.named == publication.value.name && r.value.identifier == Identifier(publication.value) && r.value.artifacts == publication.value.artifactFiles
  {
    match publication
    case None => None
    case Some(p) => Some(LegacyChecksum.PublicationData(p.name, p.artifactFiles, Identifier(p)))
  }

  /** The two constructors agree on everything but the artifacts, which only the service's data holds. */
  lemma ServiceDataAddsArtifacts(publication: MavenPublication)
    ensures var (a, b) := (CreatePublicationData(Some(publication)).value, ServicePublicationData(Some(publication)).value);
      a.named == b.named && a.identifier == b.identifier && a.artifacts == [] && b.artifacts == publication.artifactFiles
  {
  }

  /** `uppercaseFirstChar()`, for ASCII letters. */
  function UppercaseFirstChar(s: string): (r: string)
    ensures |r| == |s| && (s != [] ==> r[1..] == s[1..])
    ensures s != [] && 'a' <= s[0] <= 'z' ==> 'A' <= r[0] <= 'Z' && r[0] == (s[0] as int - 32) as char
    ensures s != [] && !('a' <= s[0] <= 'z') ==> r == s
  {
    if s != [] && 'a' <= s[0] <= 'z' then [(s[0] as int - 32) as char] + s[1..] else s
  }

  /** Uppercasing the first letter a second time changes nothing. */
  lemma UppercaseFirstCharIdempotent(s: string)
    ensures UppercaseFirstChar(UppercaseFirstChar(s)) == UppercaseFirstChar(s)
  {
  }

  const MetadataPrefix: string := "generateMetadataFileFor"
  const MetadataSuffix: string := "Publication"

  /** `getGenerateModuleMetadataTaskName()`. */
  function GenerateModuleMetadataTaskName(publicationName: string): (r: string)
    ensures |r| == |MetadataPrefix| + |publicationName| + |MetadataSuffix|
    ensures StartsWith(r, MetadataPrefix) && EndsWith(r, MetadataSuffix)
    ensures r[|MetadataPrefix|..|r| - |MetadataSuffix|] == UppercaseFirstChar(publicationName)
  {
    var u := UppercaseFirstChar(publicationName);
    var r := MetadataPrefix + u + MetadataSuffix;
    assert r[..|MetadataPrefix|] == MetadataPrefix;
    assert r[|r| - |MetadataSuffix|..] == MetadataSuffix;
    assert r[|MetadataPrefix|..|r| - |MetadataSuffix|] == u;
    r
  }

  /** Two publications share a metadata task exactly when their names agree after the first letter is uppercased. */
  lemma MetadataTaskNameMatches(a: string, b: string)
    ensures GenerateModuleMetadataTaskName(a) == GenerateModuleMetadataTaskName(b) <==> UppercaseFirstChar(a) == UppercaseFirstChar(b)
  {
  }
}
