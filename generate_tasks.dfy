/**
 * The two tasks that store one fingerprint file per publication:
 * `GeneratePublicationDataChecksumTask`, which writes `<name>.txt` with the text
 * of the `CreatePublicationChecksum` value source, and the older
 * `GeneratePublicationHashTask`, which writes `createChecksumContent()`. Both
 * fill a temporary directory and then sync it into the checksum store.
 */
module GenerateTasks {
  import opened Wrappers
  import opened Binary
  import opened Text
  import opened Disk
  import opened FileChecksums
  import CreateChecksum
  import LegacyChecksum
  import LoadChecksum
  import Utf8
  import Collect

  type PublicationData = LegacyChecksum.PublicationData

  /** No artifact lies inside `dir`. */
  predicate OutsideOf(pubs: seq<PublicationData>, dir: Path) {
    forall i, j :: 0 <= i < |pubs| && 0 <= j < |pubs[i].artifacts| ==> !Under(pubs[i].artifacts[j], dir)
  }

  /** Publications are named apart, as in a `NamedDomainObjectContainer`. */
  predicate DistinctNames(pubs: seq<PublicationData>) {
    forall i, j :: 0 <= i < j < |pubs| ==> pubs[i].named != pubs[j].named
  }

  /** The value source's parameters as the checksum task sets them: the artifacts, the identifier, no module metadata. */
  function TaskParameters(projectDir: Path, d: PublicationData): CreateChecksum.Parameters {
    CreateChecksum.Parameters(projectDir, d.artifacts, d.identifier, [])
  }

  /** The file name of a publication's fingerprint, as a path relative to the directory holding it. */
  function FileKey(d: PublicationData): Path {
    [LegacyChecksum.ChecksumFilename(d)]
  }

  /**
   * The temporary directory once each publication's text has been written to its
   * `<name>.txt`, in order; a later publication of the same name overwrites an earlier one.
   */
  function Staged(pubs: seq<PublicationData>, texts: seq<string>): (t: map<Path, Node>)
    requires |texts| == |pubs|
    ensures [] !in t
    ensures forall k :: k in t ==> t[k].File?
  {
    if |pubs| == 0 then map[] else
      var n := |pubs| - 1;
      Staged(pubs[..n], texts[..n])[FileKey(pubs[n]) := File(Utf8.Encode(texts[n]))]
  }

  /** Every publication's artifacts can be read. */
  predicate AllReadable(e: map<Path, Node>, pubs: seq<PublicationData>) {
    forall i :: 0 <= i < |pubs| ==> CreateChecksum.Readable(e, pubs[i].artifacts)
  }

  /** The value source's text for one publication, as the checksum task obtains it. */
  function FingerprintOf(projectDir: Path, e: map<Path, Node>, sha256: seq<byte> -> Digest): PublicationData -> Option<string> {
    d => CreateChecksum.Fingerprint(TaskParameters(projectDir, d), e, sha256)
  }

  /** The text of every publication, in order, or none when some publication's artifacts cannot be read. */
  function Texts(projectDir: Path, pubs: seq<PublicationData>, e: map<Path, Node>, sha256: seq<byte> -> Digest): Option<seq<string>> {
    Collect.Traverse(pubs, FingerprintOf(projectDir, e, sha256))
  }

  /** The file system after the temporary directory holds `staged` and has been synced into `out`. */
  function Generated(e: map<Path, Node>, staged: map<Path, Node>, tempDir: Path, out: Path): map<Path, Node> {
    SyncResult(SyncResult(e, staged, tempDir), staged, out)
  }

  // ---------------------------------------------------------------- steps of the loop

  lemma UpdateSame(m: map<Path, Node>, k: Path)
    requires k in m
    ensures m[k := m[k]] == m
  {
  }

  lemma StagedSnoc(pubs: seq<PublicationData>, texts: seq<string>, i: nat, text: string)
    requires i < |pubs| && |texts| == i
    ensures Staged(pubs[..i + 1], texts + [text]) == Staged(pubs[..i], texts)[FileKey(pubs[i]) := File(Utf8.Encode(text))]
  {
    assert pubs[..i + 1][..i] == pubs[..i];
    assert (texts + [text])[..i] == texts;
  }

  /** Writing into the staged directory succeeds, and stages one more file. */
  lemma WriteIntoStaged(e: map<Path, Node>, staged: map<Path, Node>, tempDir: Path, name: string, data: seq<byte>)
    requires forall k :: k in staged ==> staged[k].File?
    ensures var p := tempDir + [name]; var s := SyncResult(e, staged, tempDir);
      p[..|p| - 1] == tempDir && StatOf(s, tempDir) == Directory && !StatOf(s, p).Directory?
      && s[p := File(data)] == SyncResult(e, staged[[name] := File(data)], tempDir)
  {
    var p := tempDir + [name];
    assert p[..|p| - 1] == tempDir;
    StatOfSyncedChild(e, staged, tempDir, name);
    SyncThenWrite(e, staged, tempDir, name, File(data));
  }

  /** What the temporary directory holds does not change the state of artifacts outside it. */
  lemma ArtifactsUntouched(e: map<Path, Node>, staged: map<Path, Node>, tempDir: Path, d: PublicationData)
    requires forall j :: 0 <= j < |d.artifacts| ==> !Under(d.artifacts[j], tempDir)
    ensures CreateChecksum.SameFiles(SyncResult(e, staged, tempDir), e, d.artifacts)
  {
    forall j | 0 <= j < |d.artifacts|
      ensures StatOf(SyncResult(e, staged, tempDir), d.artifacts[j]) == StatOf(e, d.artifacts[j])
    {
      StatElsewhere(e, staged, tempDir, d.artifacts[j]);
    }
  }

  // ---------------------------------------------------------------- the current task

  /**
   * `GeneratePublicationDataChecksumTask.generate()`. The temporary directory is
   * emptied, each publication's fingerprint is written to `<name>.txt` inside it, and
   * it is synced into the output directory. When a publication's artifacts cannot be
   * read the value source fails, the action stops, and nothing outside the temporary
   * directory has changed.
   */
  method Generate(fs: FileSystem, pubs: seq<PublicationData>, projectDir: Path, tempDir: Path, outputDirectory: Path, sha256: seq<byte> -> Digest)
      returns (ok: bool)
    requires tempDir != []
    requires OutsideOf(pubs, tempDir)
    modifies fs
    ensures ok <==> Texts(projectDir, pubs, old(fs.entries), sha256).Some?
    ensures ok ==> fs.entries == Generated(old(fs.entries), Staged(pubs, Texts(projectDir, pubs, old(fs.entries), sha256).value), tempDir, outputDirectory)
    ensures !ok ==> Outside(fs.entries, tempDir) == Outside(old(fs.entries), tempDir)
  {
    ghost var e0 := fs.entries;
    fs.DeleteRecursively(tempDir);
    fs.Mkdirs(tempDir);
    EmptySync(e0, tempDir);
    var texts: seq<string> := [];
    ghost var staged: map<Path, Node> := map[];
    var i := 0;
    assert pubs[..0] == [];
    while i < |pubs|
      invariant 0 <= i <= |pubs| && |texts| == i
      invariant Texts(projectDir, pubs[..i], e0, sha256) == Some(texts)
      invariant staged == Staged(pubs[..i], texts)
      invariant fs.entries == SyncResult(e0, staged, tempDir)
    {
      var d := pubs[i];
      ArtifactsUntouched(e0, staged, tempDir, d);
      CreateChecksum.FingerprintFrame(TaskParameters(projectDir, d), fs.entries, e0, sha256);
      var checksum := CreateChecksum.Obtain(TaskParameters(projectDir, d), fs.entries, sha256);
      if checksum.None? {
        Collect.TraverseFail(pubs, FingerprintOf(projectDir, e0, sha256), i);
        OutsideOfSync(e0, staged, tempDir);
        return false;
      }
      var name := LegacyChecksum.ChecksumFilename(d);
      var checksumFile := LoadChecksum.Resolve(tempDir, name);
      WriteIntoStaged(e0, staged, tempDir, name, Utf8.Encode(checksum.value));
      var written := fs.WriteBytes(checksumFile, Utf8.Encode(checksum.value));
      StagedSnoc(pubs, texts, i, checksum.value);
      Collect.TraverseSnoc(pubs, FingerprintOf(projectDir, e0, sha256), i, texts, checksum.value);
      staged := staged[[name] := File(Utf8.Encode(checksum.value))];
      texts := texts + [checksum.value];
      i := i + 1;
    }
    assert pubs[..i] == pubs;
    SubtreeOfSync(e0, staged, tempDir);
    fs.Sync(Subtree(fs.entries, tempDir), outputDirectory);
    ok := true;
  }

  // ---------------------------------------------------------------- the older task

  /** `createChecksumContent()` of each publication, in order. */
  function LegacyTexts(pubs: seq<PublicationData>, checksum: Path -> string): seq<string> {
    Collect.MapSeq(pubs, ContentOf(checksum))
  }

  function ContentOf(checksum: Path -> string): PublicationData -> string {
    d => LegacyChecksum.CreateChecksumContent(d, checksum)
  }

  lemma LegacyTextsSnoc(pubs: seq<PublicationData>, i: nat, checksum: Path -> string, texts: seq<string>)
    requires i < |pubs| && texts == LegacyTexts(pubs[..i], checksum)
    ensures texts + [LegacyChecksum.CreateChecksumContent(pubs[i], checksum)] == LegacyTexts(pubs[..i + 1], checksum)
  {
    Collect.MapSeqSnoc(pubs, ContentOf(checksum), i);
  }

  /**
   * One publication's file in the older task: when it does not exist, its parent
   * directory is made and an empty file created; then the content is written. The
   * parent is made exactly when it was missing, and the file ends up holding `data`.
   */
  method WriteChecksumFile(fs: FileSystem, file: Path, data: seq<byte>)
    requires |file| > 1
    requires var parent := file[..|file| - 1];
      (fs.Stat(parent) == Directory && !fs.Stat(file).Directory?) || (fs.Stat(parent).Missing? && fs.Stat(file).Missing?)
    modifies fs
    ensures var parent := file[..|file| - 1];
      fs.entries == (if old(fs.Stat(parent)).Missing? then old(fs.entries)[parent := Dir] else old(fs.entries))[file := File(data)]
  {
    var parent := file[..|file| - 1];
    ghost var made := if fs.Stat(parent).Missing? then fs.entries[parent := Dir] else fs.entries;
    if fs.Stat(file).Missing? {
      fs.Mkdirs(parent);
      if parent in old(fs.entries) {
        UpdateSame(old(fs.entries), parent);
      }
      var created := fs.CreateNewFile(file);
      assert fs.entries == made[file := File([])];
    }
    var written := fs.WriteBytes(file, data);
  }

  /**
   * Where the older task's loop stands: before the first publication the temporary
   * directory is gone; after it, the directory holds exactly the staged files.
   */
  predicate Staging(e0: map<Path, Node>, staged: map<Path, Node>, tempDir: Path, entries: map<Path, Node>, first: bool) {
    if first then entries == Outside(e0, tempDir) && staged == map[] else entries == SyncResult(e0, staged, tempDir)
  }

  /** The older task's temporary directory once every publication is written. */
  function LegacyStaged(pubs: seq<PublicationData>, checksum: Path -> string): map<Path, Node> {
    Staged(pubs, LegacyTexts(pubs, checksum))
  }

  lemma LegacyStagedSnoc(pubs: seq<PublicationData>, i: nat, checksum: Path -> string)
    requires i < |pubs|
    ensures LegacyStaged(pubs[..i + 1], checksum)
      == LegacyStaged(pubs[..i], checksum)[FileKey(pubs[i]) := File(Utf8.Encode(ContentOf(checksum)(pubs[i])))]
  {
    var texts := LegacyTexts(pubs[..i], checksum);
    LegacyTextsSnoc(pubs, i, checksum, texts);
    StagedSnoc(pubs, texts, i, LegacyChecksum.CreateChecksumContent(pubs[i], checksum));
  }

  /**
   * One turn of the older task's loop: the publication's file is made if need be and
   * written with `createChecksumContent()`, which stages one more file in the
   * temporary directory, whether or not the directory existed yet.
   */
  method WriteLegacyFile(fs: FileSystem, ghost e0: map<Path, Node>, ghost staged: map<Path, Node>, tempDir: Path, d: PublicationData, checksum: Path -> string, ghost first: bool)
      returns (content: string)
    requires tempDir != []
    requires forall k :: k in staged ==> staged[k].File?
    requires Staging(e0, staged, tempDir, fs.entries, first)
    modifies fs
    ensures content == ContentOf(checksum)(d)
    ensures Staging(e0, staged[FileKey(d) := File(Utf8.Encode(content))], tempDir, fs.entries, false)
  {
    var name := LegacyChecksum.ChecksumFilename(d);
    var file := LoadChecksum.Resolve(tempDir, name);
    content := LegacyChecksum.CreateChecksumContent(d, checksum);
    assert file == tempDir + [name] && file[..|file| - 1] == tempDir;
    ghost var before := SyncResult(e0, staged, tempDir);
    StatOfSyncedChild(e0, staged, tempDir, name);
    ghost var made := if fs.Stat(tempDir).Missing? then fs.entries[tempDir := Dir] else fs.entries;
    if first {
      JoinedIsUnder(tempDir, [name]);
      EmptySync(e0, tempDir);
      assert made == before;
    } else {
      assert made == before;
    }
    WriteIntoStaged(e0, staged, tempDir, name, Utf8.Encode(content));
    WriteChecksumFile(fs, file, Utf8.Encode(content));
    assert fs.entries == before[file := File(Utf8.Encode(content))];
  }

  /** The file of publication `i` is written, and the temporary directory holds the first `i + 1` files. */
  method StageNext(fs: FileSystem, ghost e0: map<Path, Node>, pubs: seq<PublicationData>, i: nat, tempDir: Path, checksum: Path -> string)
    requires tempDir != [] && i < |pubs|
    requires Staging(e0, LegacyStaged(pubs[..i], checksum), tempDir, fs.entries, i == 0)
    modifies fs
    ensures Staging(e0, LegacyStaged(pubs[..i + 1], checksum), tempDir, fs.entries, false)
  {
    var content := WriteLegacyFile(fs, e0, LegacyStaged(pubs[..i], checksum), tempDir, pubs[i], checksum, i == 0);
    LegacyStagedSnoc(pubs, i, checksum);
  }

  /**
   * The loop of `GeneratePublicationHashTask.generate()`, run on a file system whose
   * temporary directory has just been deleted: each publication's file is staged in
   * turn. Without publications nothing is made.
   */
  method StageLegacy(fs: FileSystem, ghost e0: map<Path, Node>, pubs: seq<PublicationData>, tempDir: Path, checksum: Path -> string)
    requires tempDir != [] && fs.entries == Outside(e0, tempDir)
    modifies fs
    ensures pubs != [] ==> fs.entries == SyncResult(e0, LegacyStaged(pubs, checksum), tempDir)
    ensures pubs == [] ==> fs.entries == Outside(e0, tempDir)
  {
    var i := 0;
    assert pubs[..0] == [];
    while i < |pubs|
      invariant 0 <= i <= |pubs|
      invariant Staging(e0, LegacyStaged(pubs[..i], checksum), tempDir, fs.entries, i == 0)
    {
      StageNext(fs, e0, pubs, i, tempDir, checksum);
      i := i + 1;
    }
    assert pubs[..i] == pubs;
  }

  /**
   * `GeneratePublicationHashTask.generate()`: the temporary directory is deleted; for
   * each publication its file is created, with its parent, if it does not exist, and
   * then overwritten with the publication's content; the directory is synced into the
   * output directory. Without publications the directory is never made again, and
   * the sync finds nothing to copy.
   */
  method GenerateLegacy(fs: FileSystem, pubs: seq<PublicationData>, tempDir: Path, outputDirectory: Path, checksum: Path -> string)
    requires tempDir != []
    modifies fs
    ensures pubs != [] ==> fs.entries == Generated(old(fs.entries), LegacyStaged(pubs, checksum), tempDir, outputDirectory)
    ensures pubs == [] ==> fs.entries == SyncResult(Outside(old(fs.entries), tempDir), map[], outputDirectory)
  {
    ghost var e0 := fs.entries;
    fs.DeleteRecursively(tempDir);
    StageLegacy(fs, e0, pubs, tempDir, checksum);
    if pubs != [] {
      SubtreeOfSync(e0, LegacyStaged(pubs, checksum), tempDir);
    } else {
      SubtreeOfOutside(e0, tempDir);
    }
    fs.Sync(Subtree(fs.entries, tempDir), outputDirectory);
  }

  // ---------------------------------------------------------------- what the store holds

  /** Both tasks read every publication's artifacts: the text of each exists exactly when all can be read. */
  lemma TextsSucceed(projectDir: Path, pubs: seq<PublicationData>, e: map<Path, Node>, sha256: seq<byte> -> Digest)
    ensures Texts(projectDir, pubs, e, sha256).Some? <==> AllReadable(e, pubs)
  {
    Collect.TraverseSome(pubs, FingerprintOf(projectDir, e, sha256));
  }

  lemma DistinctPrefix(pubs: seq<PublicationData>, n: nat)
    requires n <= |pubs| && DistinctNames(pubs)
    ensures DistinctNames(pubs[..n])
  {
    forall i, j | 0 <= i < j < n
      ensures pubs[..n][i].named != pubs[..n][j].named
    {
      assert pubs[..n][i] == pubs[i] && pubs[..n][j] == pubs[j];
    }
  }

  /** The staged directory holds one `<name>.txt` per publication and nothing else. */
  lemma {:induction false} StagedKeys(pubs: seq<PublicationData>, texts: seq<string>, k: Path)
    requires |texts| == |pubs|
    ensures k in Staged(pubs, texts) <==> exists i :: 0 <= i < |pubs| && FileKey(pubs[i]) == k
  {
    if |pubs| > 0 {
      var n := |pubs| - 1;
      var front := pubs[..n];
      StagedKeys(front, texts[..n], k);
      var inFront := k in Staged(front, texts[..n]);
      assert k in Staged(pubs, texts) <==> inFront || k == FileKey(pubs[n]);
      if inFront {
        var i :| 0 <= i < n && FileKey(front[i]) == k;
        assert front[i] == pubs[i];
      } else if k == FileKey(pubs[n]) {
        assert 0 <= n < |pubs| && FileKey(pubs[n]) == k;
      } else {
        forall i | 0 <= i < |pubs|
          ensures FileKey(pubs[i]) != k
        {
          if i < n {
            assert front[i] == pubs[i];
          }
        }
      }
    }
  }

  /** With publications named apart, each one's file holds its own text. */
  lemma {:induction false} StagedAt(pubs: seq<PublicationData>, texts: seq<string>, i: nat)
    requires |texts| == |pubs| && DistinctNames(pubs) && i < |pubs|
    ensures FileKey(pubs[i]) in Staged(pubs, texts)
    ensures Staged(pubs, texts)[FileKey(pubs[i])] == File(Utf8.Encode(texts[i]))
  {
    var n := |pubs| - 1;
    if i < n {
      DistinctPrefix(pubs, n);
      StagedAt(pubs[..n], texts[..n], i);
      LegacyChecksum.ChecksumFilenameInjective(pubs[i], pubs[n]);
      assert pubs[..n][i] == pubs[i] && texts[..n][i] == texts[i];
    }
  }

  /** The store ends up holding exactly the staged files: a file left by an earlier run is gone. */
  lemma StoreHoldsExactlyStaged(e: map<Path, Node>, pubs: seq<PublicationData>, texts: seq<string>, tempDir: Path, out: Path)
    requires |texts| == |pubs|
    ensures Subtree(Generated(e, Staged(pubs, texts), tempDir, out), out) == Staged(pubs, texts)
  {
    SubtreeOfSync(SyncResult(e, Staged(pubs, texts), tempDir), Staged(pubs, texts), out);
  }

  /** In the store, each publication's `<name>.txt` is a regular file holding its encoded text. */
  lemma StoredAt(e: map<Path, Node>, pubs: seq<PublicationData>, texts: seq<string>, tempDir: Path, out: Path, i: nat)
    requires |texts| == |pubs| && DistinctNames(pubs) && i < |pubs|
    ensures var name := LegacyChecksum.ChecksumFilename(pubs[i]);
      StatOf(Generated(e, Staged(pubs, texts), tempDir, out), LoadChecksum.Resolve(out, name)) == Regular(Utf8.Encode(texts[i]))
  {
    var staged := Staged(pubs, texts);
    StagedAt(pubs, texts, i);
    StatOfSyncedChild(SyncResult(e, staged, tempDir), staged, out, LegacyChecksum.ChecksumFilename(pubs[i]));
  }

  /** Loading a publication's stored checksum after `generate()` gives back the text written for it. */
  lemma StoredChecksumRoundTrip(e: map<Path, Node>, pubs: seq<PublicationData>, texts: seq<string>, tempDir: Path, out: Path, i: nat)
    requires |texts| == |pubs| && DistinctNames(pubs) && i < |pubs|
    ensures var name, g := LegacyChecksum.ChecksumFilename(pubs[i]), Generated(e, Staged(pubs, texts), tempDir, out);
      LoadChecksum.LegacyLoad(Some(name), out, g) == Success(Some(texts[i]))
      && (IsTrimmed(texts[i]) ==> LoadChecksum.Load(Some(name), out, g) == Success(Some(texts[i])))
  {
    var name := LegacyChecksum.ChecksumFilename(pubs[i]);
    StoredAt(e, pubs, texts, tempDir, out, i);
    LoadChecksum.LoadStored(name, out, Generated(e, Staged(pubs, texts), tempDir, out), texts[i]);
    if IsTrimmed(texts[i]) {
      TrimmedIsFixpoint(texts[i]);
    }
  }

  lemma FingerprintTrimmed(p: CreateChecksum.Parameters, e: map<Path, Node>, sha256: seq<byte> -> Digest)
    requires CreateChecksum.Fingerprint(p, e, sha256).Some?
    ensures IsTrimmed(CreateChecksum.Fingerprint(p, e, sha256).value)
  {
    var gmm, artifacts := CreateChecksum.GradleModuleMetadataChecksums(p, e, sha256), CreateChecksum.ArtifactsChecksums(p, e, sha256);
    assert CreateChecksum.Fingerprint(p, e, sha256).value == CreateChecksum.Render(p.identifier, gmm.value, artifacts.value);
  }

  /**
   * After the current task succeeds, loading a publication's stored checksum gives
   * exactly the value source's text for it on the file system the checksum task started from.
   */
  lemma GenerateThenLoad(projectDir: Path, pubs: seq<PublicationData>, e: map<Path, Node>, sha256: seq<byte> -> Digest, tempDir: Path, out: Path, i: nat)
    requires DistinctNames(pubs) && i < |pubs| && Texts(projectDir, pubs, e, sha256).Some?
    ensures var g := Generated(e, Staged(pubs, Texts(projectDir, pubs, e, sha256).value), tempDir, out);
      LoadChecksum.Load(Some(LegacyChecksum.ChecksumFilename(pubs[i])), out, g)
        == Success(CreateChecksum.Fingerprint(TaskParameters(projectDir, pubs[i]), e, sha256))
  {
    var texts := Texts(projectDir, pubs, e, sha256).value;
    Collect.TraverseAt(pubs, FingerprintOf(projectDir, e, sha256), i);
    FingerprintTrimmed(TaskParameters(projectDir, pubs[i]), e, sha256);
    StoredChecksumRoundTrip(e, pubs, texts, tempDir, out, i);
  }

  /** After the older task, reading a publication's file gives back its `createChecksumContent()`. */
  lemma GenerateLegacyThenLoad(pubs: seq<PublicationData>, checksum: Path -> string, e: map<Path, Node>, tempDir: Path, out: Path, i: nat)
    requires DistinctNames(pubs) && i < |pubs|
    ensures var g := Generated(e, LegacyStaged(pubs, checksum), tempDir, out);
      LoadChecksum.LegacyLoad(Some(LegacyChecksum.ChecksumFilename(pubs[i])), out, g)
        == Success(Some(LegacyChecksum.CreateChecksumContent(pubs[i], checksum)))
  {
    Collect.MapSeqAt(pubs, ContentOf(checksum), i);
    StoredChecksumRoundTrip(e, pubs, LegacyTexts(pubs, checksum), tempDir, out, i);
  }
}
