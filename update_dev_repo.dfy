/**
 * `UpdateDevRepoTask.updateDevRepo()`: one sync into the dev repository from the
 * publication store and from the repository contents of other projects. Every
 * file has its first directory dropped, empty directories are not copied, and
 * whatever else the dev repository held is removed.
 */
module UpdateDevRepo {
  import opened Binary
  import opened Disk
  import GradleUtils

  /** A file as the sync visits it: its path relative to the tree it comes from, and its bytes. */
  datatype FileDetails = FileDetails(relativePath: GradleUtils.RelativePath, data: seq<byte>)

  /** Where `eachFile { relativePath = relativePath.dropDirectory() }` puts a file. */
  function Target(f: FileDetails): Path {
    GradleUtils.DropDirectory(f.relativePath).segments
  }

  /** One visited file copied into the tree collected so far. */
  function Put(t: map<Path, Node>, f: FileDetails): map<Path, Node> {
    if Target(f) == [] then t else t[Target(f) := File(f.data)]
  }

  /**
   * The tree the sync copies, the files taken in the order they are visited: each at
   * its target, a later file at the same target replacing an earlier one. A file
   * with no directory above it has no target left and is not copied.
   */
  function Copied(files: seq<FileDetails>): (t: map<Path, Node>)
    ensures [] !in t
    ensures forall q :: q in t ==> t[q].File?
  {
    if |files| == 0 then map[] else
      Put(Copied(files[..|files| - 1]), files[|files| - 1])
  }

  /** No two copied files share a target. */
  predicate DistinctTargets(files: seq<FileDetails>) {
    forall i, j :: 0 <= i < j < |files| && Target(files[i]) != [] ==> Target(files[i]) != Target(files[j])
  }

  lemma CopiedSnoc(files: seq<FileDetails>, i: nat, copied: map<Path, Node>)
    requires i < |files| && copied == Copied(files[..i])
    ensures Copied(files[..i + 1]) == Put(copied, files[i])
  {
    assert files[..i + 1][..i] == files[..i];
  }

  /** The files visited in order, collected into the tree the sync copies. */
  method Collect(files: seq<FileDetails>) returns (copied: map<Path, Node>)
    ensures copied == Copied(files)
  {
    copied := map[];
    var i := 0;
    while i < |files|
      invariant 0 <= i <= |files|
      invariant copied == Copied(files[..i])
    {
      CopiedSnoc(files, i, copied);
      copied := Put(copied, files[i]);
      i := i + 1;
    }
    assert files[..i] == files;
  }

  /**
   * `files` is the file tree below `root` as a sync visits it: each listed file is a
   * regular file at `root` followed by its relative path, with those bytes, and every
   * regular file strictly below `root` is listed.
   */
  predicate ListsTree(e: map<Path, Node>, root: Path, files: seq<FileDetails>) {
    (forall i :: 0 <= i < |files| ==>
      files[i].relativePath.segments != [] && root + files[i].relativePath.segments in e &&
      e[root + files[i].relativePath.segments] == File(files[i].data)) &&
    (forall p :: p in e && StrictlyUnder(p, root) && e[p].File? ==>
      exists i :: 0 <= i < |files| && root + files[i].relativePath.segments == p)
  }

  /**
   * The Gradle task action: the files of the publication store, as they are on disk,
   * then those of the other projects' repository contents, synced into `devRepo`.
   */
  method Update(fs: FileSystem, publicationsStore: Path, publicationsStoreFiles: seq<FileDetails>, repositoryContentsFiles: seq<FileDetails>, devRepo: Path)
    requires ListsTree(fs.entries, publicationsStore, publicationsStoreFiles)
    modifies fs
    ensures fs.entries == SyncResult(old(fs.entries), Copied(publicationsStoreFiles + repositoryContentsFiles), devRepo)
  {
    var copied := Collect(publicationsStoreFiles + repositoryContentsFiles);
    fs.Sync(copied, devRepo);
  }

  // ---------------------------------------------------------------- properties

  /** A path is copied exactly when some file has it as its target. */
  lemma {:induction false} CopiedKeys(files: seq<FileDetails>, q: Path)
    ensures q in Copied(files) <==> q != [] && exists i :: 0 <= i < |files| && Target(files[i]) == q
  {
    if |files| > 0 {
      var n := |files| - 1;
      var front := files[..n];
      CopiedKeys(front, q);
      if q in Copied(front) {
        var i :| 0 <= i < n && Target(front[i]) == q;
        assert front[i] == files[i];
      } else if q != [] && q == Target(files[n]) {
        assert 0 <= n < |files| && Target(files[n]) == q;
      } else {
        forall i | 0 <= i < |files| && q != []
          ensures Target(files[i]) != q
        {
          if i < n {
            assert front[i] == files[i];
          }
        }
      }
    }
  }

  lemma DistinctPrefix(files: seq<FileDetails>, n: nat)
    requires n <= |files| && DistinctTargets(files)
    ensures DistinctTargets(files[..n])
  {
    forall i, j | 0 <= i < j < n && Target(files[..n][i]) != []
      ensures Target(files[..n][i]) != Target(files[..n][j])
    {
      assert files[..n][i] == files[i] && files[..n][j] == files[j];
    }
  }

  /** With distinct targets, every file lands at its target with its own bytes. */
  lemma {:induction false} CopiedAt(files: seq<FileDetails>, i: nat)
    requires DistinctTargets(files) && i < |files| && Target(files[i]) != []
    ensures Target(files[i]) in Copied(files) && Copied(files)[Target(files[i])] == File(files[i].data)
  {
    var n := |files| - 1;
    if i < n {
      DistinctPrefix(files, n);
      CopiedAt(files[..n], i);
      assert files[..n][i] == files[i];
    }
  }

  /** Afterwards `devRepo` holds exactly the copied files, without directories of its own, and nothing stale. */
  lemma DevRepoHoldsCopied(e: map<Path, Node>, files: seq<FileDetails>, devRepo: Path)
    ensures Subtree(SyncResult(e, Copied(files), devRepo), devRepo) == Copied(files)
    ensures FilesOf(Subtree(SyncResult(e, Copied(files), devRepo), devRepo)).Keys == Copied(files).Keys
  {
    SubtreeOfSync(e, Copied(files), devRepo);
  }

  /** A second run with the same inputs changes nothing. */
  lemma UpdateIdempotent(e: map<Path, Node>, files: seq<FileDetails>, devRepo: Path)
    ensures SyncResult(SyncResult(e, Copied(files), devRepo), Copied(files), devRepo) == SyncResult(e, Copied(files), devRepo)
  {
    SyncIdempotent(e, Copied(files), devRepo);
  }

  /** An input directory lying neither inside nor around `devRepo` is read, not written. */
  lemma InputsUntouched(e: map<Path, Node>, files: seq<FileDetails>, devRepo: Path, input: Path)
    requires Disjoint(input, devRepo)
    ensures Subtree(SyncResult(e, Copied(files), devRepo), input) == Subtree(e, input)
  {
    SyncKeepsDisjoint(e, Copied(files), devRepo, input);
  }

  /** A file `<dir>/<rest>` of an input lands at `<devRepo>/<rest>`. */
  lemma FileLandsBelowDevRepo(e: map<Path, Node>, files: seq<FileDetails>, devRepo: Path, i: nat)
    requires DistinctTargets(files) && i < |files| && |files[i].relativePath.segments| >= 2
    ensures var rest := files[i].relativePath.segments[1..];
      StatOf(SyncResult(e, Copied(files), devRepo), devRepo + rest) == Regular(files[i].data)
  {
    var rest := files[i].relativePath.segments[1..];
    assert Target(files[i]) == rest;
    CopiedAt(files, i);
    SyncAt(e, Copied(files), devRepo, devRepo + rest);
    JoinedIsUnder(devRepo, rest);
  }

  /**
   * A file `<publicationsStore>/<dir>/<rest>` on disk, as `DoLast` leaves one below
   * `<publicationsStore>/<taskName>`, lands at `<devRepo>/<rest>` with its bytes.
   */
  lemma StoredFileLandsInDevRepo(e: map<Path, Node>, publicationsStore: Path, storeFiles: seq<FileDetails>, otherFiles: seq<FileDetails>, devRepo: Path, dir: string, rest: Path)
    requires ListsTree(e, publicationsStore, storeFiles) && DistinctTargets(storeFiles + otherFiles)
    requires rest != [] && publicationsStore + [dir] + rest in e && e[publicationsStore + [dir] + rest].File?
    ensures StatOf(SyncResult(e, Copied(storeFiles + otherFiles), devRepo), devRepo + rest) == Regular(e[publicationsStore + [dir] + rest].data)
  {
    var i := ListedIndex(e, publicationsStore, storeFiles, dir, rest);
    var files := storeFiles + otherFiles;
    assert files[i] == storeFiles[i];
    FileLandsBelowDevRepo(e, files, devRepo, i);
  }

  /** The index at which a file `<root>/<dir>/<rest>` of the tree is listed. */
  lemma ListedIndex(e: map<Path, Node>, root: Path, files: seq<FileDetails>, dir: string, rest: Path) returns (i: nat)
    requires ListsTree(e, root, files)
    requires root + [dir] + rest in e && e[root + [dir] + rest].File?
    ensures i < |files| && files[i].relativePath.segments == [dir] + rest
    ensures files[i].data == e[root + [dir] + rest].data
  {
    var p := root + ([dir] + rest);
    assert root + [dir] + rest == p;
    JoinedIsUnder(root, [dir] + rest);
    i :| 0 <= i < |files| && root + files[i].relativePath.segments == p;
    JoinedIsUnder(root, files[i].relativePath.segments);
  }
}
