/**
 * `CreatePublicationChecksum`: the fingerprint of a publication as it is now.
 * The text is the identifier, a `---` line, then one `path:checksum` line per
 * module-metadata file and per artifact (each block sorted), trimmed.
 */
module CreateChecksum {
  import opened Wrappers
  import opened Binary
  import opened Text
  import opened Sorting
  import opened Disk
  import opened FilePaths
  import opened FileChecksums

  /** `FileChecksumSeparator`. */
  const FileChecksumSeparator: string := ":"

  /** The value source's parameters; the file collections are listed in any order. */
  datatype Parameters = Parameters(
    projectDir: Path,
    artifacts: seq<Path>,
    identifier: string,
    gradleModuleMetadata: seq<Path>)

  /** One line of the fingerprint. */
  function EntryLine(path: string, checksum: string): string {
    path + FileChecksumSeparator + checksum
  }

  /** Two lines for the same path are equal only when their checksums are. */
  lemma EntryLineInjective(path: string, c1: string, c2: string)
    ensures EntryLine(path, c1) == EntryLine(path, c2) <==> c1 == c2
  {
    var n := |path| + 1;
    assert EntryLine(path, c1)[n..] == c1;
    assert EntryLine(path, c2)[n..] == c2;
  }

  /** The line for file `f`: its path relative to the project directory and its checksum; none when `f` cannot be read. */
  function Entry(e: map<Path, Node>, projectDir: Path, f: Path, sha256: seq<byte> -> Digest): (r: Option<string>)
    ensures r.None? <==> StatOf(e, f).Directory?
  {
    match Checksum(StatOf(e, f), sha256)
    case None => None
    case Some(c) => Some(EntryLine(InvariantSeparatorsPath(RelativeTo(f, projectDir)), c))
  }

  /** `Entry` as a function of the file alone. */
  function LineOf(e: map<Path, Node>, projectDir: Path, sha256: seq<byte> -> Digest): Path -> string {
    f => Entry(e, projectDir, f, sha256).GetOr("")
  }

  /** No file is a directory. */
  predicate Readable(e: map<Path, Node>, files: seq<Path>) {
    forall i :: 0 <= i < |files| ==> !StatOf(e, files[i]).Directory?
  }

  /** The lines for `files`, in the order given; none when one of them cannot be read. */
  function Entries(e: map<Path, Node>, projectDir: Path, files: seq<Path>, sha256: seq<byte> -> Digest): (r: Option<seq<string>>)
    ensures r.Some? <==> Readable(e, files)
    ensures r.Some? ==> |r.value| == |files|
    ensures r.Some? ==> forall i :: 0 <= i < |files| ==> Entry(e, projectDir, files[i], sha256) == Some(r.value[i])
  {
    if Readable(e, files) then Some(Map(LineOf(e, projectDir, sha256), files)) else None
  }

  /** The lines for `files` in `compareTo` order; none when one of them cannot be read. */
  function SortedEntries(e: map<Path, Node>, projectDir: Path, files: seq<Path>, sha256: seq<byte> -> Digest): (r: Option<seq<string>>)
    ensures r.Some? <==> Readable(e, files)
    ensures r.Some? ==> Sorted(r.value, LexLe)
    ensures r.Some? ==> multiset(r.value) == multiset(Entries(e, projectDir, files, sha256).value)
  {
    match Entries(e, projectDir, files, sha256)
    case None => None
    case Some(ls) => Some(SortStrings(ls))
  }

  /** `artifactsChecksums()`. */
  function ArtifactsChecksums(p: Parameters, e: map<Path, Node>, sha256: seq<byte> -> Digest): Option<seq<string>> {
    SortedEntries(e, p.projectDir, p.artifacts, sha256)
  }

  /** `gradleModuleMetadataChecksums()`. */
  function GradleModuleMetadataChecksums(p: Parameters, e: map<Path, Node>, sha256: seq<byte> -> Digest): Option<seq<string>> {
    SortedEntries(e, p.projectDir, p.gradleModuleMetadata, sha256)
  }

  // ---------------------------------------------------------------- the text

  /** The identifier line and the `---` line. */
  function Header(identifier: string): string {
    identifier + "\n" + "---" + "\n"
  }

  /** What the string builder holds before trimming. */
  function Built(identifier: string, gmm: seq<string>, artifacts: seq<string>): string {
    Header(identifier) + Terminated(gmm) + Terminated(artifacts)
  }

  /** The fingerprint text for the given, already sorted, lines. */
  function Render(identifier: string, gmm: seq<string>, artifacts: seq<string>): string {
    Trim(Built(identifier, gmm, artifacts))
  }

  /** `obtain()`: none when a file cannot be read. */
  function Fingerprint(p: Parameters, e: map<Path, Node>, sha256: seq<byte> -> Digest): (r: Option<string>)
    ensures r.None? <==> !Readable(e, p.artifacts) || !Readable(e, p.gradleModuleMetadata)
  {
    match (GradleModuleMetadataChecksums(p, e, sha256), ArtifactsChecksums(p, e, sha256))
    case (Some(gmm), Some(artifacts)) => Some(Render(p.identifier, gmm, artifacts))
    case _ => None
  }

  /** Appending one more line to what is already written. */
  lemma AppendLine(h: string, ls: seq<string>, x: string)
    ensures h + Terminated(ls) + x + "\n" == h + Terminated(ls + [x])
  {
    TerminatedAppend(ls, [x]);
    assert Terminated([x]) == x + "\n";
  }

  /** The `buildString` block: the header, then each line of each block with `appendLine`. */
  method BuildText(identifier: string, gs: seq<string>, ats: seq<string>) returns (text: string)
    ensures text == Built(identifier, gs, ats)
  {
    var h := Header(identifier);
    text := identifier + "\n";
    text := text + "---" + "\n";
    assert text == h + Terminated(gs[..0]);
    var i := 0;
    while i < |gs|
      invariant i <= |gs|
      invariant text == h + Terminated(gs[..i])
    {
      assert gs[..i + 1] == gs[..i] + [gs[i]];
      AppendLine(h, gs[..i], gs[i]);
      text := text + gs[i] + "\n";
      i := i + 1;
    }
    assert gs[..i] == gs;
    var h2 := h + Terminated(gs);
    assert text == h2 + Terminated(ats[..0]);
    var j := 0;
    while j < |ats|
      invariant j <= |ats|
      invariant text == h2 + Terminated(ats[..j])
    {
      assert ats[..j + 1] == ats[..j] + [ats[j]];
      AppendLine(h2, ats[..j], ats[j]);
      text := text + ats[j] + "\n";
      j := j + 1;
    }
    assert ats[..j] == ats;
  }

  /** `obtain()`: the checksum lines of both blocks, built into text and trimmed. */
  method Obtain(p: Parameters, e: map<Path, Node>, sha256: seq<byte> -> Digest) returns (r: Option<string>)
    ensures r == Fingerprint(p, e, sha256)
  {
    var artifacts := ArtifactsChecksums(p, e, sha256);
    var gmm := GradleModuleMetadataChecksums(p, e, sha256);
    if artifacts.None? || gmm.None? {
      return None;
    }
    var text := BuildText(p.identifier, gmm.value, artifacts.value);
    r := Some(Trim(text));
  }

  // ---------------------------------------------------------------- the shape of the text

  /** A line that `lines()` keeps whole and `trim()` leaves alone at the end of the text. */
  predicate Solid(l: string) {
    l != [] && NoLineBreak(l) && !IsWhitespace(l[|l| - 1])
  }

  predicate SolidLines(ls: seq<string>) {
    forall i :: 0 <= i < |ls| ==> Solid(ls[i])
  }

  /** An identifier that starts the text: not empty, on one line, not starting with whitespace. */
  predicate PlainIdentifier(id: string) {
    id != [] && NoLineBreak(id) && !IsWhitespace(id[0])
  }

  lemma BuiltIsJoin(id: string, g: seq<string>, a: seq<string>)
    ensures Built(id, g, a) == Join([id, "---"] + g + a, "\n") + "\n"
  {
    var rest := g + a;
    var l := [id, "---"] + g + a;
    assert l[1..] == ["---"] + rest;
    assert (["---"] + rest)[1..] == rest;
    TerminatedAppend(g, a);
    TerminatedJoin(l);
  }

  lemma JoinFirst(ls: seq<string>, sep: string)
    requires |ls| >= 1 && ls[0] != []
    ensures |Join(ls, sep)| > 0 && Join(ls, sep)[0] == ls[0][0]
  {
  }

  lemma {:induction false} JoinLast(ls: seq<string>, sep: string)
    requires |ls| >= 1 && ls[|ls| - 1] != []
    ensures var j, l := Join(ls, sep), ls[|ls| - 1]; |j| > 0 && j[|j| - 1] == l[|l| - 1]
  {
    if |ls| > 1 {
      JoinLast(ls[1..], sep);
    }
  }

  /** The last of the header and the entry lines is solid. */
  lemma LastSolid(id: string, g: seq<string>, a: seq<string>)
    requires SolidLines(g) && SolidLines(a)
    ensures var l := [id, "---"] + g + a; Solid(l[|l| - 1])
  {
    var l := [id, "---"] + g + a;
    if |a| > 0 {
      assert l[|l| - 1] == a[|a| - 1];
    } else if |g| > 0 {
      assert l[|l| - 1] == g[|g| - 1];
    } else {
      assert l[|l| - 1] == "---";
    }
  }

  /** Joined, the header and solid lines neither start nor end with whitespace. */
  lemma JoinedTrimmed(id: string, g: seq<string>, a: seq<string>)
    requires id != [] && !IsWhitespace(id[0])
    requires SolidLines(g) && SolidLines(a)
    ensures var j := Join([id, "---"] + g + a, "\n"); j != [] && IsTrimmed(j)
  {
    var l := [id, "---"] + g + a;
    LastSolid(id, g, a);
    JoinFirst(l, "\n");
    JoinLast(l, "\n");
  }

  /** With solid entry lines, the text is the header and the lines joined by line feeds. */
  lemma RenderIsJoin(id: string, g: seq<string>, a: seq<string>)
    requires id != [] && !IsWhitespace(id[0])
    requires SolidLines(g) && SolidLines(a)
    ensures Render(id, g, a) == Join([id, "---"] + g + a, "\n")
  {
    BuiltIsJoin(id, g, a);
    JoinedTrimmed(id, g, a);
    TrimDropsFinalNewline(Join([id, "---"] + g + a, "\n"));
  }

  /** The lines of the text are the identifier, `---`, the metadata lines and the artifact lines. */
  lemma RenderLines(id: string, g: seq<string>, a: seq<string>)
    requires PlainIdentifier(id)
    requires SolidLines(g) && SolidLines(a)
    ensures Lines(Render(id, g, a)) == [id, "---"] + g + a
  {
    var l := [id, "---"] + g + a;
    RenderIsJoin(id, g, a);
    forall k | 0 <= k < |l|
      ensures NoLineBreak(l[k])
    {
      if k >= 2 + |g| {
        assert l[k] == a[k - 2 - |g|];
      } else if k >= 2 {
        assert l[k] == g[k - 2];
      }
    }
    LinesOfJoin(l);
  }

  /** With no files, the text is the identifier and `---`, with no final line feed. */
  lemma RenderEmpty(id: string)
    requires id != [] && !IsWhitespace(id[0])
    ensures Render(id, [], []) == id + "\n---"
  {
    RenderIsJoin(id, [], []);
    assert [id, "---"] + [] + [] == [id, "---"];
  }

  /** Whatever the lines, the text starts with the identifier and `---`, and `---` ends its line. */
  lemma RenderHeader(id: string, g: seq<string>, a: seq<string>)
    requires id != [] && !IsWhitespace(id[0])
    ensures var r := Render(id, g, a);
      StartsWith(r, id + "\n---") && (|r| == |id| + 4 || r[|id| + 4] == '\n')
  {
    var b := Built(id, g, a);
    var h := id + "\n---";
    assert b == h + ("\n" + Terminated(g) + Terminated(a));
    assert b[0] == id[0];
    assert TrimStart(b) == b;
    assert b[|h| - 1] == '-';
    var r := TrimEnd(b);
    assert |r| >= |h|;
    assert r[..|h|] == b[..|h|] == h;
  }

  lemma SplitHeader(r: string, id: string)
    requires StartsWith(r, id + "\n---")
    ensures r == id + "\n" + ("---" + r[|id| + 4..])
  {
    assert r == r[..|id| + 4] + r[|id| + 4..];
  }

  /** A text made of a plain line, a line feed, `---` and then nothing or a line break has those two first lines. */
  lemma HeaderLines(id: string, rest: string)
    requires NoLineBreak(id)
    requires rest == [] || rest[0] == '\n'
    ensures var ls := Lines(id + "\n" + ("---" + rest)); |ls| >= 2 && ls[0] == id && ls[1] == "---"
  {
    var dashes := "---";
    assert NoLineBreak(dashes);
    LinesOfConcatPlain(id, dashes + rest);
    if rest == [] {
      assert dashes + rest == Join([dashes], "\n");
      LinesOfJoin([dashes]);
    } else {
      assert rest == "\n" + rest[1..];
      assert dashes + rest == dashes + "\n" + rest[1..];
      LinesOfConcatPlain(dashes, rest[1..]);
    }
  }

  /** Whatever the lines, the first two lines are the identifier and `---`. */
  lemma RenderFirstLines(id: string, g: seq<string>, a: seq<string>)
    requires PlainIdentifier(id)
    ensures var ls := Lines(Render(id, g, a)); |ls| >= 2 && ls[0] == id && ls[1] == "---"
  {
    var r := Render(id, g, a);
    RenderHeader(id, g, a);
    SplitHeader(r, id);
    HeaderLines(id, r[|id| + 4..]);
  }

  /** With solid lines and as many metadata lines on both sides, equal texts have equal lines. */
  lemma RenderInjective(id: string, g1: seq<string>, a1: seq<string>, g2: seq<string>, a2: seq<string>)
    requires PlainIdentifier(id)
    requires SolidLines(g1) && SolidLines(a1) && SolidLines(g2) && SolidLines(a2)
    requires |g1| == |g2|
    ensures Render(id, g1, a1) == Render(id, g2, a2) <==> g1 == g2 && a1 == a2
  {
    RenderLines(id, g1, a1);
    RenderLines(id, g2, a2);
    var l1, l2 := [id, "---"] + g1 + a1, [id, "---"] + g2 + a2;
    assert l1[2..2 + |g1|] == g1 && l1[2 + |g1|..] == a1;
    assert l2[2..2 + |g2|] == g2 && l2[2 + |g2|..] == a2;
  }

  // ---------------------------------------------------------------- the fingerprint of files

  /** No segment of any file's path holds a line break. */
  predicate PlainFiles(files: seq<Path>) {
    forall i :: 0 <= i < |files| ==> PlainPath(files[i])
  }

  lemma EntrySolid(e: map<Path, Node>, projectDir: Path, f: Path, sha256: seq<byte> -> Digest)
    requires PlainPath(f)
    requires Entry(e, projectDir, f, sha256).Some?
    ensures Solid(Entry(e, projectDir, f, sha256).value)
  {
    var c := Checksum(StatOf(e, f), sha256).value;
    var path := InvariantSeparatorsPath(RelativeTo(f, projectDir));
    RelativeToPlain(f, projectDir);
    InvariantPathPlain(RelativeTo(f, projectDir));
    assert NoLineBreak(c);
    NoBreakAppend(path, FileChecksumSeparator);
    NoBreakAppend(path + FileChecksumSeparator, c);
    assert EntryLine(path, c)[|EntryLine(path, c)| - 1] == c[|c| - 1];
  }

  lemma EntriesSolid(e: map<Path, Node>, projectDir: Path, files: seq<Path>, sha256: seq<byte> -> Digest)
    requires PlainFiles(files)
    requires Entries(e, projectDir, files, sha256).Some?
    ensures SolidLines(Entries(e, projectDir, files, sha256).value)
  {
    forall i | 0 <= i < |files|
      ensures Solid(Entries(e, projectDir, files, sha256).value[i])
    {
      EntrySolid(e, projectDir, files[i], sha256);
    }
  }

  lemma SolidPermutation(a: seq<string>, b: seq<string>)
    requires SolidLines(a) && multiset(a) == multiset(b)
    ensures SolidLines(b)
  {
    forall i | 0 <= i < |b|
      ensures Solid(b[i])
    {
      assert b[i] in multiset(a);
    }
  }

  /** Both blocks of a fingerprint consist of solid lines. */
  lemma BlocksSolid(p: Parameters, e: map<Path, Node>, sha256: seq<byte> -> Digest)
    requires PlainFiles(p.artifacts) && PlainFiles(p.gradleModuleMetadata)
    requires Fingerprint(p, e, sha256).Some?
    ensures SolidLines(GradleModuleMetadataChecksums(p, e, sha256).value)
    ensures SolidLines(ArtifactsChecksums(p, e, sha256).value)
  {
    EntriesSolid(e, p.projectDir, p.artifacts, sha256);
    EntriesSolid(e, p.projectDir, p.gradleModuleMetadata, sha256);
    SolidPermutation(Entries(e, p.projectDir, p.artifacts, sha256).value, ArtifactsChecksums(p, e, sha256).value);
    SolidPermutation(Entries(e, p.projectDir, p.gradleModuleMetadata, sha256).value, GradleModuleMetadataChecksums(p, e, sha256).value);
  }

  /**
   * The lines of the fingerprint: the identifier, `---`, the sorted metadata lines,
   * then the sorted artifact lines; one line per file and two more.
   */
  lemma FingerprintLines(p: Parameters, e: map<Path, Node>, sha256: seq<byte> -> Digest)
    requires PlainIdentifier(p.identifier)
    requires PlainFiles(p.artifacts) && PlainFiles(p.gradleModuleMetadata)
    requires Fingerprint(p, e, sha256).Some?
    ensures Lines(Fingerprint(p, e, sha256).value)
      == [p.identifier, "---"] + GradleModuleMetadataChecksums(p, e, sha256).value + ArtifactsChecksums(p, e, sha256).value
    ensures |Lines(Fingerprint(p, e, sha256).value)| == 2 + |p.gradleModuleMetadata| + |p.artifacts|
  {
    BlocksSolid(p, e, sha256);
    var g, a := GradleModuleMetadataChecksums(p, e, sha256).value, ArtifactsChecksums(p, e, sha256).value;
    RenderLines(p.identifier, g, a);
    assert |g| == |multiset(g)|;
    assert |a| == |multiset(a)|;
  }

  /** The number of lines alone: one per file and two more. */
  lemma FingerprintLineCount(p: Parameters, e: map<Path, Node>, sha256: seq<byte> -> Digest)
    requires PlainIdentifier(p.identifier)
    requires PlainFiles(p.artifacts) && PlainFiles(p.gradleModuleMetadata)
    requires Fingerprint(p, e, sha256).Some?
    ensures |Lines(Fingerprint(p, e, sha256).value)| == 2 + |p.gradleModuleMetadata| + |p.artifacts|
  {
    FingerprintLines(p, e, sha256);
  }

  /** A publication without files has the identifier and `---` as its fingerprint. */
  lemma FingerprintOfNoFiles(p: Parameters, e: map<Path, Node>, sha256: seq<byte> -> Digest)
    requires p.artifacts == [] && p.gradleModuleMetadata == []
    requires p.identifier != [] && !IsWhitespace(p.identifier[0])
    ensures Fingerprint(p, e, sha256) == Some(p.identifier + "\n---")
  {
    assert SortStrings([]) == [];
    RenderEmpty(p.identifier);
  }

  lemma ReadablePermutation(e: map<Path, Node>, xs: seq<Path>, ys: seq<Path>)
    requires multiset(xs) == multiset(ys)
    requires Readable(e, xs)
    ensures Readable(e, ys)
  {
    forall j | 0 <= j < |ys|
      ensures !StatOf(e, ys[j]).Directory?
    {
      assert ys[j] in multiset(xs);
      var i :| 0 <= i < |xs| && xs[i] == ys[j];
    }
  }

  /** Rearranging the files rearranges their lines. */
  lemma EntriesPermutation(e: map<Path, Node>, base: Path, xs: seq<Path>, ys: seq<Path>, sha256: seq<byte> -> Digest)
    requires multiset(xs) == multiset(ys)
    ensures Entries(e, base, xs, sha256).Some? <==> Entries(e, base, ys, sha256).Some?
    ensures Entries(e, base, xs, sha256).Some? ==>
      multiset(Entries(e, base, xs, sha256).value) == multiset(Entries(e, base, ys, sha256).value)
  {
    if Readable(e, xs) {
      ReadablePermutation(e, xs, ys);
      MapPermutation(LineOf(e, base, sha256), xs, ys);
    }
    if Readable(e, ys) {
      ReadablePermutation(e, ys, xs);
    }
  }

  /** Sorting makes the lines independent of the order of the files. */
  lemma SortedEntriesPermutation(e: map<Path, Node>, base: Path, xs: seq<Path>, ys: seq<Path>, sha256: seq<byte> -> Digest)
    requires multiset(xs) == multiset(ys)
    ensures SortedEntries(e, base, xs, sha256) == SortedEntries(e, base, ys, sha256)
  {
    EntriesPermutation(e, base, xs, ys, sha256);
    if Readable(e, xs) {
      SortStringsPermutationInvariant(Entries(e, base, xs, sha256).value, Entries(e, base, ys, sha256).value);
    }
  }

  /** The fingerprint does not depend on the order in which either file collection lists its files. */
  lemma FingerprintPermutation(p: Parameters, q: Parameters, e: map<Path, Node>, sha256: seq<byte> -> Digest)
    requires p.projectDir == q.projectDir && p.identifier == q.identifier
    requires multiset(p.artifacts) == multiset(q.artifacts)
    requires multiset(p.gradleModuleMetadata) == multiset(q.gradleModuleMetadata)
    ensures Fingerprint(p, e, sha256) == Fingerprint(q, e, sha256)
  {
    SortedEntriesPermutation(e, p.projectDir, p.artifacts, q.artifacts, sha256);
    SortedEntriesPermutation(e, p.projectDir, p.gradleModuleMetadata, q.gradleModuleMetadata, sha256);
  }

  // ---------------------------------------------------------------- a changed file changes the fingerprint

  lemma StatOfUpdate(e: map<Path, Node>, f: Path, data: seq<byte>, x: Path)
    requires f != []
    ensures StatOf(e[f := File(data)], x) == if x == f then Regular(data) else StatOf(e, x)
  {
  }

  /** Contents with another digest give the file another line. */
  lemma EntryOfChangedFile(e: map<Path, Node>, base: Path, f: Path, data: seq<byte>, sha256: seq<byte> -> Digest)
    requires StatOf(e, f).Regular? && sha256(StatOf(e, f).data) != sha256(data)
    ensures var e2 := e[f := File(data)];
      Entry(e, base, f, sha256).Some? && Entry(e2, base, f, sha256).Some?
      && Entry(e2, base, f, sha256) != Entry(e, base, f, sha256)
  {
    var e2 := e[f := File(data)];
    StatOfUpdate(e, f, data, f);
    ChecksumInjective(StatOf(e, f).data, data, sha256);
    var path := InvariantSeparatorsPath(RelativeTo(f, base));
    EntryLineInjective(path, Checksum(StatOf(e, f), sha256).value, Checksum(Regular(data), sha256).value);
  }

  lemma ReadableAfterUpdate(e: map<Path, Node>, files: seq<Path>, f: Path, data: seq<byte>)
    requires f != [] && Readable(e, files)
    ensures Readable(e[f := File(data)], files)
  {
    forall i | 0 <= i < |files|
      ensures !StatOf(e[f := File(data)], files[i]).Directory?
    {
      StatOfUpdate(e, f, data, files[i]);
    }
  }

  /** After the change, the changed file's old line is gone from its place, and appears only where it was. */
  lemma OldLineOnlyWhereItWas(e: map<Path, Node>, base: Path, files: seq<Path>, f: Path, data: seq<byte>, sha256: seq<byte> -> Digest, k: nat)
    requires StatOf(e, f).Regular? && sha256(StatOf(e, f).data) != sha256(data)
    requires Readable(e, files) && Readable(e[f := File(data)], files)
    requires k < |files| && files[k] == f
    ensures var l1, l2 := LineOf(e, base, sha256), LineOf(e[f := File(data)], base, sha256);
      l2(files[k]) != l1(files[k]) && forall j :: 0 <= j < |files| && l2(files[j]) == l1(files[k]) ==> l1(files[j]) == l1(files[k])
  {
    EntryOfChangedFile(e, base, f, data, sha256);
    forall j | 0 <= j < |files|
      ensures StatOf(e[f := File(data)], files[j]) == if files[j] == f then Regular(data) else StatOf(e, files[j])
    {
      StatOfUpdate(e, f, data, files[j]);
    }
  }

  /** Changing the digest of a listed file changes the multiset of lines. */
  lemma EntriesOfChangedFile(e: map<Path, Node>, base: Path, files: seq<Path>, f: Path, data: seq<byte>, sha256: seq<byte> -> Digest)
    requires f in files
    requires StatOf(e, f).Regular? && sha256(StatOf(e, f).data) != sha256(data)
    requires Readable(e, files)
    ensures var e2 := e[f := File(data)];
      Entries(e2, base, files, sha256).Some?
      && multiset(Entries(e2, base, files, sha256).value) != multiset(Entries(e, base, files, sha256).value)
  {
    ReadableAfterUpdate(e, files, f, data);
    var k :| 0 <= k < |files| && files[k] == f;
    OldLineOnlyWhereItWas(e, base, files, f, data, sha256, k);
    MapChangedAt(LineOf(e, base, sha256), LineOf(e[f := File(data)], base, sha256), files, k);
  }

  /** The sorted artifact block changes with the artifact. */
  lemma ArtifactBlockChanges(p: Parameters, e: map<Path, Node>, f: Path, data: seq<byte>, sha256: seq<byte> -> Digest)
    requires f in p.artifacts
    requires StatOf(e, f).Regular? && sha256(StatOf(e, f).data) != sha256(data)
    requires Readable(e, p.artifacts)
    ensures var e2 := e[f := File(data)];
      ArtifactsChecksums(p, e2, sha256).Some?
      && ArtifactsChecksums(p, e2, sha256) != ArtifactsChecksums(p, e, sha256)
  {
    EntriesOfChangedFile(e, p.projectDir, p.artifacts, f, data, sha256);
  }

  /** The sorted metadata block keeps its length. */
  lemma MetadataBlockLength(p: Parameters, e: map<Path, Node>, sha256: seq<byte> -> Digest)
    requires Readable(e, p.gradleModuleMetadata)
    ensures |GradleModuleMetadataChecksums(p, e, sha256).value| == |p.gradleModuleMetadata|
  {
    var g := GradleModuleMetadataChecksums(p, e, sha256).value;
    assert |g| == |multiset(g)|;
  }

  /**
   * Changing the contents of one artifact to contents with another digest changes
   * the fingerprint, when the paths and the identifier are plain.
   */
  lemma ChangedArtifactChangesFingerprint(p: Parameters, e: map<Path, Node>, f: Path, data: seq<byte>, sha256: seq<byte> -> Digest)
    requires PlainIdentifier(p.identifier)
    requires PlainFiles(p.artifacts) && PlainFiles(p.gradleModuleMetadata)
    requires f in p.artifacts
    requires StatOf(e, f).Regular? && sha256(StatOf(e, f).data) != sha256(data)
    requires Fingerprint(p, e, sha256).Some?
    ensures Fingerprint(p, e[f := File(data)], sha256).Some?
    ensures Fingerprint(p, e[f := File(data)], sha256) != Fingerprint(p, e, sha256)
  {
    var e2 := e[f := File(data)];
    ArtifactBlockChanges(p, e, f, data, sha256);
    ReadableAfterUpdate(e, p.gradleModuleMetadata, f, data);
    var g1, a1 := GradleModuleMetadataChecksums(p, e, sha256).value, ArtifactsChecksums(p, e, sha256).value;
    var g2, a2 := GradleModuleMetadataChecksums(p, e2, sha256).value, ArtifactsChecksums(p, e2, sha256).value;
    assert Fingerprint(p, e, sha256) == Some(Render(p.identifier, g1, a1));
    assert Fingerprint(p, e2, sha256) == Some(Render(p.identifier, g2, a2));
    BlocksSolid(p, e, sha256);
    BlocksSolid(p, e2, sha256);
    MetadataBlockLength(p, e, sha256);
    MetadataBlockLength(p, e2, sha256);
    RenderInjective(p.identifier, g1, a1, g2, a2);
    assert a1 != a2;
  }

  // ---------------------------------------------------------------- what the text depends on

  /** The files are in the same state in both file systems. */
  predicate SameFiles(e1: map<Path, Node>, e2: map<Path, Node>, files: seq<Path>) {
    forall i :: 0 <= i < |files| ==> StatOf(e1, files[i]) == StatOf(e2, files[i])
  }

  lemma LineFrame(e1: map<Path, Node>, e2: map<Path, Node>, base: Path, f: Path, sha256: seq<byte> -> Digest)
    requires StatOf(e1, f) == StatOf(e2, f)
    ensures LineOf(e1, base, sha256)(f) == LineOf(e2, base, sha256)(f)
  {
  }

  lemma ReadableFrame(e1: map<Path, Node>, e2: map<Path, Node>, files: seq<Path>)
    requires SameFiles(e1, e2, files)
    ensures Readable(e1, files) <==> Readable(e2, files)
  {
  }

  lemma LinesFrame(e1: map<Path, Node>, e2: map<Path, Node>, base: Path, files: seq<Path>, sha256: seq<byte> -> Digest)
    requires SameFiles(e1, e2, files)
    ensures Map(LineOf(e1, base, sha256), files) == Map(LineOf(e2, base, sha256), files)
  {
    var a, b := Map(LineOf(e1, base, sha256), files), Map(LineOf(e2, base, sha256), files);
    forall i | 0 <= i < |files|
      ensures a[i] == b[i]
    {
      LineFrame(e1, e2, base, files[i], sha256);
    }
  }

  lemma EntriesFrame(e1: map<Path, Node>, e2: map<Path, Node>, base: Path, files: seq<Path>, sha256: seq<byte> -> Digest)
    requires SameFiles(e1, e2, files)
    ensures SortedEntries(e1, base, files, sha256) == SortedEntries(e2, base, files, sha256)
  {
    ReadableFrame(e1, e2, files);
    LinesFrame(e1, e2, base, files, sha256);
  }

  /** The text depends only on the state of the listed files, not on anything else on disk. */
  lemma FingerprintFrame(p: Parameters, e1: map<Path, Node>, e2: map<Path, Node>, sha256: seq<byte> -> Digest)
    requires SameFiles(e1, e2, p.artifacts) && SameFiles(e1, e2, p.gradleModuleMetadata)
    ensures Fingerprint(p, e1, sha256) == Fingerprint(p, e2, sha256)
  {
    EntriesFrame(e1, e2, p.projectDir, p.artifacts, sha256);
    EntriesFrame(e1, e2, p.projectDir, p.gradleModuleMetadata, sha256);
  }
}
