/**
 * The older fingerprint renderers: `CreatePublicationChecksum` in the `data`
 * package and `PublicationData.createChecksumContent`. Both sort one line per
 * artifact, join the lines with line feeds and put them into a raw-string
 * template under the identifier and `---`, which `trimMargin()` then cuts.
 * The per-file checksum they call, `utils.checksum`, is not part of this model:
 * it is a parameter here.
 */
module LegacyChecksum {
  import opened Text
  import opened Sorting
  import opened Disk
  import opened FilePaths
  import CreateChecksum

  /** The older `FileChecksumSeparator`. */
  const FileChecksumSeparator: string := ":"

  /** The raw string before `trimMargin()`: an empty first line, three margin lines and a blank last line. */
  function Template(identifier: string, body: string): string {
    "\n      |" + identifier + "\n      |---\n      |" + body + "\n    "
  }

  /** The template filled with the identifier and the lines, cut by `trimMargin()`. */
  function Render(identifier: string, lines: seq<string>): string {
    TrimMargin(Template(identifier, Join(lines, "\n")))
  }

  /** A line that `trimMargin()` leaves as it is. */
  predicate MarginFree(l: string) {
    MarginCut(l) == l
  }

  /** The line of one artifact, for a given way of writing its path. */
  function LineOf(pathText: Path -> string, checksum: Path -> string): Path -> string {
    f => pathText(f) + FileChecksumSeparator + checksum(f)
  }

  /** The path relative to the project directory, with `/` separators. */
  function RelativePathText(projectDir: Path): Path -> string {
    f => InvariantSeparatorsPath(RelativeTo(f, projectDir))
  }

  /** The path as it is, with `/` separators. */
  function OwnPathText(): Path -> string {
    f => InvariantSeparatorsPath(f)
  }

  /** The older `CreatePublicationChecksum.obtain()`. */
  function Create(projectDir: Path, artifacts: seq<Path>, identifier: string, checksum: Path -> string): string {
    Render(identifier, SortStrings(Map(LineOf(RelativePathText(projectDir), checksum), artifacts)))
  }

  /** A publication as the older tasks see it. */
  datatype PublicationData = PublicationData(named: string, artifacts: seq<Path>, identifier: string)

  /** `checksumFilename`: the publication's name and `.txt`. */
  function ChecksumFilename(d: PublicationData): (r: string)
    ensures EndsWith(r, ".txt") && r[..|r| - 4] == d.named
  {
    d.named + ".txt"
  }

  /** Publications with different names are stored in different files. */
  lemma ChecksumFilenameInjective(a: PublicationData, b: PublicationData)
    ensures ChecksumFilename(a) == ChecksumFilename(b) <==> a.named == b.named
  {
  }

  /** `createChecksumContent()`: like `Create`, but with each artifact's own path, not one relative to the project. */
  function CreateChecksumContent(d: PublicationData, checksum: Path -> string): string {
    Render(d.identifier, SortStrings(Map(LineOf(OwnPathText(), checksum), d.artifacts)))
  }

  // ---------------------------------------------------------------- the shape of the text

  /** Putting a prefix before the first line puts it before the joined text. */
  lemma JoinPrefixFirst(p: string, ls: seq<string>, sep: string)
    requires |ls| >= 1
    ensures Join([p + ls[0]] + ls[1..], sep) == p + Join(ls, sep)
  {
    var m := [p + ls[0]] + ls[1..];
    assert m[1..] == ls[1..];
    if |ls| > 1 {
      ConcatAssoc(p, ls[0], sep + Join(ls[1..], sep));
      ConcatAssoc(ls[0], sep, Join(ls[1..], sep));
      ConcatAssoc(p + ls[0], sep, Join(ls[1..], sep));
    }
  }

  /** The margin line written with the body. */
  function BodyLines(lines: seq<string>): seq<string> {
    if lines == [] then ["      |"] else ["      |" + lines[0]] + lines[1..]
  }

  function TemplateLines(identifier: string, lines: seq<string>): seq<string> {
    ["", "      |" + identifier, "      |---"] + BodyLines(lines) + ["    "]
  }

  lemma BodyJoin(lines: seq<string>)
    ensures Join(BodyLines(lines), "\n") == "      |" + Join(lines, "\n")
  {
    if lines != [] {
      JoinPrefixFirst("      |", lines, "\n");
    }
  }

  lemma HeadJoin(identifier: string)
    ensures Join(["", "      |" + identifier, "      |---"], "\n") == "\n      |" + identifier + "\n      |---"
  {
    var head := ["", "      |" + identifier, "      |---"];
    assert head[1..] == ["      |" + identifier, "      |---"];
    assert head[1..][1..] == ["      |---"];
    assert Join(head[1..], "\n") == "      |" + identifier + "\n" + "      |---";
  }

  /** The template is its lines joined by line feeds. */
  lemma TemplateIsJoin(identifier: string, lines: seq<string>)
    ensures Template(identifier, Join(lines, "\n")) == Join(TemplateLines(identifier, lines), "\n")
  {
    var head := ["", "      |" + identifier, "      |---"];
    var b := BodyLines(lines);
    var body := Join(lines, "\n");
    BodyJoin(lines);
    HeadJoin(identifier);
    JoinAppend(head, b + ["    "], "\n");
    JoinSnoc(b, "    ", "\n");
    assert head + b + ["    "] == head + (b + ["    "]);
    calc {
      Join(TemplateLines(identifier, lines), "\n");
      Join(head, "\n") + "\n" + (Join(b, "\n") + "\n" + "    ");
      ("\n      |" + identifier + "\n      |---") + "\n" + ("      |" + body + "\n" + "    ");
      Template(identifier, body);
    }
  }

  /** Every template line is on one line when the identifier and the lines are. */
  lemma TemplateLinesPlain(identifier: string, lines: seq<string>)
    requires NoLineBreak(identifier)
    requires forall i :: 0 <= i < |lines| ==> NoLineBreak(lines[i])
    ensures forall k :: 0 <= k < |TemplateLines(identifier, lines)| ==> NoLineBreak(TemplateLines(identifier, lines)[k])
  {
    var w := TemplateLines(identifier, lines);
    var b := BodyLines(lines);
    forall k | 0 <= k < |w|
      ensures NoLineBreak(w[k])
    {
      if 3 <= k < |w| - 1 {
        assert w[k] == b[k - 3];
        if k > 3 {
          assert b[k - 3] == lines[k - 3];
        } else if lines != [] {
          assert b[0] == "      |" + lines[0];
          assert forall j :: 0 <= j < |lines[0]| ==> b[0][7 + j] == lines[0][j];
        }
      } else if k == 1 {
        assert forall j :: 0 <= j < |identifier| ==> w[1][7 + j] == identifier[j];
      }
    }
  }

  /** The margin `      |` is cut away whatever follows it. */
  lemma MarginOfIndented(x: string)
    ensures MarginCut("      |" + x) == x
  {
    assert IsBlank("      ");
    MarginCutOfIndented("      ", x);
    assert "      " + "|" + x == "      |" + x;
  }

  /** The cut lines: the identifier, `---`, then the lines (one empty line when there are none). */
  function Cut(identifier: string, lines: seq<string>): seq<string> {
    [identifier, "---"] + (if lines == [] then [""] else lines)
  }

  lemma CutAt(identifier: string, lines: seq<string>, j: nat)
    requires forall i :: 1 <= i < |lines| ==> MarginFree(lines[i])
    requires j < |Cut(identifier, lines)|
    ensures |TemplateLines(identifier, lines)| == |Cut(identifier, lines)| + 2
    ensures MarginCut(TemplateLines(identifier, lines)[1 + j]) == Cut(identifier, lines)[j]
  {
    var w := TemplateLines(identifier, lines);
    var c := Cut(identifier, lines);
    var b := BodyLines(lines);
    var first := if lines == [] then "" else lines[0];
    assert b[0] == "      |" + first;
    var x := if j == 0 then identifier else if j == 1 then "---" else first;
    if j <= 2 {
      assert w[1 + j] == "      |" + x;
      assert c[j] == x;
      MarginOfIndented(x);
    } else {
      assert w[1 + j] == b[j - 2] == lines[j - 2];
      assert c[j] == lines[j - 2];
      assert MarginFree(lines[j - 2]);
    }
  }

  lemma CutLines(identifier: string, lines: seq<string>)
    requires forall i :: 1 <= i < |lines| ==> MarginFree(lines[i])
    ensures InnerCuts(TemplateLines(identifier, lines)) == Cut(identifier, lines)
  {
    var w := TemplateLines(identifier, lines);
    var c := Cut(identifier, lines);
    CutAt(identifier, lines, 0);
    var s := InnerCuts(w);
    forall j | 0 <= j < |c|
      ensures s[j] == c[j]
    {
      CutAt(identifier, lines, j);
    }
  }

  /**
   * With the identifier and the lines on one line each, and no line after the first
   * carrying a margin, the text is the identifier, `---` and the lines joined by
   * line feeds; with no lines it ends in a line feed.
   */
  lemma RenderIsJoin(identifier: string, lines: seq<string>)
    requires NoLineBreak(identifier)
    requires forall i :: 0 <= i < |lines| ==> NoLineBreak(lines[i])
    requires forall i :: 1 <= i < |lines| ==> MarginFree(lines[i])
    ensures Render(identifier, lines) == Join(Cut(identifier, lines), "\n")
  {
    var w := TemplateLines(identifier, lines);
    TemplateIsJoin(identifier, lines);
    TemplateLinesPlain(identifier, lines);
    LinesOfJoin(w);
    assert IsBlank(w[0]);
    assert IsBlank(w[|w| - 1]);
    TrimMarginFramed(Template(identifier, Join(lines, "\n")));
    CutLines(identifier, lines);
  }

  /** With no artifacts the text is the identifier, `---` and a final line feed. */
  lemma RenderEmpty(identifier: string)
    requires NoLineBreak(identifier)
    ensures Render(identifier, []) == identifier + "\n---\n"
  {
    RenderIsJoin(identifier, []);
    var c := Cut(identifier, []);
    assert c == [identifier, "---", ""];
    assert c[1..] == ["---", ""];
    assert c[1..][1..] == [""];
    assert Join(c[1..], "\n") == "---" + "\n" + "";
  }

  /**
   * With at least one line, the older text is the text the current renderer gives
   * for the same lines and no metadata files; with none, it keeps a final line feed
   * that the current renderer trims away.
   */
  lemma RenderMatchesCurrent(identifier: string, lines: seq<string>)
    requires CreateChecksum.PlainIdentifier(identifier)
    requires CreateChecksum.SolidLines(lines)
    requires forall i :: 1 <= i < |lines| ==> MarginFree(lines[i])
    ensures lines != [] ==> Render(identifier, lines) == CreateChecksum.Render(identifier, [], lines)
    ensures lines == [] ==> Render(identifier, lines) == CreateChecksum.Render(identifier, [], lines) + "\n"
  {
    assert forall i :: 0 <= i < |lines| ==> NoLineBreak(lines[i]);
    RenderIsJoin(identifier, lines);
    CreateChecksum.RenderIsJoin(identifier, [], lines);
    assert [identifier, "---"] + [] + lines == [identifier, "---"] + lines;
    if lines == [] {
      RenderEmpty(identifier);
      CreateChecksum.RenderEmpty(identifier);
    }
  }

  // ---------------------------------------------------------------- order independence

  /** The order of the artifact collection does not matter. */
  lemma CreatePermutation(projectDir: Path, xs: seq<Path>, ys: seq<Path>, identifier: string, checksum: Path -> string)
    requires multiset(xs) == multiset(ys)
    ensures Create(projectDir, xs, identifier, checksum) == Create(projectDir, ys, identifier, checksum)
  {
    var f := LineOf(RelativePathText(projectDir), checksum);
    MapPermutation(f, xs, ys);
    SortStringsPermutationInvariant(Map(f, xs), Map(f, ys));
  }

  /** The order of the publication's artifacts does not matter. */
  lemma ContentPermutation(d: PublicationData, xs: seq<Path>, checksum: Path -> string)
    requires multiset(xs) == multiset(d.artifacts)
    ensures CreateChecksumContent(d.(artifacts := xs), checksum) == CreateChecksumContent(d, checksum)
  {
    var f := LineOf(OwnPathText(), checksum);
    MapPermutation(f, xs, d.artifacts);
    SortStringsPermutationInvariant(Map(f, xs), Map(f, d.artifacts));
  }
}
