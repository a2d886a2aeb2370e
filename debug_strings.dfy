/**
 * `checksumsToDebugString`: the current and the stored fingerprint side by side,
 * one table per file, where each row pairs the n-th checksum of both sides and
 * marks whether they agree. The whole text sits between two `--------` rules.
 */
module DebugStrings {
  import opened Wrappers
  import opened Text
  import opened StdlibUtils
  import opened Grouping
  import opened StringTable
  import CreateChecksum

  /** The `--------` rule that opens and closes the debug string. */
  const Rule := Repeat('-', 8)
  /** The eight spaces that indent the raw string's lines in the source. */
  const Indent := Spaces(8)
  const Margin := Indent + "|"
  const RuleLine := Margin + Rule
  const NoChecksums := "(no checksums)"
  const MissingValue := "<missing>"
  const Header: seq<string> := ["current", "stored", "match"]

  function Max(a: nat, b: nat): nat {
    if a < b then b else a
  }

  /** `filter { sep in it }.map { it.splitToPair(sep) }`. */
  function ParseLines(ls: seq<string>, sep: string): (ps: seq<Pair>)
    ensures |ps| <= |ls|
  {
    if |ls| == 0 then [] else
      var l := ls[|ls| - 1];
      ParseLines(ls[..|ls| - 1], sep) + (if Contains(l, sep) then [SplitToPair(l, sep)] else [])
  }

  /** `fileChecksumsMap()`: an absent text is read as the empty text. */
  function FileChecksumsMap(text: Option<string>, sep: string): Groups {
    GroupBy(ParseLines(Lines(text.GetOr("")), sep))
  }

  /** `currentFileChecksums.keys + storedFileChecksums.keys`. */
  function Files(current: Groups, stored: Groups): seq<string> {
    Union(Keys(current), Keys(stored))
  }

  /** `getOrElse(i) { "<missing>" }.trim()`, with the trim moved inside: `<missing>` is trimmed already (`MissingIsTrimmed`). */
  function GetChecksum(list: seq<string>, i: nat): string {
    if i < |list| then Trim(list[i]) else MissingValue
  }

  lemma MissingIsTrimmed(list: seq<string>, i: nat)
    ensures GetChecksum(list, i) == Trim(if i < |list| then list[i] else MissingValue)
  {
    assert IsTrimmed(MissingValue);
    TrimmedIsFixpoint(MissingValue);
  }

  function Mark(current: string, stored: string): string {
    if current == stored then "✅" else "❌"
  }

  /** One row of the table: the i-th checksum of each side and whether they agree. */
  function Row(current: seq<string>, stored: seq<string>, i: nat): (r: seq<string>)
    ensures |r| == 3 && r[0] == GetChecksum(current, i) && r[1] == GetChecksum(stored, i)
  {
    var c, s := GetChecksum(current, i), GetChecksum(stored, i);
    [c, s, Mark(c, s)]
  }

  /** The third cell is the tick exactly when the two checksums agree. */
  lemma RowMark(current: seq<string>, stored: seq<string>, i: nat)
    ensures Row(current, stored, i)[2] == "✅" <==> GetChecksum(current, i) == GetChecksum(stored, i)
  {
  }

  /** The rows given to `buildTable`: the header, then one row per index of the longer list. */
  function TableRows(current: seq<string>, stored: seq<string>): (rows: Rows)
    ensures |rows| == 1 + Max(|current|, |stored|)
    ensures rows[0] == Header
  {
    [Header] + seq(Max(|current|, |stored|), i requires 0 <= i => Row(current, stored, i))
  }

  /** After the header, row i + 1 compares the i-th checksums. */
  lemma TableRowAt(current: seq<string>, stored: seq<string>, i: nat)
    requires i < Max(|current|, |stored|)
    ensures TableRows(current, stored)[i + 1] == Row(current, stored, i)
  {
  }

  /** The rows up to and including index i + 1 extend those up to i by row i. */
  lemma TableRowsSnoc(current: seq<string>, stored: seq<string>, i: nat)
    requires i < Max(|current|, |stored|)
    ensures TableRows(current, stored)[..i + 2] == TableRows(current, stored)[..i + 1] + [Row(current, stored, i)]
  {
    TableRowAt(current, stored, i);
    PrefixSnoc(TableRows(current, stored), i + 1);
  }

  /** The header alone opens the rows, and the last row closes them. */
  lemma TableRowsEnds(current: seq<string>, stored: seq<string>)
    ensures TableRows(current, stored)[..1] == [Header]
    ensures TableRows(current, stored)[..Max(|current|, |stored|) + 1] == TableRows(current, stored)
  {
  }

  /** Equal rows render alike. */
  lemma RenderedOfEqual(a: Rows, b: Rows)
    requires a == b
    ensures Rendered(a) == Rendered(b)
  {
  }

  /** `buildTable { row(header); repeat(n) { row(current, stored, matches) } }`. */
  method SectionTable(current: seq<string>, stored: seq<string>) returns (t: string)
    ensures t == Rendered(TableRows(current, stored))
  {
    var b := new StringTableBuilder();
    b.Row(Header);
    var n := Max(|current|, |stored|);
    TableRowsEnds(current, stored);
    var i := 0;
    while i < n
      invariant 0 <= i <= n
      invariant b.rows == TableRows(current, stored)[..i + 1]
    {
      TableRowsSnoc(current, stored, i);
      b.Row(Row(current, stored, i));
      i := i + 1;
    }
    assert b.rows == TableRows(current, stored);
    t := b.Render();
    RenderedOfEqual(b.rows, TableRows(current, stored));
  }

  /** One file's block: its name, then its table indented by two spaces. */
  function Section(file: string, current: seq<string>, stored: seq<string>): string {
    file + "\n" + PrependIndent(Rendered(TableRows(current, stored)), "  ")
  }

  /** One section per file, in the order of `files`, each with that file's current and stored lines. */
  function Sections(files: seq<string>, current: Groups, stored: Groups): (ss: seq<string>)
    ensures |ss| == |files|
    ensures forall i :: 0 <= i < |files| ==> ss[i] == Section(files[i], Lookup(current, files[i]), Lookup(stored, files[i]))
  {
    seq(|files|, i requires 0 <= i < |files| => Section(files[i], Lookup(current, files[i]), Lookup(stored, files[i])))
  }

  /** The blocks joined by line feeds, or "(no checksums)" when that is blank. */
  function Checksums(current: Groups, stored: Groups): string {
    var j := Join(Sections(Files(current, stored), current, stored), "\n");
    if IsBlank(j) then NoChecksums else j
  }

  /**
   * The `--------` frame: the raw string `"\n        |--------\n        |<body>\n        |--------\n        "`,
   * with the body indented by two spaces, cut with `trimMargin()`.
   */
  function Framed(body: string): string {
    TrimMargin(MarginTemplate(RuleLine, Margin + PrependIndent(body, "  "), Indent))
  }

  /** A raw string of an empty line, then `a`, the lines of `m`, `a` again and a last line `z`. */
  function MarginTemplate(a: string, m: string, z: string): string {
    "" + "\n" + (a + "\n" + (m + "\n" + (a + "\n" + z)))
  }

  function ChecksumsToDebugString(current: Option<string>, stored: Option<string>): string {
    var sep := CreateChecksum.FileChecksumSeparator;
    Framed(Checksums(FileChecksumsMap(current, sep), FileChecksumsMap(stored, sep)))
  }

  // ---------------------------------------------------------------- parsing

  lemma {:induction false} ParseLinesAppend(a: seq<string>, b: seq<string>, sep: string)
    ensures ParseLines(a + b, sep) == ParseLines(a, sep) + ParseLines(b, sep)
  {
    if |b| > 0 {
      var n := |b| - 1;
      assert (a + b)[..|a + b| - 1] == a + b[..n];
      assert (a + b)[|a + b| - 1] == b[n];
      ParseLinesAppend(a, b[..n], sep);
    } else {
      assert a + b == a;
    }
  }

  /** An absent text and the empty text list no files. */
  lemma ParseNothing(sep: string)
    requires sep != ""
    ensures FileChecksumsMap(None, sep) == []
    ensures FileChecksumsMap(Some(""), sep) == []
  {
    LinesOfPlain("");
    assert !Contains("", sep);
  }

  /** The fingerprint line for a path and a checksum. */
  function EntryLines(es: seq<Pair>): (ls: seq<string>)
    ensures |ls| == |es|
  {
    seq(|es|, i requires 0 <= i < |es| => CreateChecksum.EntryLine(es[i].0, es[i].1))
  }

  predicate PlainKeys(es: seq<Pair>) {
    forall i :: 0 <= i < |es| ==> NoChar(es[i].0, ':')
  }

  /** Parsing entry lines whose paths hold no ':' gives back the paths and checksums. */
  lemma {:induction false} ParseEntryLines(es: seq<Pair>)
    requires PlainKeys(es)
    ensures ParseLines(EntryLines(es), ":") == es
  {
    if |es| > 0 {
      var n := |es| - 1;
      assert EntryLines(es)[..n] == EntryLines(es[..n]);
      ParseEntryLines(es[..n]);
      var l := CreateChecksum.EntryLine(es[n].0, es[n].1);
      assert l == es[n].0 + [':'] + es[n].1;
      SplitToPairOfGlued(es[n].0, ':', es[n].1);
      ContainsChar(l, ':');
      assert l[|es[n].0|] == ':';
      assert es == es[..n] + [es[n]];
    }
  }

  /** `"---"` holds no separator, so the header's second line is skipped. */
  lemma ParseRule()
    ensures ParseLines(["---"], ":") == []
  {
    ContainsChar("---", ':');
    assert ["---"][..0] == [];
  }

  /** A single line is parsed exactly when it holds the one-character separator, and then split at it. */
  lemma ParseLine(l: string, c: char)
    ensures ParseLines([l], [c]) == if NoChar(l, c) then [] else [SplitToPair(l, [c])]
  {
    ContainsChar(l, c);
    assert [l][..0] == [];
  }

  /** Of the lines of a fingerprint without a metadata block, all but `---` are parsed. */
  lemma ParseOfRender(id: string, ls: seq<string>)
    requires CreateChecksum.PlainIdentifier(id)
    requires CreateChecksum.SolidLines(ls)
    ensures ParseLines(Lines(CreateChecksum.Render(id, [], ls)), ":") == ParseLines([id], ":") + ParseLines(ls, ":")
  {
    CreateChecksum.RenderLines(id, [], ls);
    assert [id, "---"] + [] + ls == [id] + ["---"] + ls;
    ParseLinesAppend([id] + ["---"], ls, ":");
    ParseLinesAppend([id], ["---"], ":");
    ParseRule();
  }

  /**
   * The map read from a fingerprint with no metadata block: the entries grouped by
   * path, after the identifier line, which is itself split into a pair when it holds
   * a ':' (as a `group:artifact:version` identifier does).
   */
  lemma DebugMapOfFingerprint(id: string, es: seq<Pair>)
    requires CreateChecksum.PlainIdentifier(id)
    requires CreateChecksum.SolidLines(EntryLines(es))
    requires PlainKeys(es)
    ensures NoChar(id, ':') ==> FileChecksumsMap(Some(CreateChecksum.Render(id, [], EntryLines(es))), ":") == GroupBy(es)
    ensures !NoChar(id, ':') ==> FileChecksumsMap(Some(CreateChecksum.Render(id, [], EntryLines(es))), ":") == GroupBy([SplitToPair(id, ":")] + es)
  {
    ParseOfRender(id, EntryLines(es));
    ParseEntryLines(es);
    ParseLine(id, ':');
    assert [] + es == es;
  }

  // ---------------------------------------------------------------- files and rows

  /** The files: the current ones in their order, then the stored-only ones, each once. */
  lemma FilesOf(current: Option<string>, stored: Option<string>, sep: string)
    ensures var c, s := FileChecksumsMap(current, sep), FileChecksumsMap(stored, sep);
      var fs := Files(c, s);
      Distinct(fs) && |Keys(c)| <= |fs| && fs[..|Keys(c)|] == Keys(c)
      && forall k :: k in fs <==> k in Keys(c) || k in Keys(s)
  {
    var c, s := FileChecksumsMap(current, sep), FileChecksumsMap(stored, sep);
    GroupByKeys(ParseLines(Lines(current.GetOr("")), sep));
    UnionKeys(Keys(c), Keys(s));
  }

  // ---------------------------------------------------------------- the body

  lemma JoinNotBlank(ls: seq<string>, sep: string)
    requires |ls| >= 1 && !IsBlank(ls[0])
    ensures !IsBlank(Join(ls, sep))
  {
    JoinHead(ls, sep);
    var i :| 0 <= i < |ls[0]| && !IsWhitespace(ls[0][i]);
    assert Join(ls, sep)[i] == ls[0][i];
  }

  /** Every table starts with the `current` header cell. */
  lemma TableStart(current: seq<string>, stored: seq<string>)
    ensures var t := Rendered(TableRows(current, stored)); |t| > 0 && t[0] == 'c'
  {
    var rows := TableRows(current, stored);
    var w := MaxColWidths(rows);
    RowsFit(rows, 0);
    CellAt(rows[0], w, 0);
    RowTextsAt(rows, w, 0);
    var cell := Cell("current", w[0]);
    assert cell[0] == 'c';
    assert RowText(rows[0], w)[0] == 'c';
  }

  lemma SectionNotBlank(file: string, current: seq<string>, stored: seq<string>)
    ensures !IsBlank(Section(file, current, stored))
  {
    var t := Rendered(TableRows(current, stored));
    TableStart(current, stored);
    IndentedStart(t, "  ");
    var x := PrependIndent(t, "  ");
    assert Section(file, current, stored) == file + "\n" + x;
    assert (file + "\n" + x)[|file| + 3] == x[2] == 'c';
  }

  /** "(no checksums)" stands in exactly when there are no files. */
  lemma ChecksumsBody(current: Groups, stored: Groups)
    ensures Files(current, stored) == [] ==> Checksums(current, stored) == NoChecksums
    ensures Files(current, stored) != [] ==>
      Checksums(current, stored) == Join(Sections(Files(current, stored), current, stored), "\n")
  {
    var fs := Files(current, stored);
    if fs != [] {
      var ss := Sections(fs, current, stored);
      SectionNotBlank(fs[0], Lookup(current, fs[0]), Lookup(stored, fs[0]));
      JoinNotBlank(ss, "\n");
    }
  }

  /** A file's block holds its name on the first line. */
  lemma SectionStartsWithFile(file: string, current: seq<string>, stored: seq<string>)
    requires NoLineBreak(file)
    ensures Lines(Section(file, current, stored))[0] == file
  {
    var x := PrependIndent(Rendered(TableRows(current, stored)), "  ");
    LinesOfConcatPlain(file, x);
  }

  // ---------------------------------------------------------------- the frame

  /** The lines of a five-line margin template whose middle line may hold several. */
  lemma TemplateLines(a: string, p: string, x: string, z: string)
    requires NoLineBreak(a) && NoLineBreak(z)
    requires p != [] && p[|p| - 1] != '\r' && NoChar(x, '\r')
    ensures Lines(MarginTemplate(a, p + x, z)) == ["", a] + Lines(p + x) + [a, z]
  {
    var m := p + x;
    assert m[|m| - 1] != '\r' by {
      if x != [] {
        assert m[|m| - 1] == x[|x| - 1];
      }
    }
    TemplateTail(m, a, z);
    TemplateHead(a, m + "\n" + (a + "\n" + z));
    var lm := Lines(m);
    SeqAssoc([""], [a], lm + [a, z]);
    SeqAssoc([""] + [a], lm, [a, z]);
    assert [""] + [a] == ["", a];
  }

  lemma TemplateHead(a: string, t: string)
    requires NoLineBreak(a)
    ensures Lines("" + "\n" + (a + "\n" + t)) == [""] + ([a] + Lines(t))
  {
    LinesOfConcatPlain(a, t);
    LinesOfConcatPlain("", a + "\n" + t);
  }

  lemma TemplateTail(m: string, a: string, z: string)
    requires NoLineBreak(a) && NoLineBreak(z)
    requires m != [] && m[|m| - 1] != '\r'
    ensures Lines(m + "\n" + (a + "\n" + z)) == Lines(m) + [a, z]
  {
    LinesOfConcatPlain(a, z);
    LinesOfPlain(z);
    LinesOfConcat(m, a + "\n" + z);
  }

  /** The template's lines open and close with a blank line, just inside of which stands `a`. */
  lemma TemplateLineEnds(a: string, p: string, x: string, z: string)
    requires NoLineBreak(a) && NoLineBreak(z) && IsBlank(z)
    requires p != [] && p[|p| - 1] != '\r' && NoChar(x, '\r')
    ensures var ls := Lines(MarginTemplate(a, p + x, z));
      |ls| >= 4 && IsBlank(ls[0]) && IsBlank(ls[|ls| - 1]) && ls[1] == a && ls[|ls| - 2] == a
  {
    TemplateLines(a, p, x, z);
    var ls := ["", a] + Lines(p + x) + [a, z];
    assert ls[0] == "" && ls[|ls| - 1] == z && ls[1] == a && ls[|ls| - 2] == a;
  }

  /** Cutting the margins of such a template leaves the rule `c` as the first and the last line. */
  lemma TemplateShape(a: string, p: string, x: string, z: string, c: string)
    requires NoLineBreak(a) && NoLineBreak(z) && IsBlank(z) && MarginCut(a) == c
    requires p != [] && p[|p| - 1] != '\r' && NoChar(x, '\r')
    ensures var r := TrimMargin(MarginTemplate(a, p + x, z));
      StartsWith(r, c + "\n") && EndsWith(r, "\n" + c)
  {
    var s := MarginTemplate(a, p + x, z);
    TemplateLineEnds(a, p, x, z);
    TrimMarginFramed(s);
    InnerCutsEnds(Lines(s));
    JoinEnds(InnerCuts(Lines(s)), c);
  }

  /** Lines that start and end with `c`, joined by line feeds. */
  lemma JoinEnds(cut: seq<string>, c: string)
    requires |cut| >= 2 && cut[0] == c && cut[|cut| - 1] == c
    ensures var r := Join(cut, "\n"); StartsWith(r, c + "\n") && EndsWith(r, "\n" + c)
  {
    JoinStartsWith(cut, c);
    JoinEndsWith(cut, c);
  }

  lemma JoinStartsWith(cut: seq<string>, c: string)
    requires |cut| >= 2 && cut[0] == c
    ensures StartsWith(Join(cut, "\n"), c + "\n")
  {
    var r := Join(cut, "\n");
    var t := Join(cut[1..], "\n");
    assert r == c + "\n" + t;
    assert (c + "\n" + t)[..|c + "\n"|] == c + "\n";
  }

  lemma JoinEndsWith(cut: seq<string>, c: string)
    requires |cut| >= 2 && cut[|cut| - 1] == c
    ensures EndsWith(Join(cut, "\n"), "\n" + c)
  {
    var n := |cut|;
    var h := Join(cut[..n - 1], "\n");
    JoinSnoc(cut[..n - 1], c, "\n");
    assert cut[..n - 1] + [c] == cut;
    ConcatAssoc(h, "\n", c);
    var r := h + ("\n" + c);
    assert r[|r| - |"\n" + c|..] == "\n" + c;
  }

  /** The rule line of the template loses its margin and keeps the rule. */
  lemma RuleLineCut()
    ensures NoLineBreak(RuleLine) && MarginCut(RuleLine) == Rule
  {
    MarginCutOfIndented(Indent, Rule);
    assert NoLineBreak("|");
    NoLineBreakConcat(Indent, "|");
    NoLineBreakConcat(Margin, Rule);
  }

  /** The line that closes the template is blank. */
  lemma IndentBlank()
    ensures IsBlank(Indent) && NoLineBreak(Indent)
  {
  }

  lemma MarginEnd()
    ensures Margin != [] && Margin[|Margin| - 1] != '\r'
  {
  }

  /** The text opens with a `--------` line and closes with one. */
  lemma FramedShape(body: string)
    ensures StartsWith(Framed(body), Rule + "\n") && EndsWith(Framed(body), "\n" + Rule)
  {
    IndentedNoCarriageReturn(body, "  ");
    RuleLineCut();
    IndentBlank();
    MarginEnd();
    TemplateShape(RuleLine, Margin, PrependIndent(body, "  "), Indent, Rule);
  }

  /** The debug string is framed whatever the fingerprints hold. */
  lemma DebugStringFramed(current: Option<string>, stored: Option<string>)
    ensures var r := ChecksumsToDebugString(current, stored);
      StartsWith(r, Rule + "\n") && EndsWith(r, "\n" + Rule)
  {
    var sep := CreateChecksum.FileChecksumSeparator;
    FramedShape(Checksums(FileChecksumsMap(current, sep), FileChecksumsMap(stored, sep)));
  }
}
