/**
 * The older `checksumsToDebugString` in the `utils` package: fingerprint lines are
 * split at '=', and each file's checksums are listed as rows of two values
 * left-padded to 40 characters and a tick or a cross, under a
 * `current vs stored` title.
 */
module LegacyDebugStrings {
  import opened Wrappers
  import opened Text
  import opened Grouping
  import StdlibUtils
  import DebugStrings

  const Separator: string := "="
  const Width: nat := 40
  const Title := "current vs stored\n"
  /** The two spaces before a row and the three between its cells. */
  const Lead := Spaces(2)
  const Gap := Spaces(3)

  /** `fileChecksumsMap()` with the '=' separator. */
  function FileChecksumsMap(text: Option<string>): Groups {
    DebugStrings.FileChecksumsMap(text, Separator)
  }

  /** A trimmed checksum, or `<missing>`, never starts with a space. */
  lemma UnpaddedStart(list: seq<string>, i: nat)
    ensures var c := DebugStrings.GetChecksum(list, i); c == [] || c[0] != ' '
  {
    if i >= |list| {
      assert DebugStrings.MissingValue[0] == '<';
    }
  }

  /**
   * `getOrElse(i) { "<missing>" }.trim().padStart(40, ' ')`: at least 40 characters,
   * and dropping the padding gives back the trimmed value.
   */
  function GetChecksum(list: seq<string>, i: nat): (r: string)
    ensures |r| >= Width
    ensures DropLeadingSpaces(r) == DebugStrings.GetChecksum(list, i)
  {
    var c := DebugStrings.GetChecksum(list, i);
    UnpaddedStart(list, i);
    PadStartRoundTrip(c, Width);
    PadStart(c, Width)
  }

  /** `"  $current   $stored   $matches"`. */
  function Row(current: seq<string>, stored: seq<string>, i: nat): string {
    var c, s := GetChecksum(current, i), GetChecksum(stored, i);
    Lead + c + Gap + s + Gap + DebugStrings.Mark(c, s)
  }

  /** One row per index below the longer list's length. */
  function Rows(current: seq<string>, stored: seq<string>): (rs: seq<string>)
    ensures |rs| == DebugStrings.Max(|current|, |stored|)
  {
    var n := DebugStrings.Max(|current|, |stored|);
    seq(n, i requires 0 <= i < n => Row(current, stored, i))
  }

  /** `"$file\n$joinedChecksums"`. */
  function Block(file: string, current: seq<string>, stored: seq<string>): string {
    file + "\n" + Join(Rows(current, stored), "\n")
  }

  function Blocks(files: seq<string>, current: Groups, stored: Groups): (bs: seq<string>)
    ensures |bs| == |files|
  {
    seq(|files|, i requires 0 <= i < |files| => Block(files[i], Lookup(current, files[i]), Lookup(stored, files[i])))
  }

  function ChecksumsToDebugString(current: Option<string>, stored: Option<string>): string {
    var c, s := FileChecksumsMap(current), FileChecksumsMap(stored);
    Title + Join(Blocks(DebugStrings.Files(c, s), c, s), "\n")
  }

  // ---------------------------------------------------------------- properties

  /** A line is read exactly when it holds '=', and is then split at the first '='. */
  lemma ParseEqualsLine(l: string)
    ensures DebugStrings.ParseLines([l], Separator) == if NoChar(l, '=') then [] else [StdlibUtils.SplitToPair(l, "=")]
  {
    DebugStrings.ParseLine(l, '=');
  }

  /** The padded values are equal exactly when the trimmed ones are. */
  lemma PaddedEqual(current: seq<string>, stored: seq<string>, i: nat)
    ensures GetChecksum(current, i) == GetChecksum(stored, i)
      <==> DebugStrings.GetChecksum(current, i) == DebugStrings.GetChecksum(stored, i)
  {
    UnpaddedStart(current, i);
    UnpaddedStart(stored, i);
    PadStartInjective(DebugStrings.GetChecksum(current, i), DebugStrings.GetChecksum(stored, i), Width);
  }

  /** Row i ends in a tick exactly when the trimmed checksums agree, and in a cross otherwise. */
  lemma RowMark(current: seq<string>, stored: seq<string>, i: nat)
    ensures var r := Row(current, stored, i);
      var same := DebugStrings.GetChecksum(current, i) == DebugStrings.GetChecksum(stored, i);
      |r| >= 1 && (r[|r| - 1] == '✅' <==> same) && (r[|r| - 1] == '❌' <==> !same)
  {
    PaddedEqual(current, stored, i);
    var c, s := GetChecksum(current, i), GetChecksum(stored, i);
    var h := Lead + c + Gap + s + Gap;
    var m := DebugStrings.Mark(c, s);
    assert Row(current, stored, i) == h + m;
    assert (h + m)[|h + m| - 1] == m[0];
  }

  /** The text opens with the `current vs stored` line. */
  lemma DebugStringStart(current: Option<string>, stored: Option<string>)
    ensures var r := ChecksumsToDebugString(current, stored);
      |r| >= |Title| && r[..|Title|] == Title
  {
    var c, s := FileChecksumsMap(current), FileChecksumsMap(stored);
    var t := Join(Blocks(DebugStrings.Files(c, s), c, s), "\n");
    assert (Title + t)[..|Title|] == Title;
  }

  // ---------------------------------------------------------------- the lines of a block

  predicate PlainValues(list: seq<string>) {
    forall k :: 0 <= k < |list| ==> NoLineBreak(list[k])
  }

  lemma ValueNoLineBreak(list: seq<string>, i: nat)
    requires PlainValues(list)
    ensures NoLineBreak(GetChecksum(list, i))
  {
    if i < |list| {
      TrimNoLineBreak(list[i]);
    } else {
      assert DebugStrings.GetChecksum(list, i) == DebugStrings.MissingValue;
    }
    PadStartNoLineBreak(DebugStrings.GetChecksum(list, i), Width);
  }

  lemma PiecesNoLineBreak(l: string, c: string, g: string, s: string, m: string)
    requires NoLineBreak(l) && NoLineBreak(c) && NoLineBreak(g) && NoLineBreak(s) && NoLineBreak(m)
    ensures NoLineBreak(l + c + g + s + g + m)
  {
    NoLineBreakConcat(l, c);
    NoLineBreakConcat(l + c, g);
    NoLineBreakConcat(l + c + g, s);
    NoLineBreakConcat(l + c + g + s, g);
    NoLineBreakConcat(l + c + g + s + g, m);
  }

  lemma MarkNoLineBreak(c: string, s: string)
    ensures NoLineBreak(DebugStrings.Mark(c, s))
  {
  }

  lemma SpacesNoLineBreak(n: nat)
    ensures NoLineBreak(Spaces(n))
  {
  }

  lemma RowNoLineBreak(current: seq<string>, stored: seq<string>, i: nat)
    requires PlainValues(current) && PlainValues(stored)
    ensures NoLineBreak(Row(current, stored, i))
  {
    var c, s := GetChecksum(current, i), GetChecksum(stored, i);
    ValueNoLineBreak(current, i);
    ValueNoLineBreak(stored, i);
    MarkNoLineBreak(c, s);
    SpacesNoLineBreak(2);
    SpacesNoLineBreak(3);
    PiecesNoLineBreak(Lead, c, Gap, s, DebugStrings.Mark(c, s));
  }

  /**
   * A file's block is its name on a line of its own, then one line per row: one more
   * line than the longer list has checksums.
   */
  lemma BlockLines(file: string, current: seq<string>, stored: seq<string>)
    requires NoLineBreak(file) && PlainValues(current) && PlainValues(stored)
    requires current != [] || stored != []
    ensures Lines(Block(file, current, stored)) == [file] + Rows(current, stored)
    ensures |Lines(Block(file, current, stored))| == 1 + DebugStrings.Max(|current|, |stored|)
  {
    var rs := Rows(current, stored);
    forall k | 0 <= k < |rs|
      ensures NoLineBreak(rs[k])
    {
      RowNoLineBreak(current, stored, k);
    }
    LinesOfJoin(rs);
    LinesOfConcatPlain(file, Join(rs, "\n"));
  }
}
