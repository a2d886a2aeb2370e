/**
 * `StringTableBuilder`: rows of cells collected one `row(...)` call at a time and
 * rendered as left-aligned columns. Every cell is padded to its column's width
 * and followed by one space; every row ends with a line feed.
 */
module StringTable {
  import opened Text

  type Rows = seq<seq<string>>

  /** The size of the longest row (`maxOfOrNull { it.size } ?: 0`). */
  function Columns(rows: Rows): (n: nat)
    ensures forall r :: 0 <= r < |rows| ==> |rows[r]| <= n
    ensures n == 0 || exists r :: 0 <= r < |rows| && |rows[r]| == n
  {
    if |rows| == 0 then 0 else
      var m := Columns(rows[..|rows| - 1]);
      var last := |rows[|rows| - 1]|;
      assert forall r :: 0 <= r < |rows| - 1 ==> rows[..|rows| - 1][r] == rows[r];
      if last > m then last else m
  }

  /** The length of a row's cell in column `c`, and 0 where the row is shorter. */
  function CellWidth(row: seq<string>, c: nat): nat {
    if c < |row| then |row[c]| else 0
  }

  /** The width of column `c`: its widest cell, or 0 in a table with no rows. */
  function ColumnWidth(rows: Rows, c: nat): (w: nat)
    ensures forall r :: 0 <= r < |rows| ==> CellWidth(rows[r], c) <= w
    ensures w == 0 || exists r :: 0 <= r < |rows| && CellWidth(rows[r], c) == w
  {
    if |rows| == 0 then 0 else
      var m := ColumnWidth(rows[..|rows| - 1], c);
      var last := CellWidth(rows[|rows| - 1], c);
      assert forall r :: 0 <= r < |rows| - 1 ==> rows[..|rows| - 1][r] == rows[r];
      if last > m then last else m
  }

  /** `maxColWidths()`: one width per column. */
  function MaxColWidths(rows: Rows): (w: seq<nat>)
    ensures |w| == Columns(rows)
    ensures forall c :: 0 <= c < |w| ==> w[c] == ColumnWidth(rows, c)
  {
    seq(Columns(rows), c requires 0 <= c => ColumnWidth(rows, c))
  }

  /** Every cell of a row fits its column. */
  predicate Fits(row: seq<string>, w: seq<nat>) {
    |row| <= |w| && forall c :: 0 <= c < |row| ==> |row[c]| <= w[c]
  }

  lemma RowsFit(rows: Rows, r: nat)
    requires r < |rows|
    ensures Fits(rows[r], MaxColWidths(rows))
  {
    var w := MaxColWidths(rows);
    forall c | 0 <= c < |rows[r]|
      ensures |rows[r][c]| <= w[c]
    {
      assert CellWidth(rows[r], c) == |rows[r][c]|;
    }
  }

  /** One cell: `value.padEnd(width) + " "`. */
  function Cell(value: string, width: nat): string {
    PadEnd(value, width) + " "
  }

  /** The cells of a row, without its line feed. */
  function RowText(row: seq<string>, w: seq<nat>): string
    requires |row| <= |w|
  {
    if |row| == 0 then "" else RowText(row[..|row| - 1], w) + Cell(row[|row| - 1], w[|row| - 1])
  }

  /** The text of each row. */
  function RowTexts(rows: Rows, w: seq<nat>): (ts: seq<string>)
    requires forall r :: 0 <= r < |rows| ==> |rows[r]| <= |w|
    ensures |ts| == |rows|
  {
    if |rows| == 0 then [] else RowTexts(rows[..|rows| - 1], w) + [RowText(rows[|rows| - 1], w)]
  }

  /** What `render()` returns for `rows`. */
  function Rendered(rows: Rows): string {
    var w := MaxColWidths(rows);
    Terminated(RowTexts(rows, w))
  }

  // ---------------------------------------------------------------- the builder

  class StringTableBuilder {
    var rows: Rows

    constructor ()
      ensures rows == []
    {
      rows := [];
    }

    /** `row(...)`: one more row, after the others. */
    method Row(values: seq<string>)
      modifies this
      ensures rows == old(rows) + [values]
    {
      rows := rows + [values];
    }

    /** `render()`: every row's cells, then a line feed. */
    method Render() returns (s: string)
      ensures s == Rendered(rows)
    {
      var w := MaxColWidths(rows);
      s := "";
      var i := 0;
      while i < |rows|
        invariant 0 <= i <= |rows|
        invariant s == Terminated(RowTexts(rows[..i], w))
      {
        var row := rows[i];
        s := AppendRow(s, row, w);
        s := s + "\n";
        RowTextsSnoc(rows, w, i);
        TerminatedSnoc(RowTexts(rows[..i], w), RowText(row, w));
        i := i + 1;
      }
      assert rows[..i] == rows;
    }
  }

  /** One more row adds its text. */
  lemma RowTextsSnoc(rows: Rows, w: seq<nat>, i: nat)
    requires forall r :: 0 <= r < |rows| ==> |rows[r]| <= |w|
    requires i < |rows|
    ensures RowTexts(rows[..i + 1], w) == RowTexts(rows[..i], w) + [RowText(rows[i], w)]
  {
    var next := rows[..i + 1];
    assert next[..i] == rows[..i] && next[i] == rows[i];
  }

  /** The inner loop of `render()`: each cell of the row appended in turn. */
  method AppendRow(s0: string, row: seq<string>, w: seq<nat>) returns (s: string)
    requires |row| <= |w|
    ensures s == s0 + RowText(row, w)
  {
    s := s0;
    var j := 0;
    while j < |row|
      invariant 0 <= j <= |row|
      invariant s == s0 + RowText(row[..j], w)
    {
      var next := row[..j + 1];
      assert next[..j] == row[..j] && next[j] == row[j];
      assert RowText(next, w) == RowText(row[..j], w) + Cell(row[j], w[j]);
      ConcatAssoc(s0, RowText(row[..j], w), Cell(row[j], w[j]));
      s := s + Cell(row[j], w[j]);
      j := j + 1;
    }
    assert row[..j] == row;
  }

  /** `buildTable { ... }`: a new builder, the given rows in order, then `render()`. */
  method BuildTable(rows: Rows) returns (s: string)
    ensures s == Rendered(rows)
  {
    var b := new StringTableBuilder();
    var i := 0;
    while i < |rows|
      invariant 0 <= i <= |rows|
      invariant b.rows == rows[..i]
    {
      b.Row(rows[i]);
      assert rows[..i + 1] == rows[..i] + [rows[i]];
      i := i + 1;
    }
    assert rows[..i] == rows;
    s := b.Render();
  }

  // ---------------------------------------------------------------- properties

  /** A table with no rows renders as the empty string. */
  lemma RenderedEmpty()
    ensures Rendered([]) == ""
  {
  }

  /** Each cell takes exactly its column's width and one more character. */
  lemma CellLength(value: string, width: nat)
    requires |value| <= width
    ensures |Cell(value, width)| == width + 1
  {
  }

  /** The characters the first `n` columns take. */
  function Span(w: seq<nat>, n: nat): nat
    requires n <= |w|
  {
    if n == 0 then 0 else Span(w, n - 1) + w[n - 1] + 1
  }

  /** A row's text takes one cell width per column it has. */
  lemma {:induction false} RowTextLength(row: seq<string>, w: seq<nat>)
    requires Fits(row, w)
    ensures |RowText(row, w)| == Span(w, |row|)
  {
    if |row| > 0 {
      var n := |row| - 1;
      assert Fits(row[..n], w);
      RowTextLength(row[..n], w);
      CellLength(row[n], w[n]);
    }
  }

  /** Cell `c` of a row sits between the spans of the first `c` and `c + 1` columns. */
  lemma {:induction false} CellAt(row: seq<string>, w: seq<nat>, c: nat)
    requires Fits(row, w) && c < |row|
    ensures Span(w, c + 1) <= |RowText(row, w)|
    ensures RowText(row, w)[Span(w, c)..Span(w, c + 1)] == Cell(row[c], w[c])
  {
    var n := |row| - 1;
    var prefix := RowText(row[..n], w);
    var last := Cell(row[n], w[n]);
    assert Fits(row[..n], w);
    assert RowText(row, w) == prefix + last;
    RowTextLength(row[..n], w);
    CellLength(row[n], w[n]);
    if c < n {
      CellAt(row[..n], w, c);
      SpanGrows(w, c + 1, n);
      assert row[..n][c] == row[c];
      SliceOfAppend(prefix, last, Span(w, c), Span(w, c + 1));
    } else {
      SliceOfAppend(prefix, last, |prefix|, |prefix| + |last|);
    }
  }

  lemma SliceOfAppend(a: string, b: string, i: nat, j: nat)
    requires i <= j <= |a + b|
    ensures j <= |a| ==> (a + b)[i..j] == a[i..j]
    ensures i == |a| && j == |a| + |b| ==> (a + b)[i..j] == b
  {
  }

  lemma {:induction false} SpanGrows(w: seq<nat>, a: nat, b: nat)
    requires a <= b <= |w|
    ensures Span(w, a) <= Span(w, b)
    decreases b
  {
    if a < b {
      SpanGrows(w, a, b - 1);
    }
  }

  lemma RowTextsAt(rows: Rows, w: seq<nat>, r: nat)
    requires forall i :: 0 <= i < |rows| ==> |rows[i]| <= |w|
    requires r < |rows|
    ensures RowTexts(rows, w)[r] == RowText(rows[r], w)
    decreases |rows|
  {
    if r < |rows| - 1 {
      var p := rows[..|rows| - 1];
      assert p[r] == rows[r];
      RowTextsAt(p, w, r);
    }
  }

  /** Rows with the same number of cells render to lines of the same length. */
  lemma EqualRowsEqualLines(rows: Rows, r1: nat, r2: nat)
    requires r1 < |rows| && r2 < |rows| && |rows[r1]| == |rows[r2]|
    ensures var ts := RowTexts(rows, MaxColWidths(rows)); |ts[r1]| == |ts[r2]|
  {
    var w := MaxColWidths(rows);
    RowTextsAt(rows, w, r1);
    RowTextsAt(rows, w, r2);
    RowsFit(rows, r1);
    RowsFit(rows, r2);
    RowTextLength(rows[r1], w);
    RowTextLength(rows[r2], w);
  }

  /** No cell holds a line break. */
  predicate PlainRows(rows: Rows) {
    forall r, c :: 0 <= r < |rows| && 0 <= c < |rows[r]| ==> NoLineBreak(rows[r][c])
  }

  lemma CellPlain(value: string, width: nat)
    requires NoLineBreak(value)
    ensures NoLineBreak(Cell(value, width))
  {
    var p := PadEnd(value, width);
    forall i | 0 <= i < |p|
      ensures !IsLineBreak(p[i])
    {
      if i < |value| {
        assert p[i] == p[..|value|][i];
      }
    }
    NoBreakAppend(p, " ");
  }

  lemma {:induction false} RowTextPlain(row: seq<string>, w: seq<nat>)
    requires |row| <= |w|
    requires forall c :: 0 <= c < |row| ==> NoLineBreak(row[c])
    ensures NoLineBreak(RowText(row, w))
  {
    if |row| > 0 {
      var n := |row| - 1;
      RowTextPlain(row[..n], w);
      CellPlain(row[n], w[n]);
      NoBreakAppend(RowText(row[..n], w), Cell(row[n], w[n]));
    }
  }

  /** Lines each followed by a line feed read back as those lines and an empty rest. */
  lemma TerminatedIsJoin(ts: seq<string>)
    requires |ts| > 0
    ensures Terminated(ts) == Join(ts + [""], "\n")
  {
    TerminatedJoin(ts);
    JoinSnoc(ts, "", "\n");
  }

  lemma PlainSnoc(ts: seq<string>)
    requires forall k :: 0 <= k < |ts| ==> NoLineBreak(ts[k])
    ensures forall k :: 0 <= k < |ts + [""]| ==> NoLineBreak((ts + [""])[k])
  {
    var l := ts + [""];
    forall k | 0 <= k < |l|
      ensures NoLineBreak(l[k])
    {
      if k < |ts| {
        assert l[k] == ts[k];
      }
    }
  }

  /** Lines each followed by a line feed read back as those lines and an empty rest. */
  lemma TerminatedLines(ts: seq<string>)
    requires forall k :: 0 <= k < |ts| ==> NoLineBreak(ts[k])
    ensures Lines(Terminated(ts)) == ts + [""]
  {
    if |ts| == 0 {
      assert Lines("") == [""];
    } else {
      TerminatedIsJoin(ts);
      PlainSnoc(ts);
      LinesOfJoin(ts + [""]);
    }
  }

  /**
   * With no line break in any cell, the output is one line per row, in the order the
   * rows were added, and the empty rest after the last line feed.
   */
  lemma RenderedLines(rows: Rows)
    requires PlainRows(rows)
    ensures Lines(Rendered(rows)) == RowTexts(rows, MaxColWidths(rows)) + [""]
  {
    var w := MaxColWidths(rows);
    var ts := RowTexts(rows, w);
    forall r | 0 <= r < |rows|
      ensures NoLineBreak(ts[r])
    {
      RowTextsAt(rows, w, r);
      RowTextPlain(rows[r], w);
    }
    TerminatedLines(ts);
  }
}
