/**
 * The Kotlin standard-library string operations that the plugin's text handling
 * relies on (`trim`, `lines`, `joinToString`, `padEnd`, `padStart`, `prependIndent`,
 * `trimMargin`, `indexOf`, `startsWith`, `removePrefix`, `compareTo`), stated over
 * `string`, which is Dafny's `seq<char>`.
 */
module Text {
  import opened Wrappers

  /** `Char.isWhitespace()` on the JVM: Java's `Character.isWhitespace` or `Character.isSpaceChar`. */
  predicate IsWhitespace(c: char) {
    ('\t' <= c <= '\r') || ('\U{1C}' <= c <= ' ') || c == '\U{A0}' || c == '\U{1680}'
    || ('\U{2000}' <= c <= '\U{200A}') || c == '\U{2028}' || c == '\U{2029}'
    || c == '\U{202F}' || c == '\U{205F}' || c == '\U{3000}'
  }

  /** `isBlank()`: empty, or whitespace only. */
  predicate IsBlank(s: string) {
    forall i :: 0 <= i < |s| ==> IsWhitespace(s[i])
  }

  /** The separators recognised by `lines()`: line feed and carriage return. */
  predicate IsLineBreak(c: char) {
    c == '\n' || c == '\r'
  }

  predicate NoLineBreak(s: string) {
    forall i :: 0 <= i < |s| ==> !IsLineBreak(s[i])
  }

  lemma NoLineBreakConcat(a: string, b: string)
    requires NoLineBreak(a) && NoLineBreak(b)
    ensures NoLineBreak(a + b)
  {
    forall i | 0 <= i < |a + b|
      ensures !IsLineBreak((a + b)[i])
    {
      if i < |a| {
        assert (a + b)[i] == a[i];
      } else {
        assert (a + b)[i] == b[i - |a|];
      }
    }
  }

  /** Trimming keeps a text free of line separators. */
  lemma TrimNoLineBreak(s: string)
    requires NoLineBreak(s)
    ensures NoLineBreak(Trim(s))
  {
    var t := TrimStart(s);
    var r := TrimEnd(t);
    forall i | 0 <= i < |r|
      ensures !IsLineBreak(r[i])
    {
      assert r[i] == t[i] == s[|s| - |t| + i];
    }
  }

  predicate NoChar(s: string, c: char) {
    forall i :: 0 <= i < |s| ==> s[i] != c
  }

  /** `c.toString().repeat(n)`. */
  function Repeat(c: char, n: nat): (r: string)
    ensures |r| == n
    ensures forall i :: 0 <= i < n ==> r[i] == c
  {
    seq(n, _ => c)
  }

  function Spaces(n: nat): (r: string)
    ensures |r| == n && IsBlank(r)
    ensures forall i :: 0 <= i < n ==> r[i] == ' '
  {
    seq(n, _ => ' ')
  }

  // ---------------------------------------------------------------- trimming

  /** `trimStart()`: drops the leading whitespace. */
  function TrimStart(s: string): (r: string)
    ensures |r| <= |s| && r == s[|s| - |r|..]
    ensures forall i :: 0 <= i < |s| - |r| ==> IsWhitespace(s[i])
    ensures r != [] ==> !IsWhitespace(r[0])
  {
    if |s| > 0 && IsWhitespace(s[0]) then TrimStart(s[1..]) else s
  }

  /** `trimEnd()`: drops the trailing whitespace. */
  function TrimEnd(s: string): (r: string)
    ensures |r| <= |s| && r == s[..|r|]
    ensures forall i :: |r| <= i < |s| ==> IsWhitespace(s[i])
    ensures r != [] ==> !IsWhitespace(r[|r| - 1])
  {
    if |s| > 0 && IsWhitespace(s[|s| - 1]) then TrimEnd(s[..|s| - 1]) else s
  }

  /** `trim()`: Kotlin scans the start first, then the end, which is the same as this composition. */
  function Trim(s: string): (r: string)
    ensures r == [] || (!IsWhitespace(r[0]) && !IsWhitespace(r[|r| - 1]))
  {
    TrimEnd(TrimStart(s))
  }

  /** A string that neither starts nor ends with whitespace. */
  predicate IsTrimmed(s: string) {
    s == [] || (!IsWhitespace(s[0]) && !IsWhitespace(s[|s| - 1]))
  }

  lemma TrimmedIsFixpoint(s: string)
    requires IsTrimmed(s)
    ensures Trim(s) == s
  {
    assert TrimStart(s) == s;
  }

  lemma TrimIdempotent(s: string)
    ensures Trim(Trim(s)) == Trim(s)
  {
    TrimmedIsFixpoint(Trim(s));
  }

  /** Trimming `x` followed by one line feed gives back `x` when `x` is already trimmed and non-empty. */
  lemma TrimDropsFinalNewline(x: string)
    requires x != [] && IsTrimmed(x)
    ensures Trim(x + "\n") == x
  {
    var s := x + "\n";
    assert TrimStart(s) == s;
    assert s[..|s| - 1] == x;
    assert TrimEnd(s) == TrimEnd(x);
    assert TrimEnd(x) == x;
  }

  // ---------------------------------------------------------------- lines and joining

  function BreakFrom(s: string, from: nat): (i: nat)
    requires from <= |s|
    ensures from <= i <= |s|
    ensures forall j :: from <= j < i ==> !IsLineBreak(s[j])
    ensures i < |s| ==> IsLineBreak(s[i])
    decreases |s| - from
  {
    if from == |s| || IsLineBreak(s[from]) then from else BreakFrom(s, from + 1)
  }

  /** Index of the first line break, or `|s|` when there is none. */
  function FirstBreak(s: string): (i: nat)
    ensures i <= |s|
    ensures forall j :: 0 <= j < i ==> !IsLineBreak(s[j])
    ensures i < |s| ==> IsLineBreak(s[i])
  {
    BreakFrom(s, 0)
  }

  /** The first break is the only index with the properties `FirstBreak` promises. */
  lemma FirstBreakUnique(s: string, i: nat)
    requires i <= |s|
    requires forall j :: 0 <= j < i ==> !IsLineBreak(s[j])
    requires i < |s| ==> IsLineBreak(s[i])
    ensures FirstBreak(s) == i
  {
  }

  /** Length of the separator found at index `i`: "\r\n" counts as one separator. */
  function BreakLength(s: string, i: nat): nat
    requires i < |s|
  {
    if s[i] == '\r' && i + 1 < |s| && s[i + 1] == '\n' then 2 else 1
  }

  /**
   * `lines()`: splits at "\r\n", "\n" and "\r" (the two-character separator wins
   * when both match); a string with n separators has n + 1 lines.
   */
  function Lines(s: string): (r: seq<string>)
    ensures |r| >= 1
    decreases |s|
  {
    var i := FirstBreak(s);
    if i == |s| then [s]
    else [s[..i]] + Lines(s[i + BreakLength(s, i)..])
  }

  /** No line produced by `Lines` holds a separator. */
  lemma {:induction false} LinesHaveNoBreaks(s: string)
    ensures forall k :: 0 <= k < |Lines(s)| ==> NoLineBreak(Lines(s)[k])
    decreases |s|
  {
    var i := FirstBreak(s);
    if i < |s| {
      LinesUnfold(s);
      LinesHaveNoBreaks(s[i + BreakLength(s, i)..]);
    }
  }

  /** `joinToString(sep)`. */
  function Join(ls: seq<string>, sep: string): string
  {
    if |ls| == 0 then "" else if |ls| == 1 then ls[0] else ls[0] + sep + Join(ls[1..], sep)
  }

  /** Concatenation without a separator (`joinToString("")`). */
  function Concat(ls: seq<string>): string
  {
    if |ls| == 0 then "" else ls[0] + Concat(ls[1..])
  }

  lemma JoinSnoc(ls: seq<string>, x: string, sep: string)
    requires |ls| >= 1
    ensures Join(ls + [x], sep) == Join(ls, sep) + sep + x
  {
    if |ls| == 1 {
      assert ls + [x] == [ls[0], x];
    } else {
      assert (ls + [x])[1..] == ls[1..] + [x];
      JoinSnoc(ls[1..], x, sep);
    }
  }

  lemma ConcatSnoc(ls: seq<string>, x: string)
    ensures Concat(ls + [x]) == Concat(ls) + x
  {
    if |ls| == 0 {
      assert ls + [x] == [x];
    } else {
      assert (ls + [x])[1..] == ls[1..] + [x];
      ConcatSnoc(ls[1..], x);
    }
  }

  lemma ConcatAppend(a: seq<string>, b: seq<string>)
    ensures Concat(a + b) == Concat(a) + Concat(b)
  {
    if |a| == 0 {
      assert a + b == b;
    } else {
      assert (a + b)[1..] == a[1..] + b;
      ConcatAppend(a[1..], b);
    }
  }

  lemma JoinAppend(a: seq<string>, b: seq<string>, sep: string)
    requires |a| >= 1 && |b| >= 1
    ensures Join(a + b, sep) == Join(a, sep) + sep + Join(b, sep)
  {
    if |a| == 1 {
      assert (a + b)[1..] == b;
    } else {
      assert (a + b)[1..] == a[1..] + b;
      JoinAppend(a[1..], b, sep);
    }
  }

  /** The lines, each followed by a line feed, as `appendLine` writes them. */
  function Terminated(ls: seq<string>): string {
    if |ls| == 0 then "" else ls[0] + "\n" + Terminated(ls[1..])
  }

  lemma {:induction false} TerminatedAppend(a: seq<string>, b: seq<string>)
    ensures Terminated(a + b) == Terminated(a) + Terminated(b)
  {
    if |a| == 0 {
      assert a + b == b;
    } else {
      assert (a + b)[1..] == a[1..] + b;
      TerminatedAppend(a[1..], b);
    }
  }

  lemma {:induction false} TerminatedJoin(ls: seq<string>)
    requires |ls| >= 1
    ensures Terminated(ls) == Join(ls, "\n") + "\n"
  {
    if |ls| > 1 {
      TerminatedJoin(ls[1..]);
    }
  }

  /** Appending one more line and its line feed. */
  lemma TerminatedSnoc(ls: seq<string>, x: string)
    ensures Terminated(ls) + x + "\n" == Terminated(ls + [x])
  {
    TerminatedAppend(ls, [x]);
    assert Terminated([x]) == x + "\n";
  }

  /** Two texts without line breaks glued together have none. */
  lemma NoBreakAppend(a: string, b: string)
    requires NoLineBreak(a) && NoLineBreak(b)
    ensures NoLineBreak(a + b)
  {
    forall i | 0 <= i < |a + b|
      ensures !IsLineBreak((a + b)[i])
    {
      if i >= |a| {
        assert (a + b)[i] == b[i - |a|];
      }
    }
  }

  /** The joined text starts with the first element. */
  lemma JoinHead(ls: seq<string>, sep: string)
    requires |ls| >= 1
    ensures |ls[0]| <= |Join(ls, sep)| && Join(ls, sep)[..|ls[0]|] == ls[0]
  {
  }

  /** The joined text ends with the last element. */
  lemma {:induction false} JoinTail(ls: seq<string>, sep: string)
    requires |ls| >= 1
    ensures var j, l := Join(ls, sep), ls[|ls| - 1]; |l| <= |j| && j[|j| - |l|..] == l
  {
    if |ls| > 1 {
      JoinTail(ls[1..], sep);
      var r := Join(ls[1..], sep);
      var l := ls[|ls| - 1];
      assert Join(ls, sep) == ls[0] + sep + r;
      assert (ls[0] + sep + r)[|ls[0] + sep + r| - |l|..] == r[|r| - |l|..];
    }
  }

  /** Lines without breaks joined by line feeds hold no carriage return. */
  lemma {:induction false} JoinHasNoCarriageReturn(ls: seq<string>)
    requires forall k :: 0 <= k < |ls| ==> NoLineBreak(ls[k])
    ensures NoChar(Join(ls, "\n"), '\r')
  {
    if |ls| > 1 {
      JoinHasNoCarriageReturn(ls[1..]);
      var r := Join(ls[1..], "\n");
      forall i | 0 <= i < |ls[0] + "\n" + r|
        ensures (ls[0] + "\n" + r)[i] != '\r'
      {
        if i > |ls[0]| {
          assert (ls[0] + "\n" + r)[i] == r[i - |ls[0]| - 1];
        }
      }
    }
  }

  /** The first line is the text up to the first separator. */
  lemma FirstLine(s: string)
    ensures Lines(s)[0] == s[..FirstBreak(s)]
  {
  }

  /** A text without separators is one line. */
  lemma LinesOfPlain(s: string)
    requires NoLineBreak(s)
    ensures Lines(s) == [s]
  {
    FirstBreakUnique(s, |s|);
  }

  lemma FirstBreakSkipsPlain(a: string, b: string)
    requires NoLineBreak(a)
    ensures FirstBreak(a + b) == |a| + FirstBreak(b)
  {
    var i := FirstBreak(b);
    FirstBreakUnique(a + b, |a| + i);
  }

  lemma FirstBreakOfPrefix(a: string, b: string)
    requires FirstBreak(a) < |a|
    ensures FirstBreak(a + b) == FirstBreak(a)
  {
    FirstBreakUnique(a + b, FirstBreak(a));
  }

  /** Splitting joined lines gives the lines back, as long as none of them holds a separator. */
  lemma {:induction false} LinesOfJoin(ls: seq<string>)
    requires |ls| >= 1
    requires forall k :: 0 <= k < |ls| ==> NoLineBreak(ls[k])
    ensures Lines(Join(ls, "\n")) == ls
  {
    if |ls| == 1 {
      FirstBreakSkipsPlain(ls[0], "");
      assert ls[0] + "" == ls[0];
    } else {
      var rest := Join(ls[1..], "\n");
      LinesOfConcatPlain(ls[0], rest);
      LinesOfJoin(ls[1..]);
      assert [ls[0]] + ls[1..] == ls;
    }
  }

  /** The first separator of `a` is also the first separator of `a + t`, with the same length. */
  lemma BreakOfPrefix(a: string, t: string)
    requires FirstBreak(a) < |a|
    requires a[|a| - 1] != '\r'
    ensures FirstBreak(a + t) == FirstBreak(a)
    ensures BreakLength(a + t, FirstBreak(a)) == BreakLength(a, FirstBreak(a))
    ensures FirstBreak(a) + BreakLength(a, FirstBreak(a)) <= |a|
  {
    FirstBreakOfPrefix(a, t);
    var i := FirstBreak(a);
    assert (a + t)[i] == a[i];
    if a[i] == '\r' {
      assert (a + t)[i + 1] == a[i + 1];
    }
  }

  lemma LinesOfConcatPlain(a: string, b: string)
    requires NoLineBreak(a)
    ensures Lines(a + "\n" + b) == [a] + Lines(b)
  {
    var t := "\n" + b;
    assert a + "\n" + b == a + t;
    FirstBreakSkipsPlain(a, t);
    assert (a + t)[..|a|] == a;
    assert (a + t)[|a| + 1..] == b;
  }

  lemma LinesUnfold(s: string)
    requires FirstBreak(s) < |s|
    ensures Lines(s) == [s[..FirstBreak(s)]] + Lines(s[FirstBreak(s) + BreakLength(s, FirstBreak(s))..])
  {
  }

  /** The first line of `a + t` is the first line of `a` when `a` holds a separator. */
  lemma LinesOfConcatStep(a: string, t: string)
    requires FirstBreak(a) < |a|
    requires a[|a| - 1] != '\r'
    ensures var i := FirstBreak(a); var k := BreakLength(a, i);
      i + k <= |a| && Lines(a + t) == [a[..i]] + Lines(a[i + k..] + t)
  {
    BreakOfPrefix(a, t);
    var s := a + t;
    var i := FirstBreak(a);
    var k := BreakLength(a, i);
    LinesUnfold(s);
    assert s[..i] == a[..i];
    assert s[i + k..] == a[i + k..] + t;
  }

  /** A line feed between `a` and `b` splits them apart unless `a` ends in "\r". */
  lemma {:induction false} LinesOfConcat(a: string, b: string)
    requires a == [] || a[|a| - 1] != '\r'
    ensures Lines(a + "\n" + b) == Lines(a) + Lines(b)
    decreases |a|
  {
    var i := FirstBreak(a);
    if i == |a| {
      LinesOfConcatPlain(a, b);
    } else {
      var t := "\n" + b;
      var a' := a[i + BreakLength(a, i)..];
      LinesOfConcatStep(a, t);
      SuffixKeepsLast(a, i + BreakLength(a, i));
      LinesOfConcat(a', b);
      ConcatAssoc(a', "\n", b);
      ConcatAssoc(a, "\n", b);
      LinesUnfold(a);
      SeqAssoc([a[..i]], Lines(a'), Lines(b));
    }
  }

  lemma ConcatAssoc(a: string, b: string, c: string)
    ensures a + b + c == a + (b + c)
  {
  }

  lemma SeqAssoc<T>(a: seq<T>, b: seq<T>, c: seq<T>)
    ensures a + (b + c) == a + b + c
  {
  }

  lemma PrefixSnoc<T>(s: seq<T>, k: nat)
    requires k < |s|
    ensures s[..k + 1] == s[..k] + [s[k]]
  {
  }

  lemma SuffixKeepsLast(a: string, j: nat)
    requires j <= |a|
    ensures a[j..] != [] ==> a[j..][|a[j..]| - 1] == a[|a| - 1]
  {
  }

  // ---------------------------------------------------------------- padding and prefixes

  /** `padEnd(n)`: right-pads with spaces to at least `n` characters. */
  function PadEnd(s: string, n: nat): (r: string)
    ensures |r| == if n <= |s| then |s| else n
    ensures r[..|s|] == s
    ensures forall i :: |s| <= i < |r| ==> r[i] == ' '
  {
    if n <= |s| then s else s + Spaces(n - |s|)
  }

  /** `padStart(n)`: left-pads with spaces to at least `n` characters. */
  function PadStart(s: string, n: nat): (r: string)
    ensures |r| == if n <= |s| then |s| else n
    ensures r[|r| - |s|..] == s
    ensures forall i :: 0 <= i < |r| - |s| ==> r[i] == ' '
  {
    if n <= |s| then s else Spaces(n - |s|) + s
  }

  lemma PadStartNoLineBreak(s: string, n: nat)
    requires NoLineBreak(s)
    ensures NoLineBreak(PadStart(s, n))
  {
    if |s| < n {
      NoLineBreakConcat(Spaces(n - |s|), s);
    }
  }

  /** Drops the leading spaces: the left inverse of `PadStart` on strings that do not start with a space. */
  function DropLeadingSpaces(s: string): (r: string)
    ensures r == [] || r[0] != ' '
  {
    if |s| > 0 && s[0] == ' ' then DropLeadingSpaces(s[1..]) else s
  }

  lemma {:induction false} DropSpacesOfPadded(k: nat, a: string)
    requires a == [] || a[0] != ' '
    ensures DropLeadingSpaces(Spaces(k) + a) == a
  {
    if k > 0 {
      assert (Spaces(k) + a)[1..] == Spaces(k - 1) + a;
      DropSpacesOfPadded(k - 1, a);
    } else {
      assert Spaces(k) + a == a;
    }
  }

  lemma PadStartRoundTrip(a: string, n: nat)
    requires a == [] || a[0] != ' '
    ensures DropLeadingSpaces(PadStart(a, n)) == a
  {
    if n <= |a| {
      DropSpacesOfPadded(0, a);
      assert Spaces(0) + a == a;
    } else {
      DropSpacesOfPadded(n - |a|, a);
    }
  }

  /** Left padding loses nothing for strings that do not start with a space. */
  lemma PadStartInjective(a: string, b: string, n: nat)
    requires a == [] || a[0] != ' '
    requires b == [] || b[0] != ' '
    ensures PadStart(a, n) == PadStart(b, n) <==> a == b
  {
    PadStartRoundTrip(a, n);
    PadStartRoundTrip(b, n);
  }

  predicate StartsWith(s: string, p: string) {
    |p| <= |s| && s[..|p|] == p
  }

  predicate EndsWith(s: string, p: string) {
    |p| <= |s| && s[|s| - |p|..] == p
  }

  // ---------------------------------------------------------------- searching

  predicate OccursAt(s: string, d: string, i: nat) {
    i + |d| <= |s| && s[i..i + |d|] == d
  }

  function IndexFrom(s: string, d: string, from: nat): (r: Option<nat>)
    ensures r.Some? ==> from <= r.value && OccursAt(s, d, r.value)
    ensures r.Some? ==> forall j :: from <= j < r.value ==> !OccursAt(s, d, j)
    ensures r.None? ==> forall j :: from <= j ==> !OccursAt(s, d, j)
    decreases |s| + 1 - from
  {
    if from + |d| > |s| then None
    else if OccursAt(s, d, from) then Some(from)
    else IndexFrom(s, d, from + 1)
  }

  /** `indexOf(d)`: the first occurrence of `d`, if any. */
  function IndexOf(s: string, d: string): (r: Option<nat>)
    ensures r.Some? ==> OccursAt(s, d, r.value) && forall j :: 0 <= j < r.value ==> !OccursAt(s, d, j)
    ensures r.None? ==> forall j :: 0 <= j ==> !OccursAt(s, d, j)
  {
    IndexFrom(s, d, 0)
  }

  /** The first occurrence is the only index with the properties `IndexOf` promises. */
  lemma IndexOfUnique(s: string, d: string, i: nat)
    requires OccursAt(s, d, i)
    requires forall j :: 0 <= j < i ==> !OccursAt(s, d, j)
    ensures IndexOf(s, d) == Some(i)
  {
  }

  /** A one-character delimiter first occurs right after a prefix that does not hold it. */
  lemma IndexOfCharAfter(a: string, c: char, b: string)
    requires NoChar(a, c)
    ensures IndexOf(a + [c] + b, [c]) == Some(|a|)
  {
    var s := a + [c] + b;
    assert s[|a|..|a| + 1] == [c];
    forall j | 0 <= j < |a|
      ensures !OccursAt(s, [c], j)
    {
      assert s[j] == a[j];
      assert s[j..j + 1][0] == s[j];
    }
    IndexOfUnique(s, [c], |a|);
  }

  /** `d in s`. */
  predicate Contains(s: string, d: string) {
    IndexOf(s, d).Some?
  }

  lemma ContainsChar(s: string, c: char)
    ensures Contains(s, [c]) <==> exists i :: 0 <= i < |s| && s[i] == c
  {
    if exists i :: 0 <= i < |s| && s[i] == c {
      var i :| 0 <= i < |s| && s[i] == c;
      assert s[i..i + 1] == [c];
      assert OccursAt(s, [c], i);
    }
    var r := IndexOf(s, [c]);
    if r.Some? {
      assert s[r.value..r.value + 1] == [c];
      assert s[r.value] == c;
    }
  }

  // ---------------------------------------------------------------- indentation

  /** `prependIndent(indent)`: each blank line shorter than the indent becomes the indent, other blank lines stay, the rest are indented. */
  function IndentLine(line: string, indent: string): string {
    if IsBlank(line) then (if |line| < |indent| then indent else line) else indent + line
  }

  function IndentedLines(s: string, indent: string): (xs: seq<string>)
    ensures |xs| == |Lines(s)|
  {
    var ls := Lines(s);
    seq(|ls|, i requires 0 <= i < |ls| => IndentLine(ls[i], indent))
  }

  function PrependIndent(s: string, indent: string): string {
    Join(IndentedLines(s, indent), "\n")
  }

  /** With an indent that holds no separator, no indented line does. */
  lemma IndentedLinesPlain(s: string, indent: string)
    requires NoLineBreak(indent)
    ensures var xs := IndentedLines(s, indent);
      forall k :: 0 <= k < |xs| ==> NoLineBreak(xs[k])
  {
    var ls := Lines(s);
    var xs := IndentedLines(s, indent);
    LinesHaveNoBreaks(s);
    forall k | 0 <= k < |xs|
      ensures NoLineBreak(xs[k])
    {
      assert xs[k] == IndentLine(ls[k], indent);
      NoBreakAppend(indent, ls[k]);
    }
  }

  /** A text whose first character is neither a separator nor whitespace keeps it right after the indent. */
  lemma IndentedStart(t: string, indent: string)
    requires |t| > 0 && !IsLineBreak(t[0]) && !IsWhitespace(t[0])
    ensures |indent| < |PrependIndent(t, indent)| && PrependIndent(t, indent)[|indent|] == t[0]
  {
    FirstLine(t);
    var l := Lines(t)[0];
    assert FirstBreak(t) > 0;
    assert l[0] == t[0];
    var xs := IndentedLines(t, indent);
    assert xs[0] == indent + l;
    JoinHead(xs, "\n");
  }

  /** An indented text holds no carriage return. */
  lemma IndentedNoCarriageReturn(s: string, indent: string)
    requires NoLineBreak(indent)
    ensures NoChar(PrependIndent(s, indent), '\r')
  {
    IndentedLinesPlain(s, indent);
    JoinHasNoCarriageReturn(IndentedLines(s, indent));
  }

  /** The index of the first non-whitespace character at or after `i`, or `|line|` when there is none. */
  function FirstNonBlank(line: string, i: nat): (k: nat)
    requires i <= |line|
    ensures i <= k <= |line|
    decreases |line| - i
  {
    if i < |line| && IsWhitespace(line[i]) then FirstNonBlank(line, i + 1) else i
  }

  /**
   * The margin cut of `trimMargin()`: a line whose first non-whitespace character is '|'
   * loses everything up to and including it; any other line is kept as it is.
   */
  function MarginCut(line: string): string {
    var k := FirstNonBlank(line, 0);
    if k < |line| && line[k] == '|' then line[k + 1..] else line
  }

  lemma {:induction false} FirstNonBlankAfterBlank(w: string, t: string, i: nat)
    requires IsBlank(w) && i <= |w|
    requires t != [] && !IsWhitespace(t[0])
    ensures FirstNonBlank(w + t, i) == |w|
    decreases |w| - i
  {
    if i < |w| {
      assert (w + t)[i] == w[i];
      FirstNonBlankAfterBlank(w, t, i + 1);
    } else {
      assert (w + t)[i] == t[0];
    }
  }

  /** `trimMargin()`: a blank first or last line is dropped; every other line loses its margin. */
  function TrimMargin(s: string): string {
    var ls := Lines(s);
    var first := if IsBlank(ls[0]) then 1 else 0;
    var last := if first <= |ls| - 1 && IsBlank(ls[|ls| - 1]) then |ls| - 1 else |ls|;
    Join(MarginCuts(ls, first, last), "\n")
  }

  /** The lines from `first` up to `last`, each with its margin cut. */
  function MarginCuts(ls: seq<string>, first: nat, last: nat): (cut: seq<string>)
    requires first <= last <= |ls|
    ensures |cut| == last - first
    ensures forall j :: 0 <= j < |cut| ==> cut[j] == MarginCut(ls[first + j])
    decreases last - first
  {
    if first == last then [] else [MarginCut(ls[first])] + MarginCuts(ls, first + 1, last)
  }

  /** The lines between a blank first and a blank last line, each with its margin cut. */
  function InnerCuts(ls: seq<string>): (cut: seq<string>)
    requires |ls| >= 2
    ensures |cut| == |ls| - 2
  {
    MarginCuts(ls, 1, |ls| - 1)
  }

  lemma InnerCutsEnds(ls: seq<string>)
    requires |ls| >= 4
    ensures InnerCuts(ls)[0] == MarginCut(ls[1])
    ensures InnerCuts(ls)[|ls| - 3] == MarginCut(ls[|ls| - 2])
  {
  }

  /** Framed by blank lines, a text loses both and the margins of the lines between. */
  lemma TrimMarginFramed(s: string)
    requires |Lines(s)| >= 2 && IsBlank(Lines(s)[0]) && IsBlank(Lines(s)[|Lines(s)| - 1])
    ensures TrimMargin(s) == Join(InnerCuts(Lines(s)), "\n")
  {
  }

  /** A line made of blank `w`, a '|' and `x` loses its margin: `x` is left. */
  lemma MarginCutOfIndented(w: string, x: string)
    requires IsBlank(w)
    ensures MarginCut(w + "|" + x) == x
  {
    var t := "|" + x;
    FirstNonBlankAfterBlank(w, t, 0);
    assert w + "|" + x == w + t;
    assert (w + t)[|w|] == '|';
    assert (w + t)[|w| + 1..] == x;
  }

  // ---------------------------------------------------------------- ordering

  /** `a.compareTo(b) <= 0`: lexicographic comparison, where a proper prefix comes first. */
  predicate LexLe(a: string, b: string)
    decreases |a|
  {
    |a| == 0 || (|b| > 0 && (a[0] < b[0] || (a[0] == b[0] && LexLe(a[1..], b[1..]))))
  }

  lemma {:induction false} LexLeTotal(a: string, b: string)
    ensures LexLe(a, b) || LexLe(b, a)
    decreases |a|
  {
    if |a| > 0 && |b| > 0 && a[0] == b[0] {
      LexLeTotal(a[1..], b[1..]);
    }
  }

  lemma {:induction false} LexLeAntisymmetric(a: string, b: string)
    requires LexLe(a, b) && LexLe(b, a)
    ensures a == b
    decreases |a|
  {
    if |a| > 0 {
      LexLeAntisymmetric(a[1..], b[1..]);
      assert a == [a[0]] + a[1..] && b == [b[0]] + b[1..];
    }
  }

  lemma {:induction false} LexLeTransitive(a: string, b: string, c: string)
    requires LexLe(a, b) && LexLe(b, c)
    ensures LexLe(a, c)
    decreases |a|
  {
    if |a| > 0 && a[0] == b[0] && b[0] == c[0] {
      LexLeTransitive(a[1..], b[1..], c[1..]);
    }
  }
}
