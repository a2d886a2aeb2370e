/** Small extensions of the Kotlin standard library that the plugin defines for itself. */
module StdlibUtils {
  import opened Wrappers
  import opened Text

  /**
   * `splitToPair(delimiter)`: the text before the first occurrence of the delimiter
   * and the text after it; when the delimiter is missing, the whole text and "".
   */
  function SplitToPair(s: string, d: string): (r: (string, string))
    ensures Contains(s, d) ==> s == r.0 + d + r.1
    ensures Contains(s, d) ==> forall j :: 0 <= j < |r.0| ==> !OccursAt(s, d, j)
    ensures !Contains(s, d) ==> r == (s, "")
  {
    match IndexOf(s, d)
    case Some(i) => (s[..i], s[i + |d|..])
    case None => (s, "")
  }

  /** Splitting at a one-character delimiter undoes gluing two parts with it, when the first part does not hold it. */
  lemma SplitToPairOfGlued(a: string, c: char, b: string)
    requires NoChar(a, c)
    ensures SplitToPair(a + [c] + b, [c]) == (a, b)
  {
    var s := a + [c] + b;
    IndexOfCharAfter(a, c, b);
    assert s[..|a|] == a;
    assert s[|a| + 1..] == b;
  }
}
