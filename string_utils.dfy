/**
 * The test fixtures' `String.replaceNonAlphaNumeric(replacement = "-")`: letters and
 * digits are kept and every other character becomes the replacement string.
 */
module StringUtils {
  /** `Char.isLetterOrDigit()`, for ASCII letters and digits. */
  predicate IsLetterOrDigit(c: char) {
    'a' <= c <= 'z' || 'A' <= c <= 'Z' || '0' <= c <= '9'
  }

  const DefaultReplacement: string := "-"

  /** What one character becomes. */
  function Piece(c: char, replacement: string): string {
    if IsLetterOrDigit(c) then [c] else replacement
  }

  function ReplaceNonAlphaNumeric(s: string, replacement: string): string {
    if s == [] then [] else Piece(s[0], replacement) + ReplaceNonAlphaNumeric(s[1..], replacement)
  }

  // ---------------------------------------------------------------- properties

  /** The characters are replaced one by one: the result for `a + b` is the results for `a` and `b` in turn. */
  lemma {:induction false} ReplaceAppend(a: string, b: string, replacement: string)
    ensures ReplaceNonAlphaNumeric(a + b, replacement) == ReplaceNonAlphaNumeric(a, replacement) + ReplaceNonAlphaNumeric(b, replacement)
  {
    if a == [] {
      assert a + b == b;
    } else {
      assert (a + b)[0] == a[0] && (a + b)[1..] == a[1..] + b;
      ReplaceAppend(a[1..], b, replacement);
    }
  }

  /** With a one-character replacement, each character is kept or replaced in its place. */
  lemma {:induction false} ReplaceInPlace(s: string, replacement: string)
    requires |replacement| == 1
    ensures var r := ReplaceNonAlphaNumeric(s, replacement);
      |r| == |s| &&
      forall i :: 0 <= i < |s| ==> r[i] == if IsLetterOrDigit(s[i]) then s[i] else replacement[0]
  {
    if s != [] {
      ReplaceInPlace(s[1..], replacement);
      var rest := ReplaceNonAlphaNumeric(s[1..], replacement);
      forall i | 0 <= i < |s|
        ensures (Piece(s[0], replacement) + rest)[i] == if IsLetterOrDigit(s[i]) then s[i] else replacement[0]
      {
        if i > 0 {
          assert s[i] == s[1..][i - 1];
        }
      }
    }
  }

  /** A string of letters and digits only is left as it is. */
  lemma {:induction false} ReplaceKeepsAlphaNumeric(s: string, replacement: string)
    requires forall i :: 0 <= i < |s| ==> IsLetterOrDigit(s[i])
    ensures ReplaceNonAlphaNumeric(s, replacement) == s
  {
    if s != [] {
      ReplaceKeepsAlphaNumeric(s[1..], replacement);
      assert s == [s[0]] + s[1..];
    }
  }

  /** Only letters, digits and `-`. */
  predicate Sanitised(r: string) {
    forall i :: 0 <= i < |r| ==> IsLetterOrDigit(r[i]) || r[i] == '-'
  }

  /** With the default `-`, only letters, digits and `-` remain. */
  lemma DefaultLeavesOnlyAllowed(s: string)
    ensures Sanitised(ReplaceNonAlphaNumeric(s, DefaultReplacement))
  {
    ReplaceInPlace(s, DefaultReplacement);
  }

  /** Replacing a second time with `-` changes nothing. */
  lemma DefaultIdempotent(s: string)
    ensures var r := ReplaceNonAlphaNumeric(s, DefaultReplacement);
      ReplaceNonAlphaNumeric(r, DefaultReplacement) == r
  {
    var r := ReplaceNonAlphaNumeric(s, DefaultReplacement);
    DefaultLeavesOnlyAllowed(s);
    ReplaceInPlace(r, DefaultReplacement);
    var rr := ReplaceNonAlphaNumeric(r, DefaultReplacement);
    assert DefaultReplacement[0] == '-';
    assert |rr| == |r|;
    forall i | 0 <= i < |r|
      ensures rr[i] == r[i]
    {
      assert IsLetterOrDigit(r[i]) || r[i] == '-';
      assert rr[i] == if IsLetterOrDigit(r[i]) then r[i] else '-';
    }
  }
}
