/**
 * The test fixtures' `Descriptor.slashSeparatedPath(suffix = "")`, meant to give each
 * test case a distinct directory: the spec's id without the plugin's package prefix,
 * then one `/`-separated, sanitised segment per nested test, outermost first. As
 * written, a test drops the suffix handed to it, so only the outermost test's segment
 * survives; the corrected walk keeps them all.
 */
module KotestUtils {
  import opened StringUtils
  import Text

  /** A kotest descriptor: a spec, or a test nested in a parent. */
  datatype Descriptor = SpecDescriptor(id: string) | TestDescriptor(parent: Descriptor, id: string)

  const PackagePrefix: string := "dev.adamko.gradle.dev_publish."

  /** `removePrefix`: without the prefix when it is there, unchanged otherwise. */
  function RemovePrefix(s: string, prefix: string): (r: string)
    ensures Text.StartsWith(s, prefix) ==> prefix + r == s
    ensures !Text.StartsWith(s, prefix) ==> r == s
  {
    if Text.StartsWith(s, prefix) then s[|prefix|..] else s
  }

  /** A test's own segment. */
  function Segment(id: string): string {
    "/" + ReplaceNonAlphaNumeric(id, DefaultReplacement)
  }

  /**
   * The tail-recursive walk up the descriptor chain as written: a test hands its own
   * segment to its parent and drops the suffix it was given.
   */
  function SlashSeparatedPath(d: Descriptor, suffix: string): string {
    match d
    case SpecDescriptor(id) => RemovePrefix(id, PackagePrefix) + suffix
    case TestDescriptor(parent, id) => SlashSeparatedPath(parent, Segment(id))
  }

  /** The walk as the comment above it intends: each test prepends its segment to the suffix. */
  function CorrectedSlashSeparatedPath(d: Descriptor, suffix: string): string {
    match d
    case SpecDescriptor(id) => RemovePrefix(id, PackagePrefix) + suffix
    case TestDescriptor(parent, id) => CorrectedSlashSeparatedPath(parent, Segment(id) + suffix)
  }

  // ---------------------------------------------------------------- the chain, outermost first

  /** The spec at the top of the chain. */
  function SpecId(d: Descriptor): string {
    match d
    case SpecDescriptor(id) => id
    case TestDescriptor(parent, _) => SpecId(parent)
  }

  /** The ids of the nested tests, outermost first. */
  function TestIds(d: Descriptor): seq<string> {
    match d
    case SpecDescriptor(_) => []
    case TestDescriptor(parent, id) => TestIds(parent) + [id]
  }

  /** The segments of the given test ids, in order. */
  function Segments(ids: seq<string>): string {
    if ids == [] then "" else Segments(ids[..|ids| - 1]) + Segment(ids[|ids| - 1])
  }

  // ---------------------------------------------------------------- properties

  /** A spec gives its id, the package prefix removed, followed by the suffix. */
  lemma SpecPath(id: string, suffix: string)
    ensures Text.StartsWith(id, PackagePrefix) ==> PackagePrefix + SlashSeparatedPath(SpecDescriptor(id), suffix) == id + suffix
    ensures !Text.StartsWith(id, PackagePrefix) ==> SlashSeparatedPath(SpecDescriptor(id), suffix) == id + suffix
  {
  }

  /**
   * As written, only the test directly under the spec leaves a segment: the path of a
   * nested test is the spec part and the segment of its outermost test.
   */
  lemma {:induction false} PathAsWritten(d: Descriptor, suffix: string)
    ensures TestIds(d) == [] ==> SlashSeparatedPath(d, suffix) == RemovePrefix(SpecId(d), PackagePrefix) + suffix
    ensures TestIds(d) != [] ==> SlashSeparatedPath(d, suffix) == RemovePrefix(SpecId(d), PackagePrefix) + Segment(TestIds(d)[0])
  {
    match d
    case SpecDescriptor(id) =>
    case TestDescriptor(parent, id) =>
      PathAsWritten(parent, Segment(id));
      if TestIds(parent) != [] {
        assert TestIds(d)[0] == TestIds(parent)[0];
      }
  }

  /** Two tests in the same context share a directory, whatever their names. */
  lemma NestedTestsShareDirectory(spec: string, context: string, a: string, b: string)
    ensures var c := TestDescriptor(SpecDescriptor(spec), context);
      SlashSeparatedPath(TestDescriptor(c, a), "") == SlashSeparatedPath(TestDescriptor(c, b), "")
  {
  }

  /** The corrected path: the spec part, then a segment per nested test, outermost first, then the suffix. */
  lemma {:induction false} PathOfChain(d: Descriptor, suffix: string)
    ensures CorrectedSlashSeparatedPath(d, suffix) == RemovePrefix(SpecId(d), PackagePrefix) + Segments(TestIds(d)) + suffix
  {
    match d
    case SpecDescriptor(id) =>
    case TestDescriptor(parent, id) =>
      PathOfChain(parent, Segment(id) + suffix);
      var ids := TestIds(parent) + [id];
      assert ids[..|ids| - 1] == TestIds(parent);
      var head, before, seg := RemovePrefix(SpecId(d), PackagePrefix), Segments(TestIds(parent)), Segment(id);
      assert Segments(TestIds(d)) == before + seg;
      Regroup(head, before, seg, suffix);
  }

  /** Corrected, a test's directory is its parent's with the test's own segment below it. */
  lemma ChildBelowParent(parent: Descriptor, id: string)
    ensures CorrectedSlashSeparatedPath(TestDescriptor(parent, id), "") == CorrectedSlashSeparatedPath(parent, "") + Segment(id)
  {
    PathOfChain(TestDescriptor(parent, id), "");
    PathOfChain(parent, "");
    var ids := TestIds(parent) + [id];
    assert ids[..|ids| - 1] == TestIds(parent);
  }

  /** Corrected, two tests in one context share a directory only when their sanitised names agree. */
  lemma SiblingsApart(parent: Descriptor, a: string, b: string)
    ensures CorrectedSlashSeparatedPath(TestDescriptor(parent, a), "") == CorrectedSlashSeparatedPath(TestDescriptor(parent, b), "")
      <==> ReplaceNonAlphaNumeric(a, DefaultReplacement) == ReplaceNonAlphaNumeric(b, DefaultReplacement)
  {
    ChildBelowParent(parent, a);
    ChildBelowParent(parent, b);
    var h := CorrectedSlashSeparatedPath(parent, "");
    var sa, sb := Segment(a), Segment(b);
    if h + sa == h + sb {
      assert sa == (h + sa)[|h|..];
      assert sb == (h + sb)[|h|..];
      assert sa[1..] == ReplaceNonAlphaNumeric(a, DefaultReplacement);
      assert sb[1..] == ReplaceNonAlphaNumeric(b, DefaultReplacement);
    }
  }

  lemma Regroup(a: string, b: string, c: string, d: string)
    ensures a + b + (c + d) == a + (b + c) + d
  {
  }

  /** Each test segment starts with `/` and holds only letters, digits and `-` after it. */
  lemma SegmentShape(id: string)
    ensures var s := Segment(id);
      |s| >= 1 && s[0] == '/' && forall i :: 1 <= i < |s| ==> IsLetterOrDigit(s[i]) || s[i] == '-'
  {
    DefaultLeavesOnlyAllowed(id);
    var r := ReplaceNonAlphaNumeric(id, DefaultReplacement);
    assert Segment(id) == "/" + r;
    forall i | 1 <= i < |Segment(id)|
      ensures IsLetterOrDigit(Segment(id)[i]) || Segment(id)[i] == '-'
    {
      assert Segment(id)[i] == r[i - 1];
      assert IsLetterOrDigit(r[i - 1]) || r[i - 1] == '-';
    }
  }
}
