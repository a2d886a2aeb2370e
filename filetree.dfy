/**
 * The test fixtures' `toTreeString`: a directory drawn as an indented tree, directories
 * before files and each group ordered by name, with `├── ` before every entry but the
 * last, `└── ` before the last, and a directory left out when no file beneath it
 * passes the include/exclude globs.
 */
module FileTree {
  import opened Text
  import opened Sorting

  /** A file or a directory, with its entries in the order the file system lists them. */
  datatype FsNode = RegularFile(name: string) | Directory(name: string, entries: seq<FsNode>)

  /** A glob pattern matched against a path, as `FileSystems.getDefault().getPathMatcher("glob:…")` does. */
  type GlobMatcher = (string, seq<string>) -> bool

  /** The patterns a `PathGlobMatchers` holds. */
  datatype Filter = Filter(includes: seq<string>, excludes: seq<string>)

  // ---------------------------------------------------------------- PathGlobMatchersImpl

  /** `excludes.none { it.matches(path) }`. */
  function NoneMatch(patterns: seq<string>, glob: GlobMatcher, path: seq<string>): bool {
    if patterns == [] then true else !glob(patterns[0], path) && NoneMatch(patterns[1..], glob, path)
  }

  /** `includes.all { it.matches(path) }`. */
  function AllMatch(patterns: seq<string>, glob: GlobMatcher, path: seq<string>): bool {
    if patterns == [] then true else glob(patterns[0], path) && AllMatch(patterns[1..], glob, path)
  }

  /** `matches(path)`: anything but a regular file matches; a regular file must pass every include and no exclude. */
  function Matches(f: Filter, glob: GlobMatcher, path: seq<string>, isRegularFile: bool): bool {
    if isRegularFile then NoneMatch(f.excludes, glob, path) && AllMatch(f.includes, glob, path) else true
  }

  /** The mutable matcher that the `filter` builder configures. */
  class PathGlobMatchers {
    var includes: seq<string>
    var excludes: seq<string>

    constructor()
      ensures includes == [] && excludes == []
    {
      includes := [];
      excludes := [];
    }

    /** `include(vararg globPatterns)`. */
    method Include(patterns: seq<string>)
      modifies this
      ensures includes == old(includes) + patterns && excludes == old(excludes)
    {
      includes := includes + patterns;
    }

    /** `excludes(vararg globPatterns)`. */
    method Excludes(patterns: seq<string>)
      modifies this
      ensures excludes == old(excludes) + patterns && includes == old(includes)
    {
      excludes := excludes + patterns;
    }

    function Patterns(): Filter
      reads this
    {
      Filter(includes, excludes)
    }
  }

  // ---------------------------------------------------------------- FileSorter

  /** `FileSorter.compare(a, b) <= 0`: directories before files, otherwise by name. */
  predicate SortsBefore(a: FsNode, b: FsNode) {
    if a.Directory? && b.RegularFile? then true
    else if a.RegularFile? && b.Directory? then false
    else LexLe(a.name, b.name)
  }

  // ---------------------------------------------------------------- listing

  /** `filter(p)` on a list. */
  function Keep(s: seq<FsNode>, p: FsNode -> bool): (r: seq<FsNode>)
    ensures forall x :: x in r <==> x in s && p(x)
  {
    if s == [] then [] else (if p(s[0]) then [s[0]] else []) + Keep(s[1..], p)
  }

  /** The entries `listDirectoryEntries` keeps: every directory, and the files that match. */
  function IsListed(at: seq<string>, f: Filter, glob: GlobMatcher): FsNode -> bool {
    (x: FsNode) => x.RegularFile? ==> Matches(f, glob, at + [x.name], true)
  }

  /** `listDirectoryEntries(matchers)` of the directory at path `at`, sorted with `FileSorter`. */
  function ListDirectoryEntries(dir: FsNode, at: seq<string>, f: Filter, glob: GlobMatcher): (r: seq<FsNode>)
    requires dir.Directory?
    ensures forall x :: x in r <==> x in dir.entries && IsListed(at, f, glob)(x)
  {
    var listed := Keep(dir.entries, IsListed(at, f, glob));
    var r := Sort(listed, SortsBefore);
    assert forall x :: x in r <==> x in multiset(listed);
    r
  }

  /** Some regular file at or below `n` (whose path is `at`) matches. */
  predicate HasMatchingFile(n: FsNode, at: seq<string>, f: Filter, glob: GlobMatcher) {
    match n
    case RegularFile(_) => Matches(f, glob, at, true)
    case Directory(_, es) => exists i :: 0 <= i < |es| && HasMatchingFile(es[i], at + [es[i].name], f, glob)
  }

  /** `isEmptyDir(matchers)`: a file, or a directory with no matching file anywhere beneath it. */
  predicate IsEmptyDir(n: FsNode, at: seq<string>, f: Filter, glob: GlobMatcher) {
    n.RegularFile? || !HasMatchingFile(n, at, f, glob)
  }

  function IsShown(at: seq<string>, f: Filter, glob: GlobMatcher): FsNode -> bool {
    (x: FsNode) => x.RegularFile? || !IsEmptyDir(x, at + [x.name], f, glob)
  }

  /** The entries that `buildTreeString` draws. */
  function Shown(dir: FsNode, at: seq<string>, f: Filter, glob: GlobMatcher): (r: seq<FsNode>)
    requires dir.Directory?
    ensures forall x :: x in r ==> x in dir.entries
  {
    Keep(ListDirectoryEntries(dir, at, f, glob), IsShown(at, f, glob))
  }

  // ---------------------------------------------------------------- rendering

  /**
   * What `buildTreeString` draws of a node: a file by its name; a directory by its
   * name, whether it lists any entry (`countDirectoryEntries(…) > 0`), and its drawn
   * entries in order.
   */
  datatype Drawn = DrawnFile(name: string) | DrawnDir(name: string, listsAny: bool, entries: seq<Drawn>)

  /** The part of the node at path `at` that is drawn. */
  function Selected(n: FsNode, at: seq<string>, f: Filter, glob: GlobMatcher): (d: Drawn)
    ensures d.name == n.name && (d.DrawnDir? <==> n.Directory?)
  {
    match n
    case RegularFile(name) => DrawnFile(name)
    case Directory(name, _) =>
      var es := Shown(n, at, f, glob);
      DrawnDir(name, |ListDirectoryEntries(n, at, f, glob)| > 0,
        seq(|es|, i requires 0 <= i < |es| =>
          assert es[i] in n.entries;
          Selected(es[i], at + [es[i].name], f, glob)))
  }

  datatype PrefixPair = PrefixPair(currentPrefix: string, nextPrefix: string)

  const Intermediate := PrefixPair("├── ", "│   ")
  const LastEntry := PrefixPair("└── ", "    ")

  /** `LAST_ENTRY` for the last entry, `INTERMEDIATE` for the others. */
  function PrefixFor(i: nat, count: nat): PrefixPair {
    if i == count - 1 then LastEntry else Intermediate
  }

  /** The entries of one directory, the last with `LAST_ENTRY` and the others with `INTERMEDIATE`, joined with `\n`. */
  function JoinEntries(ds: seq<Drawn>, margin: string): string
    decreases ds, 0
  {
    Join(seq(|ds|, i requires 0 <= i < |ds| => EntryString(ds[i], margin, PrefixFor(i, |ds|))), "\n")
  }

  /** One entry: margin, prefix and name; a directory adds `/`, a line break when it lists anything, and its own entries. */
  function EntryString(d: Drawn, margin: string, p: PrefixPair): string
    decreases d, 1
  {
    margin + p.currentPrefix + d.name +
      if d.DrawnFile? then ""
      else "/" + (if d.listsAny then "\n" else "") + JoinEntries(d.entries, margin + p.nextPrefix)
  }

  /** `buildTreeString(dir, margin, matchers)` of the directory at path `at`. */
  function BuildTreeString(dir: FsNode, at: seq<string>, margin: string, f: Filter, glob: GlobMatcher): string
    requires dir.Directory?
  {
    JoinEntries(Selected(dir, at, f, glob).entries, margin)
  }

  /** `File.toTreeString(filter)` of the node at path `at`: a directory is `name/` on its own line above its entries; a file is its name. */
  function ToTreeString(root: FsNode, at: seq<string>, f: Filter, glob: GlobMatcher): string {
    if root.Directory? then root.name + "/\n" + BuildTreeString(root, at, "", f, glob) else root.name
  }

  /** `toTreeString { include(…); excludes(…) }`: the matcher is configured, then the tree drawn. */
  method RenderTree(root: FsNode, at: seq<string>, includes: seq<string>, excludes: seq<string>, glob: GlobMatcher) returns (s: string)
    ensures s == ToTreeString(root, at, Filter(includes, excludes), glob)
  {
    var matchers := new PathGlobMatchers();
    matchers.Include(includes);
    matchers.Excludes(excludes);
    assert [] + includes == includes && [] + excludes == excludes;
    s := ToTreeString(root, at, matchers.Patterns(), glob);
  }

  // ---------------------------------------------------------------- properties of the matcher

  /** `none`: no pattern matches the path. */
  lemma {:induction false} NoneMatchIff(patterns: seq<string>, glob: GlobMatcher, path: seq<string>)
    ensures NoneMatch(patterns, glob, path) <==> forall k :: 0 <= k < |patterns| ==> !glob(patterns[k], path)
  {
    if patterns != [] {
      NoneMatchIff(patterns[1..], glob, path);
      assert forall k :: 1 <= k < |patterns| ==> patterns[k] == patterns[1..][k - 1];
    }
  }

  /** `all`: every pattern matches the path. */
  lemma {:induction false} AllMatchIff(patterns: seq<string>, glob: GlobMatcher, path: seq<string>)
    ensures AllMatch(patterns, glob, path) <==> forall k :: 0 <= k < |patterns| ==> glob(patterns[k], path)
  {
    if patterns != [] {
      AllMatchIff(patterns[1..], glob, path);
      assert forall k :: 1 <= k < |patterns| ==> patterns[k] == patterns[1..][k - 1];
    }
  }

  /**
   * What passes the filter: every path that is not a regular file; a regular file
   * exactly when no exclude matches it and every include does, so that an exclude
   * wins over any include and no patterns at all let everything through.
   */
  lemma MatchesIff(f: Filter, glob: GlobMatcher, path: seq<string>, isRegularFile: bool)
    ensures Matches(f, glob, path, isRegularFile) <==>
      !isRegularFile ||
      ((forall k :: 0 <= k < |f.excludes| ==> !glob(f.excludes[k], path)) &&
       (forall k :: 0 <= k < |f.includes| ==> glob(f.includes[k], path)))
  {
    NoneMatchIff(f.excludes, glob, path);
    AllMatchIff(f.includes, glob, path);
  }

  // ---------------------------------------------------------------- order of the entries

  /** `FileSorter` is a total order that ties only entries of the same kind and name. */
  lemma SortsBeforeIsOrder()
    ensures IsTotal(SortsBefore) && IsTransitive(SortsBefore)
    ensures forall a, b :: SortsBefore(a, b) && SortsBefore(b, a) ==> a.RegularFile? == b.RegularFile? && a.name == b.name
  {
    forall a, b
      ensures SortsBefore(a, b) || SortsBefore(b, a)
    {
      LexLeTotal(a.name, b.name);
    }
    forall a, b, c | SortsBefore(a, b) && SortsBefore(b, c)
      ensures SortsBefore(a, c)
    {
      if a.RegularFile? == b.RegularFile? && b.RegularFile? == c.RegularFile? {
        LexLeTransitive(a.name, b.name, c.name);
      }
    }
    forall a, b | SortsBefore(a, b) && SortsBefore(b, a)
      ensures a.RegularFile? == b.RegularFile? && a.name == b.name
    {
      LexLeAntisymmetric(a.name, b.name);
    }
  }

  /** Filtering keeps the order. */
  lemma {:induction false} KeepSorted(s: seq<FsNode>, p: FsNode -> bool)
    requires Sorted(s, SortsBefore)
    ensures Sorted(Keep(s, p), SortsBefore)
  {
    if s != [] {
      KeepSorted(s[1..], p);
      var rest := Keep(s[1..], p);
      forall y | y in rest
        ensures SortsBefore(s[0], y)
      {
        var m :| 0 <= m < |s[1..]| && s[1..][m] == y;
        assert s[1 + m] == y;
      }
    }
  }

  /** How often filtering keeps an element. */
  lemma {:induction false} KeepCount(s: seq<FsNode>, p: FsNode -> bool, x: FsNode)
    ensures multiset(Keep(s, p))[x] == if p(x) then multiset(s)[x] else 0
  {
    if s != [] {
      KeepCount(s[1..], p, x);
      assert s == [s[0]] + s[1..];
    }
  }

  /** Filtering two arrangements of the same entries keeps the same entries. */
  lemma KeepPermutation(s: seq<FsNode>, t: seq<FsNode>, p: FsNode -> bool)
    requires multiset(s) == multiset(t)
    ensures multiset(Keep(s, p)) == multiset(Keep(t, p))
  {
    forall x
      ensures multiset(Keep(s, p))[x] == multiset(Keep(t, p))[x]
    {
      KeepCount(s, p, x);
      KeepCount(t, p, x);
    }
  }

  /** The drawn entries come directories first, then files, each group in name order. */
  lemma ShownOrder(dir: FsNode, at: seq<string>, f: Filter, glob: GlobMatcher)
    requires dir.Directory?
    ensures var es := Shown(dir, at, f, glob);
      forall i, j :: 0 <= i < j < |es| ==>
        (es[i].RegularFile? ==> es[j].RegularFile?) &&
        (es[i].RegularFile? == es[j].RegularFile? ==> LexLe(es[i].name, es[j].name))
  {
    SortsBeforeIsOrder();
    SortSorted(Keep(dir.entries, IsListed(at, f, glob)), SortsBefore);
    KeepSorted(ListDirectoryEntries(dir, at, f, glob), IsShown(at, f, glob));
  }

  /** No two entries of a directory share a name. */
  predicate DistinctNames(es: seq<FsNode>) {
    forall i, j :: 0 <= i < j < |es| ==> es[i].name != es[j].name
  }

  /** The drawing does not depend on the order the file system lists a directory's entries in. */
  lemma ListingOrderIrrelevant(name: string, p: seq<FsNode>, q: seq<FsNode>, at: seq<string>, f: Filter, glob: GlobMatcher)
    requires multiset(p) == multiset(q) && DistinctNames(p)
    ensures ToTreeString(Directory(name, p), at, f, glob) == ToTreeString(Directory(name, q), at, f, glob)
  {
    var lp, lq := Keep(p, IsListed(at, f, glob)), Keep(q, IsListed(at, f, glob));
    KeepPermutation(p, q, IsListed(at, f, glob));
    SortsBeforeIsOrder();
    forall x, y | x in lp && y in lp && SortsBefore(x, y) && SortsBefore(y, x)
      ensures x == y
    {
      var i :| 0 <= i < |p| && p[i] == x;
      var j :| 0 <= j < |p| && p[j] == y;
      assert i == j;
    }
    SortPermutationInvariant(lp, lq, SortsBefore);
    SameListingSameDrawing(Directory(name, p), Directory(name, q), at, f, glob);
  }

  /** Directories of the same name that list the same entries are drawn alike. */
  lemma SameListingSameDrawing(a: FsNode, b: FsNode, at: seq<string>, f: Filter, glob: GlobMatcher)
    requires a.Directory? && b.Directory? && a.name == b.name
    requires Sort(Keep(a.entries, IsListed(at, f, glob)), SortsBefore) == Sort(Keep(b.entries, IsListed(at, f, glob)), SortsBefore)
    ensures ToTreeString(a, at, f, glob) == ToTreeString(b, at, f, glob)
  {
    assert ListDirectoryEntries(a, at, f, glob) == ListDirectoryEntries(b, at, f, glob);
    assert Shown(a, at, f, glob) == Shown(b, at, f, glob);
    assert Selected(a, at, f, glob) == Selected(b, at, f, glob);
  }

  // ---------------------------------------------------------------- what is drawn

  /** An entry is drawn exactly when it is a matching file, or a directory with a matching file somewhere beneath it. */
  lemma ShownIff(dir: FsNode, at: seq<string>, f: Filter, glob: GlobMatcher, x: FsNode)
    requires dir.Directory?
    ensures x in Shown(dir, at, f, glob) <==>
      x in dir.entries &&
      if x.RegularFile? then Matches(f, glob, at + [x.name], true) else HasMatchingFile(x, at + [x.name], f, glob)
  {
  }

  /** A directory with a matching file beneath it draws at least one entry. */
  lemma ShownNonEmpty(dir: FsNode, at: seq<string>, f: Filter, glob: GlobMatcher)
    requires dir.Directory? && HasMatchingFile(dir, at, f, glob)
    ensures Shown(dir, at, f, glob) != []
  {
    var i :| 0 <= i < |dir.entries| && HasMatchingFile(dir.entries[i], at + [dir.entries[i].name], f, glob);
    var x := dir.entries[i];
    ShownIff(dir, at, f, glob, x);
    assert x in Shown(dir, at, f, glob);
  }

  /**
   * A drawn directory always lists something, so `countDirectoryEntries(…) > 0` always
   * holds where it is asked: the directory's line ends in `/` and its entries follow
   * on the next line.
   */
  lemma DirectoryHeader(e: FsNode, at: seq<string>, f: Filter, glob: GlobMatcher)
    requires e.Directory? && HasMatchingFile(e, at, f, glob)
    ensures Selected(e, at, f, glob).listsAny && Selected(e, at, f, glob).entries != []
  {
    ShownNonEmpty(e, at, f, glob);
    var x := Shown(e, at, f, glob)[0];
    assert x in ListDirectoryEntries(e, at, f, glob);
  }

  // ---------------------------------------------------------------- no trailing line break

  /** No name, down the whole tree, holds a line break. */
  predicate PlainNames(n: FsNode) {
    NoLineBreak(n.name) &&
    match n
    case RegularFile(_) => true
    case Directory(_, es) => forall i :: 0 <= i < |es| ==> PlainNames(es[i])
  }

  /** A drawing whose names are plain and whose every directory draws entries below its `/` line. */
  predicate Clean(d: Drawn) {
    NoLineBreak(d.name) &&
    match d
    case DrawnFile(_) => true
    case DrawnDir(_, listsAny, es) => listsAny && es != [] && forall i :: 0 <= i < |es| ==> Clean(es[i])
  }

  predicate AllClean(ds: seq<Drawn>) {
    forall i :: 0 <= i < |ds| ==> Clean(ds[i])
  }

  /** Every entry drawn below a directory with plain names draws cleanly. */
  lemma {:induction false} SelectedEntriesClean(dir: FsNode, at: seq<string>, f: Filter, glob: GlobMatcher)
    requires dir.Directory? && PlainNames(dir)
    ensures AllClean(Selected(dir, at, f, glob).entries)
    decreases dir
  {
    var es := Shown(dir, at, f, glob);
    var ds := Selected(dir, at, f, glob).entries;
    forall i | 0 <= i < |ds|
      ensures Clean(ds[i])
    {
      var x := es[i];
      assert x in es;
      assert x in dir.entries;
      var k :| 0 <= k < |dir.entries| && dir.entries[k] == x;
      assert PlainNames(x);
      ShownIff(dir, at, f, glob, x);
      assert ds[i] == Selected(x, at + [x.name], f, glob);
      if x.Directory? {
        SelectedEntriesClean(x, at + [x.name], f, glob);
        DirectoryHeader(x, at + [x.name], f, glob);
      }
    }
  }

  /** A clean entry is never empty and never ends in a line break. */
  lemma {:induction false} EntryEnd(d: Drawn, margin: string, p: PrefixPair)
    requires p == Intermediate || p == LastEntry
    requires Clean(d)
    ensures var s := EntryString(d, margin, p); |s| > 0 && s[|s| - 1] != '\n'
    decreases d, 1
  {
    var s := EntryString(d, margin, p);
    var head := margin + p.currentPrefix;
    assert p.currentPrefix[|p.currentPrefix| - 1] == ' ';
    if d.DrawnFile? {
      assert s == head + d.name;
      if d.name != [] {
        assert s[|s| - 1] == d.name[|d.name| - 1];
      }
    } else {
      JoinEnd(d.entries, margin + p.nextPrefix);
      var b := JoinEntries(d.entries, margin + p.nextPrefix);
      assert s == head + d.name + "/\n" + b;
      assert s[|s| - 1] == b[|b| - 1];
    }
  }

  /** Entries joined with `\n` end with the last entry, so a clean last entry leaves no trailing line break. */
  lemma {:induction false} JoinEnd(ds: seq<Drawn>, margin: string)
    requires ds != [] && AllClean(ds)
    ensures var b := JoinEntries(ds, margin); |b| > 0 && b[|b| - 1] != '\n'
    decreases ds, 0
  {
    var n := |ds|;
    var ls := seq(n, i requires 0 <= i < n => EntryString(ds[i], margin, PrefixFor(i, n)));
    assert JoinEntries(ds, margin) == Join(ls, "\n");
    assert ls[n - 1] == EntryString(ds[n - 1], margin, LastEntry);
    assert ds[n - 1] in ds;
    EntryEnd(ds[n - 1], margin, LastEntry);
    JoinLast(ls, "\n");
  }

  lemma JoinLast(ls: seq<string>, sep: string)
    requires |ls| > 0 && |ls[|ls| - 1]| > 0
    ensures var b := Join(ls, sep); |b| > 0 && b[|b| - 1] == ls[|ls| - 1][|ls[|ls| - 1]| - 1]
  {
    JoinTail(ls, sep);
    SuffixLast(Join(ls, sep), ls[|ls| - 1]);
  }

  lemma SuffixLast(b: string, l: string)
    requires 0 < |l| <= |b| && b[|b| - |l|..] == l
    ensures b[|b| - 1] == l[|l| - 1]
  {
    assert b[|b| - 1] == b[|b| - |l|..][|l| - 1];
  }

  /** The drawing of a directory that draws anything does not end in a line break. */
  lemma TreeEnd(dir: FsNode, at: seq<string>, margin: string, f: Filter, glob: GlobMatcher)
    requires dir.Directory? && PlainNames(dir) && Shown(dir, at, f, glob) != []
    ensures var b := BuildTreeString(dir, at, margin, f, glob); |b| > 0 && b[|b| - 1] != '\n'
  {
    var ds := Selected(dir, at, f, glob).entries;
    assert |ds| == |Shown(dir, at, f, glob)|;
    SelectedEntriesClean(dir, at, f, glob);
    JoinEnd(ds, margin);
    assert BuildTreeString(dir, at, margin, f, glob) == JoinEntries(ds, margin);
  }
}
