/**
 * Kotlin's `sorted()` and `sortedWith(comparator)`: a stable sort, stated as
 * insertion into an ordered sequence, with an order given as a `le` relation.
 */
module Sorting {
  import opened Text

  ghost predicate IsTotal<T(!new)>(le: (T, T) -> bool) {
    forall a, b :: le(a, b) || le(b, a)
  }

  ghost predicate IsTransitive<T(!new)>(le: (T, T) -> bool) {
    forall a, b, c :: le(a, b) && le(b, c) ==> le(a, c)
  }

  /** `le` orders no two distinct elements of `s` both ways. */
  ghost predicate AntisymmetricOn<T>(le: (T, T) -> bool, s: seq<T>) {
    forall i, j :: 0 <= i < |s| && 0 <= j < |s| && le(s[i], s[j]) && le(s[j], s[i]) ==> s[i] == s[j]
  }

  predicate Sorted<T>(s: seq<T>, le: (T, T) -> bool) {
    forall i, j :: 0 <= i < j < |s| ==> le(s[i], s[j])
  }

  /** Inserts `x` before the first element it is `le` to, so that `x` stays ahead of its equals that come later. */
  function Insert<T>(x: T, s: seq<T>, le: (T, T) -> bool): (r: seq<T>)
    ensures multiset(r) == multiset(s) + multiset{x}
    ensures |r| == |s| + 1
  {
    if |s| == 0 then [x]
    else if le(x, s[0]) then [x] + s
    else
      assert s == [s[0]] + s[1..];
      [s[0]] + Insert(x, s[1..], le)
  }

  /** The stable sort: the first element is inserted into the sorted rest. */
  function Sort<T>(s: seq<T>, le: (T, T) -> bool): (r: seq<T>)
    ensures multiset(r) == multiset(s)
    ensures |r| == |s|
  {
    if |s| == 0 then []
    else
      assert s == [s[0]] + s[1..];
      Insert(s[0], Sort(s[1..], le), le)
  }

  lemma {:induction false} InsertSorted<T(!new)>(x: T, s: seq<T>, le: (T, T) -> bool)
    requires IsTotal(le) && IsTransitive(le)
    requires Sorted(s, le)
    ensures Sorted(Insert(x, s, le), le)
  {
    if |s| > 0 && !le(x, s[0]) {
      InsertSorted(x, s[1..], le);
      var r := Insert(x, s[1..], le);
      assert le(s[0], x);
      forall k | 0 <= k < |r|
        ensures le(s[0], r[k])
      {
        assert r[k] in multiset(r);
        assert r[k] in multiset(s[1..]) + multiset{x};
        if r[k] != x {
          assert r[k] in multiset(s[1..]);
          var m :| 0 <= m < |s[1..]| && s[1..][m] == r[k];
          assert s[1 + m] == r[k];
        }
      }
    }
  }

  /** `Sort` orders its result. */
  lemma {:induction false} SortSorted<T(!new)>(s: seq<T>, le: (T, T) -> bool)
    requires IsTotal(le) && IsTransitive(le)
    ensures Sorted(Sort(s, le), le)
  {
    if |s| > 0 {
      SortSorted(s[1..], le);
      InsertSorted(s[0], Sort(s[1..], le), le);
    }
  }

  lemma SortedTail<T>(s: seq<T>, le: (T, T) -> bool)
    requires |s| > 0 && Sorted(s, le)
    ensures Sorted(s[1..], le)
  {
  }

  /** Two sorted arrangements of the same elements start with the same element. */
  lemma SortedHeads<T(!new)>(a: seq<T>, b: seq<T>, le: (T, T) -> bool)
    requires Sorted(a, le) && Sorted(b, le)
    requires multiset(a) == multiset(b)
    requires AntisymmetricOn(le, a)
    requires |a| > 0
    ensures |b| > 0 && a[0] == b[0]
  {
    assert a[0] in multiset(b);
    var j :| 0 <= j < |b| && b[j] == a[0];
    assert b[0] in multiset(a);
    var i :| 0 <= i < |a| && a[i] == b[0];
    assert j == 0 || le(b[0], b[j]);
    assert i == 0 || le(a[0], a[i]);
  }

  lemma SameTails<T>(a: seq<T>, b: seq<T>)
    requires |a| > 0 && |b| > 0 && a[0] == b[0]
    requires multiset(a) == multiset(b)
    ensures multiset(a[1..]) == multiset(b[1..])
  {
    assert a == [a[0]] + a[1..];
    assert b == [b[0]] + b[1..];
    assert multiset(a[1..]) == multiset(a) - multiset{a[0]};
    assert multiset(b[1..]) == multiset(b) - multiset{b[0]};
  }

  /** Two sorted arrangements of the same elements are equal, when `le` does not tie distinct elements. */
  lemma {:induction false} SortedUnique<T(!new)>(a: seq<T>, b: seq<T>, le: (T, T) -> bool)
    requires Sorted(a, le) && Sorted(b, le)
    requires multiset(a) == multiset(b)
    requires AntisymmetricOn(le, a)
    ensures a == b
    decreases |a|
  {
    if |a| == 0 {
      assert |b| == |multiset(b)| == 0;
    } else {
      SortedHeads(a, b, le);
      SameTails(a, b);
      SortedTail(a, le);
      SortedTail(b, le);
      SortedUnique(a[1..], b[1..], le);
      assert a == [a[0]] + a[1..];
      assert b == [b[0]] + b[1..];
    }
  }

  /** Sorting does not depend on the order of its input, when `le` does not tie distinct elements. */
  lemma SortPermutationInvariant<T(!new)>(p: seq<T>, q: seq<T>, le: (T, T) -> bool)
    requires IsTotal(le) && IsTransitive(le)
    requires multiset(p) == multiset(q)
    requires forall x, y :: x in p && y in p && le(x, y) && le(y, x) ==> x == y
    ensures Sort(p, le) == Sort(q, le)
  {
    SortSorted(p, le);
    SortSorted(q, le);
    var a := Sort(p, le);
    forall i, j | 0 <= i < |a| && 0 <= j < |a| && le(a[i], a[j]) && le(a[j], a[i])
      ensures a[i] == a[j]
    {
      assert a[i] in multiset(p) && a[j] in multiset(p);
    }
    SortedUnique(a, Sort(q, le), le);
  }

  /** A sequence that is already in order is its own sort. */
  lemma SortOfSorted<T(!new)>(s: seq<T>, le: (T, T) -> bool)
    requires IsTotal(le) && IsTransitive(le)
    requires Sorted(s, le)
    requires forall x, y :: x in s && y in s && le(x, y) && le(y, x) ==> x == y
    ensures Sort(s, le) == s
  {
    SortSorted(s, le);
    var a := Sort(s, le);
    forall i, j | 0 <= i < |a| && 0 <= j < |a| && le(a[i], a[j]) && le(a[j], a[i])
      ensures a[i] == a[j]
    {
      assert a[i] in multiset(s) && a[j] in multiset(s);
    }
    SortedUnique(a, s, le);
  }

  /** `map(f)`: `f` applied to each element. */
  function Map<A, B>(f: A -> B, xs: seq<A>): (r: seq<B>)
    ensures |r| == |xs| && forall i :: 0 <= i < |xs| ==> r[i] == f(xs[i])
  {
    if |xs| == 0 then [] else [f(xs[0])] + Map(f, xs[1..])
  }

  lemma MapAppend<A, B>(f: A -> B, a: seq<A>, b: seq<A>)
    ensures Map(f, a + b) == Map(f, a) + Map(f, b)
  {
  }

  /** The image of `a + [x] + b` holds `f(x)` and the image of `a + b`. */
  lemma MapSplit<A, B>(f: A -> B, a: seq<A>, x: A, b: seq<A>)
    ensures multiset(Map(f, a + [x] + b)) == multiset(Map(f, a + b)) + multiset{f(x)}
  {
    MapAppend(f, a + [x], b);
    MapAppend(f, a, [x]);
    MapAppend(f, a, b);
    var ma, mb, y := Map(f, a), Map(f, b), f(x);
    assert Map(f, [x]) == [y];
    calc {
      multiset(ma + [y] + mb);
      multiset(ma) + multiset{y} + multiset(mb);
      multiset(ma + mb) + multiset{y};
    }
  }

  /** In a rearrangement of `xs`, the first element of `xs` sits between two parts that rearrange the rest. */
  lemma FindFirst<T>(xs: seq<T>, ys: seq<T>) returns (a: seq<T>, b: seq<T>)
    requires |xs| > 0 && multiset(xs) == multiset(ys)
    ensures ys == a + [xs[0]] + b
    ensures multiset(a + b) == multiset(xs[1..])
  {
    var x := xs[0];
    assert x in multiset(ys);
    var j :| 0 <= j < |ys| && ys[j] == x;
    a, b := ys[..j], ys[j + 1..];
    assert ys == a + [x] + b;
    assert xs == [x] + xs[1..];
    assert multiset(ys) == multiset(a + b) + multiset{x};
    assert multiset(a + b) == multiset(ys) - multiset{x};
    assert multiset(xs[1..]) == multiset(xs) - multiset{x};
  }

  /** Mapping two arrangements of the same elements gives two arrangements of the same results. */
  lemma {:induction false} MapPermutation<A, B>(f: A -> B, xs: seq<A>, ys: seq<A>)
    requires multiset(xs) == multiset(ys)
    ensures multiset(Map(f, xs)) == multiset(Map(f, ys))
    decreases |xs|
  {
    if |xs| == 0 {
      assert |ys| == |multiset(ys)| == 0;
    } else {
      var a, b := FindFirst(xs, ys);
      MapPermutation(f, xs[1..], a + b);
      MapSplit(f, a, xs[0], b);
      MapSplit(f, [], xs[0], xs[1..]);
      assert [] + [xs[0]] + xs[1..] == xs;
      assert [] + xs[1..] == xs[1..];
    }
  }

  /**
   * Mapping with `h` instead of `g` changes the multiset of results when the two
   * differ at one element and `h` gives `g`'s result there only where `g` does too.
   */
  lemma MapChangedAt<A, B>(g: A -> B, h: A -> B, xs: seq<A>, k: nat)
    requires k < |xs| && h(xs[k]) != g(xs[k])
    requires forall j :: 0 <= j < |xs| && h(xs[j]) == g(xs[k]) ==> g(xs[j]) == g(xs[k])
    ensures multiset(Map(h, xs)) != multiset(Map(g, xs))
  {
    FewerCopies(Map(g, xs), Map(h, xs), g(xs[k]), k);
  }

  lemma {:induction false} FewerCopies<T>(a: seq<T>, b: seq<T>, x: T, k: nat)
    requires |a| == |b| && k < |a|
    requires forall j :: 0 <= j < |a| && b[j] == x ==> a[j] == x
    requires a[k] == x && b[k] != x
    ensures multiset(b)[x] < multiset(a)[x]
    decreases |a|
  {
    var n := |a| - 1;
    assert a == a[..n] + [a[n]];
    assert b == b[..n] + [b[n]];
    if k < n {
      FewerCopies(a[..n], b[..n], x, k);
    } else {
      NoFewerCopies(a[..n], b[..n], x);
    }
  }

  lemma {:induction false} NoFewerCopies<T>(a: seq<T>, b: seq<T>, x: T)
    requires |a| == |b|
    requires forall j :: 0 <= j < |a| && b[j] == x ==> a[j] == x
    ensures multiset(b)[x] <= multiset(a)[x]
    decreases |a|
  {
    if |a| > 0 {
      var n := |a| - 1;
      assert a == a[..n] + [a[n]];
      assert b == b[..n] + [b[n]];
      NoFewerCopies(a[..n], b[..n], x);
    }
  }

  /** `String.compareTo` is a total order. */
  lemma LexLeIsOrder()
    ensures IsTotal(LexLe) && IsTransitive(LexLe)
    ensures forall a, b :: LexLe(a, b) && LexLe(b, a) ==> a == b
  {
    forall a, b ensures LexLe(a, b) || LexLe(b, a) {
      LexLeTotal(a, b);
    }
    forall a, b, c | LexLe(a, b) && LexLe(b, c) ensures LexLe(a, c) {
      LexLeTransitive(a, b, c);
    }
    forall a, b | LexLe(a, b) && LexLe(b, a) ensures a == b {
      LexLeAntisymmetric(a, b);
    }
  }

  /** `sorted()` on a list of strings: the same strings, in `compareTo` order. */
  function SortStrings(s: seq<string>): (r: seq<string>)
    ensures multiset(r) == multiset(s)
    ensures Sorted(r, LexLe)
  {
    LexLeIsOrder();
    SortSorted(s, LexLe);
    Sort(s, LexLe)
  }

  /** Sorted strings do not remember the order they were given in. */
  lemma SortStringsPermutationInvariant(p: seq<string>, q: seq<string>)
    requires multiset(p) == multiset(q)
    ensures SortStrings(p) == SortStrings(q)
  {
    LexLeIsOrder();
    SortPermutationInvariant(p, q, LexLe);
  }

  /** Strings already in `compareTo` order are left as they are. */
  lemma SortStringsOfSorted(s: seq<string>)
    requires Sorted(s, LexLe)
    ensures SortStrings(s) == s
  {
    LexLeIsOrder();
    SortOfSorted(s, LexLe);
  }
}
