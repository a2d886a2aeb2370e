/**
 * The two Kotlin collection operations the debug strings rely on: `groupBy`, whose
 * `LinkedHashMap` keeps keys in the order they first appear and values in the order
 * they come, and `Set.plus`, whose `LinkedHashSet` keeps the left keys first.
 */
module Grouping {

  type Pair = (string, string)

  /** A `Map<String, List<String>>` in its iteration order. */
  type Groups = seq<(string, seq<string>)>

  function Keys(gs: Groups): (ks: seq<string>)
    ensures |ks| == |gs|
  {
    if |gs| == 0 then [] else [gs[0].0] + Keys(gs[1..])
  }

  predicate Distinct(ks: seq<string>) {
    forall i, j :: 0 <= i < j < |ks| ==> ks[i] != ks[j]
  }

  /** `map[k] ?: emptyList()`. */
  function Lookup(gs: Groups, k: string): seq<string> {
    if |gs| == 0 then [] else if gs[0].0 == k then gs[0].1 else Lookup(gs[1..], k)
  }

  /** One step of `groupBy`: the value joins its key's list, which is added at the end if new. */
  function AddTo(gs: Groups, k: string, v: string): Groups {
    if |gs| == 0 then [(k, [v])]
    else if gs[0].0 == k then [(k, gs[0].1 + [v])] + gs[1..]
    else [gs[0]] + AddTo(gs[1..], k, v)
  }

  /** `groupBy({ it.first }, { it.second })`. */
  function GroupBy(ps: seq<Pair>): Groups {
    if |ps| == 0 then [] else
      var last := ps[|ps| - 1];
      AddTo(GroupBy(ps[..|ps| - 1]), last.0, last.1)
  }

  /** The values paired with `k`, in order: the reference for what `groupBy` collects. */
  function ValuesOf(ps: seq<Pair>, k: string): seq<string> {
    if |ps| == 0 then [] else
      var last := ps[|ps| - 1];
      ValuesOf(ps[..|ps| - 1], k) + (if last.0 == k then [last.1] else [])
  }

  lemma {:induction false} LookupAddTo(gs: Groups, k: string, v: string, q: string)
    requires Distinct(Keys(gs))
    ensures Lookup(AddTo(gs, k, v), q) == Lookup(gs, q) + (if q == k then [v] else [])
  {
    if |gs| > 0 && gs[0].0 != k {
      assert Keys(gs)[1..] == Keys(gs[1..]);
      assert [gs[0]] + AddTo(gs[1..], k, v) == AddTo(gs, k, v);
      LookupAddTo(gs[1..], k, v, q);
      if q == gs[0].0 {
        forall j | 0 <= j < |gs| - 1
          ensures Keys(gs[1..])[j] != q
        {
          assert Keys(gs)[j + 1] == Keys(gs[1..])[j] && Keys(gs)[0] == q;
        }
        LookupAbsent(gs[1..], q);
        LookupAbsent(AddTo(gs[1..], k, v), q) by {
          KeysAddTo(gs[1..], k, v);
        }
      }
    }
  }

  lemma {:induction false} LookupAbsent(gs: Groups, q: string)
    requires q !in Keys(gs)
    ensures Lookup(gs, q) == []
  {
    if |gs| > 0 {
      assert Keys(gs)[0] == gs[0].0;
      assert Keys(gs)[1..] == Keys(gs[1..]);
      LookupAbsent(gs[1..], q);
    }
  }

  lemma {:induction false} KeysAddTo(gs: Groups, k: string, v: string)
    ensures Keys(AddTo(gs, k, v)) == if k in Keys(gs) then Keys(gs) else Keys(gs) + [k]
  {
    if |gs| > 0 {
      KeysAddTo(gs[1..], k, v);
      assert Keys(gs) == [gs[0].0] + Keys(gs[1..]);
      if gs[0].0 == k {
        assert Keys(AddTo(gs, k, v)) == [k] + Keys(gs[1..]);
      } else {
        assert Keys(AddTo(gs, k, v)) == [gs[0].0] + Keys(AddTo(gs[1..], k, v));
      }
    }
  }

  lemma DistinctSnoc(ks: seq<string>, k: string)
    requires Distinct(ks) && k !in ks
    ensures Distinct(ks + [k])
  {
  }

  /** Each key's list holds the values paired with it, in order. */
  lemma {:induction false} GroupByLookup(ps: seq<Pair>, k: string)
    ensures Distinct(Keys(GroupBy(ps)))
    ensures Lookup(GroupBy(ps), k) == ValuesOf(ps, k)
  {
    if |ps| > 0 {
      var last := ps[|ps| - 1];
      var g := GroupBy(ps[..|ps| - 1]);
      GroupByLookup(ps[..|ps| - 1], k);
      LookupAddTo(g, last.0, last.1, k);
      KeysAddTo(g, last.0, last.1);
      if last.0 !in Keys(g) {
        DistinctSnoc(Keys(g), last.0);
      }
    }
  }

  /** Every key comes from some pair. */
  lemma {:induction false} KeyHasPair(ps: seq<Pair>, k: string) returns (i: nat)
    requires k in Keys(GroupBy(ps))
    ensures i < |ps| && ps[i].0 == k
  {
    var n := |ps| - 1;
    var g := GroupBy(ps[..n]);
    KeysAddTo(g, ps[n].0, ps[n].1);
    if k in Keys(g) {
      i := KeyHasPair(ps[..n], k);
      assert ps[..n][i] == ps[i];
    } else {
      i := n;
    }
  }

  /** Every pair's first component is a key. */
  lemma {:induction false} PairHasKey(ps: seq<Pair>, i: nat)
    requires i < |ps|
    ensures ps[i].0 in Keys(GroupBy(ps))
  {
    var n := |ps| - 1;
    var g := GroupBy(ps[..n]);
    KeysAddTo(g, ps[n].0, ps[n].1);
    if i < n {
      PairHasKey(ps[..n], i);
      assert ps[..n][i] == ps[i];
    }
  }

  /** The keys are the first components, each once. */
  lemma GroupByKeys(ps: seq<Pair>)
    ensures Distinct(Keys(GroupBy(ps)))
    ensures forall k :: k in Keys(GroupBy(ps)) <==> exists i :: 0 <= i < |ps| && ps[i].0 == k
  {
    GroupByLookup(ps, "");
    forall k | k in Keys(GroupBy(ps))
      ensures exists i :: 0 <= i < |ps| && ps[i].0 == k
    {
      var i := KeyHasPair(ps, k);
    }
    forall i | 0 <= i < |ps|
      ensures ps[i].0 in Keys(GroupBy(ps))
    {
      PairHasKey(ps, i);
    }
  }

  /** A key's list is never empty. */
  lemma GroupsNotEmpty(ps: seq<Pair>, k: string)
    requires k in Keys(GroupBy(ps))
    ensures Lookup(GroupBy(ps), k) != []
  {
    GroupByLookup(ps, k);
    var i := KeyHasPair(ps, k);
    ValuesOfHas(ps, k, i);
  }

  lemma {:induction false} ValuesOfHas(ps: seq<Pair>, k: string, i: nat)
    requires i < |ps| && ps[i].0 == k
    ensures ValuesOf(ps, k) != []
  {
    var n := |ps| - 1;
    if i < n {
      assert ps[..n][i] == ps[i];
      ValuesOfHas(ps[..n], k, i);
    }
  }

  /** `a + b` on two key sets: the elements of `a`, then those of `b` not already there. */
  function Union(a: seq<string>, b: seq<string>): seq<string> {
    if |b| == 0 then a else
      var u := Union(a, b[..|b| - 1]);
      var k := b[|b| - 1];
      if k in u then u else u + [k]
  }

  /** The union starts with `a`, holds each key of either side once, and nothing else. */
  lemma {:induction false} UnionKeys(a: seq<string>, b: seq<string>)
    requires Distinct(a)
    ensures var u := Union(a, b);
      Distinct(u) && |a| <= |u| && u[..|a|] == a
      && forall k :: k in u <==> k in a || k in b
  {
    if |b| > 0 {
      var n := |b| - 1;
      UnionKeys(a, b[..n]);
      var u := Union(a, b[..n]);
      assert forall k :: k in b <==> k in b[..n] || k == b[n] by {
        assert b == b[..n] + [b[n]];
      }
      if b[n] !in u {
        DistinctSnoc(u, b[n]);
        assert (u + [b[n]])[..|a|] == u[..|a|];
      }
    }
  }
}
