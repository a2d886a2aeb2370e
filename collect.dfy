/**
 * Applying a function to each element of a list in order, as the tasks' `forEach`
 * loops do: `Traverse` stops at the first element the function gives no value for.
 */
module Collect {
  import opened Wrappers

  function Traverse<T, U>(xs: seq<T>, f: T -> Option<U>): (r: Option<seq<U>>)
    ensures r.Some? ==> |r.value| == |xs|
  {
    if |xs| == 0 then Some([]) else
      var n := |xs| - 1;
      match (Traverse(xs[..n], f), f(xs[n]))
      case (Some(ys), Some(y)) => Some(ys + [y])
      case _ => None
  }

  /** There is a result exactly when every element gives a value. */
  lemma {:induction false} TraverseSome<T, U>(xs: seq<T>, f: T -> Option<U>)
    ensures Traverse(xs, f).Some? <==> forall i :: 0 <= i < |xs| ==> f(xs[i]).Some?
  {
    if |xs| > 0 {
      var n := |xs| - 1;
      TraverseSome(xs[..n], f);
      assert forall k :: 0 <= k < n ==> xs[..n][k] == xs[k];
    }
  }

  /** Each element of the result is the value of the element at the same place. */
  lemma {:induction false} TraverseAt<T, U>(xs: seq<T>, f: T -> Option<U>, i: nat)
    requires i < |xs| && Traverse(xs, f).Some?
    ensures f(xs[i]) == Some(Traverse(xs, f).value[i])
  {
    var n := |xs| - 1;
    if i < n {
      TraverseAt(xs[..n], f, i);
      assert xs[..n][i] == xs[i];
    }
  }

  lemma TraverseSnoc<T, U>(xs: seq<T>, f: T -> Option<U>, i: nat, ys: seq<U>, y: U)
    requires i < |xs| && Traverse(xs[..i], f) == Some(ys) && f(xs[i]) == Some(y)
    ensures Traverse(xs[..i + 1], f) == Some(ys + [y])
  {
    assert xs[..i + 1][..i] == xs[..i];
  }

  lemma TraverseFail<T, U>(xs: seq<T>, f: T -> Option<U>, i: nat)
    requires i < |xs| && f(xs[i]).None?
    ensures Traverse(xs, f).None?
  {
    TraverseSome(xs, f);
  }

  function MapSeq<T, U>(xs: seq<T>, f: T -> U): (ys: seq<U>)
    ensures |ys| == |xs|
  {
    if |xs| == 0 then [] else
      var n := |xs| - 1;
      MapSeq(xs[..n], f) + [f(xs[n])]
  }

  lemma {:induction false} MapSeqAt<T, U>(xs: seq<T>, f: T -> U, i: nat)
    requires i < |xs|
    ensures MapSeq(xs, f)[i] == f(xs[i])
  {
    var n := |xs| - 1;
    if i < n {
      MapSeqAt(xs[..n], f, i);
      assert xs[..n][i] == xs[i];
    }
  }

  lemma MapSeqSnoc<T, U>(xs: seq<T>, f: T -> U, i: nat)
    requires i < |xs|
    ensures MapSeq(xs[..i + 1], f) == MapSeq(xs[..i], f) + [f(xs[i])]
  {
    assert xs[..i + 1][..i] == xs[..i];
  }
}
