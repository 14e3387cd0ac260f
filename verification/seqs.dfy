/** The two array idioms the viewer uses on its lists: `find` (the first
    element that satisfies a test) and `filter`/`forEach`-with-`push` (keep,
    in order, what a test selects, transformed). */
module Seqs {

  import opened Optional

  /** Index of the first element satisfying `p`, as `Array.prototype.find` locates it. */
  function FirstIndex<T>(xs: seq<T>, p: T -> bool): (r: Option<nat>)
    ensures r.Some? ==> r.value < |xs| && p(xs[r.value])
    ensures r.Some? ==> forall j :: 0 <= j < r.value ==> !p(xs[j])
    ensures r.None? <==> forall j :: 0 <= j < |xs| ==> !p(xs[j])
    decreases |xs|
  {
    if |xs| == 0 then None
    else if p(xs[0]) then Some(0)
    else
      match FirstIndex(xs[1..], p)
      case None => None
      case Some(i) => Some(i + 1)
  }

  /** The outputs of `f` on the elements it selects, in input order: the
      pattern of a loop that pushes `y` onto a list whenever `f(x)` is `Some(y)`. */
  function FilterMap<T, U>(xs: seq<T>, f: T -> Option<U>): (ys: seq<U>)
    ensures |ys| <= |xs|
    decreases |xs|
  {
    if |xs| == 0 then []
    else
      FilterMap(xs[..|xs| - 1], f)
      + (match f(xs[|xs| - 1]) case Some(y) => [y] case None => [])
  }

  /** The positions of the elements `f` selects, in increasing order. */
  function Kept<T, U>(xs: seq<T>, f: T -> Option<U>): seq<nat>
    decreases |xs|
  {
    if |xs| == 0 then []
    else Kept(xs[..|xs| - 1], f) + (if f(xs[|xs| - 1]).Some? then [|xs| - 1] else [])
  }

  ghost predicate StrictlyIncreasing(idx: seq<nat>) {
    forall k, l :: 0 <= k < l < |idx| ==> idx[k] < idx[l]
  }

  /** Every kept position is in range, selected, and later than the ones before it. */
  lemma {:induction false} KeptInOrder<T, U>(xs: seq<T>, f: T -> Option<U>)
    ensures var idx := Kept(xs, f);
      && (forall k :: 0 <= k < |idx| ==> idx[k] < |xs| && f(xs[idx[k]]).Some?)
      && StrictlyIncreasing(idx)
    decreases |xs|
  {
    if |xs| > 0 {
      var n := |xs| - 1;
      var front := xs[..n];
      KeptInOrder(front, f);
      var idx0 := Kept(front, f);
      assert forall k :: 0 <= k < |idx0| ==> front[idx0[k]] == xs[idx0[k]];
    }
  }

  /** A position is kept exactly when `f` selects the element there. */
  lemma {:induction false} KeptComplete<T, U>(xs: seq<T>, f: T -> Option<U>)
    ensures forall i :: 0 <= i < |xs| ==> (f(xs[i]).Some? <==> i in Kept(xs, f))
    decreases |xs|
  {
    if |xs| > 0 {
      var n := |xs| - 1;
      var front := xs[..n];
      KeptComplete(front, f);
      KeptInOrder(front, f);
      var idx0 := Kept(front, f);
      assert Kept(xs, f) == idx0 + (if f(xs[n]).Some? then [n] else []);
      assert forall i :: 0 <= i < n ==> front[i] == xs[i];
    }
  }

  /** The k-th output of `FilterMap` is `f` applied to the k-th kept element. */
  lemma {:induction false} FilterMapAt<T, U>(xs: seq<T>, f: T -> Option<U>)
    ensures var idx := Kept(xs, f);
      && |FilterMap(xs, f)| == |idx|
      && (forall k :: 0 <= k < |idx| ==>
            idx[k] < |xs| && f(xs[idx[k]]).Some? && FilterMap(xs, f)[k] == f(xs[idx[k]]).value)
    decreases |xs|
  {
    KeptInOrder(xs, f);
    if |xs| > 0 {
      var n := |xs| - 1;
      var front := xs[..n];
      FilterMapAt(front, f);
      var idx0 := Kept(front, f);
      assert forall k :: 0 <= k < |idx0| ==> front[idx0[k]] == xs[idx0[k]];
    }
  }

  /** `FilterMap` keeps exactly the selected elements, each once, in input
      order: its k-th output is `f` of the k-th selected element. */
  lemma FilterMapExact<T, U>(xs: seq<T>, f: T -> Option<U>)
    ensures var idx := Kept(xs, f);
      && |FilterMap(xs, f)| == |idx|
      && StrictlyIncreasing(idx)
      && (forall k :: 0 <= k < |idx| ==> idx[k] < |xs| && f(xs[idx[k]]).Some?)
      && (forall i :: 0 <= i < |xs| ==> (f(xs[i]).Some? <==> i in idx))
      && (forall k :: 0 <= k < |idx| ==> FilterMap(xs, f)[k] == f(xs[idx[k]]).value)
  {
    KeptInOrder(xs, f);
    KeptComplete(xs, f);
    FilterMapAt(xs, f);
  }

  ghost predicate SortedBy<T>(xs: seq<T>, le: (T, T) -> bool) {
    forall i, j :: 0 <= i < j < |xs| ==> le(xs[i], xs[j])
  }

  /** Selecting elements never reorders them: an ordered input gives an ordered result. */
  lemma FilterKeepsSorted<T>(xs: seq<T>, keep: T -> bool, le: (T, T) -> bool)
    requires SortedBy(xs, le)
    ensures SortedBy(FilterMap(xs, Selecting(keep)), le)
  {
    var f := Selecting(keep);
    FilterMapExact(xs, f);
    var idx := Kept(xs, f);
    var ys := FilterMap(xs, f);
    forall k, l | 0 <= k < l < |ys|
      ensures le(ys[k], ys[l])
    {
      assert ys[k] == xs[idx[k]] && ys[l] == xs[idx[l]];
    }
  }

  /** The selection function of a plain `filter`: keep `x` itself when `keep(x)`. */
  function Selecting<T>(keep: T -> bool): T -> Option<T> {
    x => if keep(x) then Some(x) else None
  }
}
