/** Sequence operations shared by the parsers and the correlator. */
module Sequences {
  import opened Wrappers

  /** The images of the items that `f` keeps, in input order: a `for` loop
      that appends what it can convert and `continue`s past the rest. */
  function FilterMap<A, B>(xs: seq<A>, f: A -> Option<B>): (r: seq<B>)
    ensures |r| <= |xs|
  {
    if xs == [] then []
    else
      var last := f(xs[|xs| - 1]);
      FilterMap(xs[..|xs| - 1], f) + (if last.Some? then [last.value] else [])
  }

  ghost predicate Increasing(ks: seq<nat>)
  {
    forall k, l :: 0 <= k < l < |ks| ==> ks[k] < ks[l]
  }

  /** `ks` lists, in increasing order, exactly the positions of `xs` that `f`
      keeps, and `r[k]` is the image of the item at position `ks[k]`. */
  ghost predicate KeptPositions<A, B>(xs: seq<A>, f: A -> Option<B>, ks: seq<nat>, r: seq<B>)
  {
    && |ks| == |r|
    && Increasing(ks)
    && (forall k :: 0 <= k < |ks| ==> ks[k] < |xs| && f(xs[ks[k]]) == Some(r[k]))
    && (forall i :: 0 <= i < |xs| && f(xs[i]).Some? ==> i in ks)
  }

  /** The positions of `xs` that `f` keeps, in increasing order. */
  ghost function Kept<A, B>(xs: seq<A>, f: A -> Option<B>): seq<nat>
  {
    if xs == [] then []
    else Kept(xs[..|xs| - 1], f) + (if f(xs[|xs| - 1]).Some? then [|xs| - 1] else [])
  }

  /** FilterMap keeps every item `f` converts, drops every other one, and
      keeps the survivors in input order (at most one output per input). */
  lemma {:induction false} FilterMapKeepsExactly<A, B>(xs: seq<A>, f: A -> Option<B>)
    ensures KeptPositions(xs, f, Kept(xs, f), FilterMap(xs, f))
  {
    if xs != [] {
      var n := |xs| - 1;
      var init := xs[..n];
      FilterMapKeepsExactly(init, f);
      var ks := Kept(init, f);
      var r := FilterMap(xs, f);
      if f(xs[n]).Some? {
        assert r == FilterMap(init, f) + [f(xs[n]).value];
        assert r[..|r| - 1] == FilterMap(init, f);
        KeepOneMore(xs, f, ks, r);
      } else {
        assert r == FilterMap(init, f);
        forall i | 0 <= i < |xs| && f(xs[i]).Some?
          ensures i in ks
        {
          assert init[i] == xs[i];
        }
        assert KeptPositions(xs, f, ks, r);
      }
    }
  }

  lemma KeepOneMore<A, B>(xs: seq<A>, f: A -> Option<B>, ks: seq<nat>, r: seq<B>)
    requires xs != [] && f(xs[|xs| - 1]).Some?
    requires r != [] && r[|r| - 1] == f(xs[|xs| - 1]).value
    requires KeptPositions(xs[..|xs| - 1], f, ks, r[..|r| - 1])
    ensures KeptPositions(xs, f, ks + [|xs| - 1], r)
  {
    var n := |xs| - 1;
    var ks' := ks + [n];
    forall k | 0 <= k < |ks'|
      ensures ks'[k] < |xs| && f(xs[ks'[k]]) == Some(r[k])
    {
      if k < |ks| {
        assert r[..|r| - 1][k] == r[k];
        assert xs[..n][ks[k]] == xs[ks[k]];
      }
    }
    forall i | 0 <= i < |xs| && f(xs[i]).Some?
      ensures i in ks'
    {
      if i < n {
        assert xs[..n][i] == xs[i];
        assert i in ks;
      } else {
        assert ks'[|ks|] == n;
      }
    }
  }

  /** The position of the first item satisfying `p`, if any. */
  function FirstIndex<T>(xs: seq<T>, p: T -> bool): (r: Option<nat>)
    ensures r.Some? ==> r.value < |xs| && p(xs[r.value]) && forall k :: 0 <= k < r.value ==> !p(xs[k])
    ensures r.None? ==> forall k :: 0 <= k < |xs| ==> !p(xs[k])
  {
    if xs == [] then None
    else if p(xs[0]) then Some(0)
    else
      match FirstIndex(xs[1..], p)
      case Some(j) => Some(j + 1)
      case None => None
  }
}
