/**
  The array pipelines the engine is built from, `xs.filter(p)` and
  `xs.map(f).filter(y => y !== null)`, over sequences. Each result is
  described through the positions of the elements it keeps.
 */
module Lists {
  import opened Optional

  /** `xs.filter(p)`: the elements satisfying `p`, in order. */
  function Filter<X>(xs: seq<X>, p: X -> bool): (r: seq<X>)
    ensures |r| <= |xs|
    ensures forall k :: 0 <= k < |r| ==> p(r[k])
  {
    if xs == [] then []
    else
      var init := Filter(xs[..|xs| - 1], p);
      if p(xs[|xs| - 1]) then init + [xs[|xs| - 1]] else init
  }

  /** The positions of `xs` that `Filter` keeps. */
  function FilterKept<X>(xs: seq<X>, p: X -> bool): seq<nat> {
    if xs == [] then []
    else
      var init := FilterKept(xs[..|xs| - 1], p);
      if p(xs[|xs| - 1]) then init + [|xs| - 1] else init
  }

  /** `ks` lists, in increasing order, some positions of a sequence of
      length `n`. */
  predicate Positions(ks: seq<nat>, n: nat) {
    && (forall k :: 0 <= k < |ks| ==> ks[k] < n)
    && (forall j, k :: 0 <= j < k < |ks| ==> ks[j] < ks[k])
  }

  /** `Filter` keeps exactly the elements satisfying `p`, in their order:
      its `k`-th element is the element at the `k`-th kept position, and
      every position whose element satisfies `p` is kept. */
  lemma {:induction false} FilterPositions<X>(xs: seq<X>, p: X -> bool)
    ensures |FilterKept(xs, p)| == |Filter(xs, p)| && Positions(FilterKept(xs, p), |xs|)
    ensures forall k :: 0 <= k < |FilterKept(xs, p)| ==> xs[FilterKept(xs, p)[k]] == Filter(xs, p)[k]
    ensures forall i :: 0 <= i < |xs| && p(xs[i]) ==> i in FilterKept(xs, p)
  {
    if xs != [] {
      var init := xs[..|xs| - 1];
      FilterPositions(init, p);
      forall i | 0 <= i < |init| ensures xs[i] == init[i] { }
    }
  }

  /** `Filter` drops elements and invents none. */
  lemma {:induction false} FilterSubMultiset<X>(xs: seq<X>, p: X -> bool)
    ensures multiset(Filter(xs, p)) <= multiset(xs)
  {
    if xs != [] {
      var init := xs[..|xs| - 1];
      FilterSubMultiset(init, p);
      assert xs == init + [xs[|xs| - 1]];
    }
  }

  /** `xs.map(f).filter(y => y !== null)`, with `None` for `null`. */
  function FilterMap<X, Y>(xs: seq<X>, f: X -> Option<Y>): (r: seq<Y>)
    ensures |r| <= |xs|
  {
    if xs == [] then []
    else
      var init := FilterMap(xs[..|xs| - 1], f);
      match f(xs[|xs| - 1])
      case None => init
      case Some(y) => init + [y]
  }

  /** The positions of `xs` whose image `FilterMap` keeps. */
  function FilterMapKept<X, Y>(xs: seq<X>, f: X -> Option<Y>): seq<nat> {
    if xs == [] then []
    else
      var init := FilterMapKept(xs[..|xs| - 1], f);
      if f(xs[|xs| - 1]).Some? then init + [|xs| - 1] else init
  }

  /** `FilterMap` keeps exactly the non-`None` images, in order. */
  lemma {:induction false} FilterMapPositions<X, Y>(xs: seq<X>, f: X -> Option<Y>)
    ensures |FilterMapKept(xs, f)| == |FilterMap(xs, f)| && Positions(FilterMapKept(xs, f), |xs|)
    ensures forall k :: 0 <= k < |FilterMapKept(xs, f)| ==> f(xs[FilterMapKept(xs, f)[k]]) == Some(FilterMap(xs, f)[k])
    ensures forall i :: 0 <= i < |xs| && f(xs[i]).Some? ==> i in FilterMapKept(xs, f)
  {
    if xs != [] {
      var init := xs[..|xs| - 1];
      FilterMapPositions(init, f);
      forall i | 0 <= i < |init| ensures xs[i] == init[i] { }
    }
  }

  /** `xs.filter(p).map(f).filter(y => y !== null)`: the result is the list
      of images of the positions that pass `p` and have an image, in order;
      `ks` lists those positions. */
  lemma FilterThenFilterMap<X, Y>(xs: seq<X>, p: X -> bool, f: X -> Option<Y>) returns (ks: seq<nat>)
    ensures |ks| == |FilterMap(Filter(xs, p), f)| && Positions(ks, |xs|)
    ensures forall k :: 0 <= k < |ks| ==> p(xs[ks[k]]) && f(xs[ks[k]]) == Some(FilterMap(Filter(xs, p), f)[k])
    ensures forall i :: 0 <= i < |xs| && p(xs[i]) && f(xs[i]).Some? ==> i in ks
  {
    var kept := Filter(xs, p);
    FilterPositions(xs, p);
    FilterMapPositions(kept, f);
    var ks1, ks2 := FilterKept(xs, p), FilterMapKept(kept, f);
    ks := Compose(ks1, ks2);
    ComposePositions(ks1, ks2, |xs|);
    forall k | 0 <= k < |ks| ensures p(xs[ks[k]]) && f(xs[ks[k]]) == Some(FilterMap(kept, f)[k]) {
      assert kept[ks2[k]] == xs[ks1[ks2[k]]];
    }
    forall i | 0 <= i < |xs| && p(xs[i]) && f(xs[i]).Some? ensures i in ks {
      var a :| 0 <= a < |ks1| && ks1[a] == i;
      assert kept[a] == xs[i];
      var k :| 0 <= k < |ks2| && ks2[k] == a;
      assert ks[k] == i;
    }
  }

  /** The positions `ks1[ks2[k]]`: positions within positions. */
  function Compose(ks1: seq<nat>, ks2: seq<nat>): (ks: seq<nat>)
    requires forall k :: 0 <= k < |ks2| ==> ks2[k] < |ks1|
    ensures |ks| == |ks2|
    ensures forall k :: 0 <= k < |ks| ==> ks[k] == ks1[ks2[k]]
  {
    seq(|ks2|, k requires 0 <= k < |ks2| => ks1[ks2[k]])
  }

  /** Increasing positions taken at increasing positions are increasing. */
  lemma ComposePositions(ks1: seq<nat>, ks2: seq<nat>, n: nat)
    requires Positions(ks1, n) && Positions(ks2, |ks1|)
    ensures Positions(Compose(ks1, ks2), n)
  {
    var ks := Compose(ks1, ks2);
    forall a, b | 0 <= a < b < |ks| ensures ks[a] < ks[b] {
      assert ks2[a] < ks2[b];
    }
  }
}
