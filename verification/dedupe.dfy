/**
 * `Array.from(new Set(xs))`: a `Set` remembers insertion order and ignores
 * a value it already holds, so the array it gives back lists each value of
 * `xs` once, at the place of its first occurrence. Values are compared
 * with SameValueZero, which on the modelled values is plain equality.
 */
module Dedupe {

  import opened Filtering

  /** No value occurs twice in `s`. */
  predicate NoDuplicates<T(==)>(s: seq<T>) {
    forall i, j :: 0 <= i < j < |s| ==> s[i] != s[j]
  }

  /** Position of the first occurrence of `x` in `xs`. */
  function FirstIndex<T(==)>(xs: seq<T>, x: T): (i: nat)
    requires x in xs
    ensures i < |xs| && xs[i] == x
    ensures x !in xs[..i]
  {
    if xs[0] == x then 0
    else
      assert x in xs[1..];
      1 + FirstIndex(xs[1..], x)
  }

  /** The values of `xs`, each once, in order of first occurrence. */
  function Distinct<T(==)>(xs: seq<T>): (r: seq<T>)
    ensures NoDuplicates(r)
    ensures forall i :: 0 <= i < |r| ==> r[i] in xs
    ensures forall i :: 0 <= i < |xs| ==> xs[i] in r
    ensures |r| <= |xs|
  {
    if xs == [] then []
    else
      var r := Distinct(xs[..|xs| - 1]);
      var x := xs[|xs| - 1];
      assert xs == xs[..|xs| - 1] + [x];
      if x in r then r else r + [x]
  }

  /** The values of `Distinct(xs)` come in the order of their first
      occurrence in `xs`. Together with the contract of `Distinct` this pins
      its result down completely. */
  lemma DistinctFirstOccurrenceOrder<T>(xs: seq<T>)
    ensures forall i, j :: 0 <= i < j < |Distinct(xs)| ==>
      FirstIndex(xs, Distinct(xs)[i]) < FirstIndex(xs, Distinct(xs)[j])
  {
    forall i, j | 0 <= i < j < |Distinct(xs)|
      ensures FirstIndex(xs, Distinct(xs)[i]) < FirstIndex(xs, Distinct(xs)[j])
    {
      DistinctPairOrder(xs, i, j);
    }
  }

  /** One pair of `DistinctFirstOccurrenceOrder`, by induction on `xs`. */
  lemma {:induction false} DistinctPairOrder<T>(xs: seq<T>, i: nat, j: nat)
    requires i < j < |Distinct(xs)|
    ensures FirstIndex(xs, Distinct(xs)[i]) < FirstIndex(xs, Distinct(xs)[j])
  {
    var pre := xs[..|xs| - 1];
    var x := xs[|xs| - 1];
    var r := Distinct(xs);
    var q := Distinct(pre);
    assert xs == pre + [x];
    assert r[i] == q[i];
    assert q[i] in pre;
    FirstIndexPrefix(pre, x, q[i]);
    if j < |q| {
      assert r[j] == q[j];
      assert q[j] in pre;
      FirstIndexPrefix(pre, x, q[j]);
      DistinctPairOrder(pre, i, j);
    } else {
      assert r == q + [x] && r[j] == x;
      assert x !in pre;
      assert FirstIndex(xs, x) == |pre|;
    }
  }

  /** Appending to `pre` does not move the first occurrence of a value of `pre`. */
  lemma {:induction false} FirstIndexPrefix<T>(pre: seq<T>, x: T, y: T)
    requires y in pre
    ensures FirstIndex(pre + [x], y) == FirstIndex(pre, y)
  {
    if pre[0] != y {
      assert (pre + [x])[1..] == pre[1..] + [x];
      FirstIndexPrefix(pre[1..], x, y);
    }
  }

  /** Filtering before or after removing repeats gives the same list. */
  lemma {:induction false} DistinctFilterCommute<T>(xs: seq<T>, p: T -> bool)
    ensures Distinct(Filter(xs, p)) == Filter(Distinct(xs), p)
  {
    if xs != [] {
      var pre := xs[..|xs| - 1];
      var x := xs[|xs| - 1];
      DistinctFilterCommute(pre, p);
      var fp := Filter(pre, p);
      var fxs := Filter(xs, p);
      var dp := Distinct(pre);
      assert x in Filter(dp, p) <==> x in Distinct(fp);
      if p(x) {
        assert fxs == fp + [x];
        assert fxs[..|fxs| - 1] == fp;
        if x !in dp {
          var d := dp + [x];
          assert Distinct(xs) == d;
          assert d[..|d| - 1] == dp;
        }
      } else {
        assert fxs == fp;
        if x !in dp {
          var d := dp + [x];
          assert d[..|d| - 1] == dp;
        }
      }
    }
  }

  /** Builds the list the way a `Set` does: walk `xs`, remember the values
      seen so far, append a value the first time it shows up. */
  method ArrayFromSet<T(==)>(xs: seq<T>) returns (r: seq<T>)
    ensures r == Distinct(xs)
    ensures NoDuplicates(r)
    ensures forall i :: 0 <= i < |xs| ==> xs[i] in r
  {
    var seen: set<T> := {};
    r := [];
    var n := 0;
    while n < |xs|
      invariant n <= |xs|
      invariant r == Distinct(xs[..n])
      invariant seen == set i | 0 <= i < |r| :: r[i]
    {
      var x := xs[n];
      assert xs[..n + 1][..n] == xs[..n];
      if x !in seen {
        seen := seen + {x};
        r := r + [x];
      }
      n := n + 1;
    }
    assert xs[..n] == xs;
  }

  /** Filtering cannot introduce a repeat. */
  lemma FilterNoDuplicates<T>(xs: seq<T>, p: T -> bool)
    requires NoDuplicates(xs)
    ensures NoDuplicates(Filter(xs, p))
  {
    var r := Filter(xs, p);
    forall i, j | 0 <= i < j < |r| ensures r[i] != r[j] {
      FilterOrder(xs, p, i, j);
    }
  }
}
