/** `Array.prototype.filter` on sequences. */
module Filtering {

  /** `xs.filter(p)` */
  function Filter<T>(xs: seq<T>, p: T -> bool): (r: seq<T>)
    ensures |r| <= |xs|
    ensures forall i :: 0 <= i < |r| ==> p(r[i])
    ensures forall i :: 0 <= i < |r| ==> r[i] in xs
    ensures forall i :: 0 <= i < |xs| ==> p(xs[i]) ==> xs[i] in r
  {
    if xs == [] then []
    else
      var x := xs[|xs| - 1];
      assert xs == xs[..|xs| - 1] + [x];
      Filter(xs[..|xs| - 1], p) + (if p(x) then [x] else [])
  }

  /** Filtering keeps the relative order of what it keeps: it distributes
      over concatenation. */
  lemma {:induction false} FilterAppend<T>(xs: seq<T>, ys: seq<T>, p: T -> bool)
    ensures Filter(xs + ys, p) == Filter(xs, p) + Filter(ys, p)
    decreases |ys|
  {
    if ys == [] {
      assert xs + ys == xs;
    } else {
      var zs := xs + ys;
      assert zs[..|zs| - 1] == xs + ys[..|ys| - 1];
      FilterAppend(xs, ys[..|ys| - 1], p);
    }
  }

  /** A predicate that holds everywhere keeps everything. */
  lemma {:induction false} FilterAll<T>(xs: seq<T>, p: T -> bool)
    requires forall i :: 0 <= i < |xs| ==> p(xs[i])
    ensures Filter(xs, p) == xs
  {
    if xs != [] {
      FilterAll(xs[..|xs| - 1], p);
      assert xs == xs[..|xs| - 1] + [xs[|xs| - 1]];
    }
  }

  /** Two kept elements come from positions in the same order. */
  lemma {:induction false} FilterOrder<T>(xs: seq<T>, p: T -> bool, i: nat, j: nat)
    requires i < j < |Filter(xs, p)|
    ensures exists a, b :: 0 <= a < b < |xs| && xs[a] == Filter(xs, p)[i] && xs[b] == Filter(xs, p)[j]
  {
    var pre := xs[..|xs| - 1];
    var r := Filter(xs, p);
    var rp := Filter(pre, p);
    assert xs == pre + [xs[|xs| - 1]];
    if j < |rp| {
      FilterOrder(pre, p, i, j);
      var a, b :| 0 <= a < b < |pre| && pre[a] == rp[i] && pre[b] == rp[j];
      assert xs[a] == r[i] && xs[b] == r[j];
    } else {
      assert r[i] == rp[i];
      assert rp[i] in pre;
      var a :| 0 <= a < |pre| && pre[a] == rp[i];
      assert xs[a] == r[i] && xs[|xs| - 1] == r[j];
    }
  }

  /** Filtering by `p` after filtering by a weaker `q` is filtering by `p`. */
  lemma {:induction false} FilterFilter<T>(xs: seq<T>, q: T -> bool, p: T -> bool)
    requires forall x :: p(x) ==> q(x)
    ensures Filter(Filter(xs, q), p) == Filter(xs, p)
  {
    if xs != [] {
      var pre := xs[..|xs| - 1];
      var x := xs[|xs| - 1];
      FilterFilter(pre, q, p);
      var fq := Filter(xs, q);
      assert Filter(xs, p) == Filter(pre, p) + (if p(x) then [x] else []);
      if q(x) {
        assert fq == Filter(pre, q) + [x];
        assert fq[..|fq| - 1] == Filter(pre, q);
        assert Filter(fq, p) == Filter(Filter(pre, q), p) + (if p(x) then [x] else []);
      } else {
        assert fq == Filter(pre, q);
        assert !p(x);
      }
    }
  }
}
