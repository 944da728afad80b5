/**
 * `Array.prototype.sort` with a consistent numeric comparator. Since
 * ES2019 the sort is required to be stable, so for a comparator of the
 * shape `(a, b) => key(a) - key(b)` its result is fully determined: the
 * elements in ascending key order, equal keys in their original order.
 * The model is a stable insertion sort on a real-valued key; a descending
 * comparator `key(b) - key(a)` is the ascending sort on the negated key.
 */
module StableSort {

  /** `s` is in ascending order of `key`. */
  predicate Sorted<T>(s: seq<T>, key: T -> real) {
    forall i, j :: 0 <= i < j < |s| ==> key(s[i]) <= key(s[j])
  }

  /** The elements of `s` whose key is `v`, in their order in `s`. */
  function WithKey<T>(s: seq<T>, key: T -> real, v: real): (r: seq<T>)
    ensures |r| <= |s|
  {
    if s == [] then []
    else (if key(s[0]) == v then [s[0]] else []) + WithKey(s[1..], key, v)
  }

  /** Picking out one key's elements distributes over concatenation. */
  lemma {:induction false} WithKeyAppend<T>(a: seq<T>, b: seq<T>, key: T -> real, v: real)
    ensures WithKey(a + b, key, v) == WithKey(a, key, v) + WithKey(b, key, v)
    decreases |a|
  {
    if a == [] {
      assert a + b == b;
    } else {
      var h := if key(a[0]) == v then [a[0]] else [];
      assert (a + b)[0] == a[0];
      assert (a + b)[1..] == a[1..] + b;
      assert WithKey(a + b, key, v) == h + WithKey(a[1..] + b, key, v);
      WithKeyAppend(a[1..], b, key, v);
      assert WithKey(a, key, v) == h + WithKey(a[1..], key, v);
    }
  }

  /** Places `x` before the first element whose key is not smaller, so `x`
      lands in front of the elements with its own key. */
  function Insert<T>(x: T, s: seq<T>, key: T -> real): (r: seq<T>)
    requires Sorted(s, key)
    ensures Sorted(r, key)
    ensures multiset(r) == multiset(s) + multiset{x}
    ensures |r| == |s| + 1
    ensures r[0] == x || (|s| > 0 && r[0] == s[0])
  {
    if s == [] || key(x) <= key(s[0]) then [x] + s
    else
      assert s == [s[0]] + s[1..];
      var t := Insert(x, s[1..], key);
      assert key(s[0]) <= key(t[0]);
      [s[0]] + t
  }

  /** Insertion moves `x` only past elements with a smaller key, so the
      elements of any one key keep their order. */
  lemma {:induction false} InsertStable<T>(x: T, s: seq<T>, key: T -> real, v: real)
    requires Sorted(s, key)
    ensures WithKey(Insert(x, s, key), key, v) == WithKey([x] + s, key, v)
    decreases |s|
  {
    if !(s == [] || key(x) <= key(s[0])) {
      var t := Insert(x, s[1..], key);
      InsertStable(x, s[1..], key, v);
      WithKeyAppend([s[0]], t, key, v);
      WithKeyAppend([x], s[1..], key, v);
      assert [x] + s == [x] + [s[0]] + s[1..];
      WithKeyAppend([x] + [s[0]], s[1..], key, v);
      WithKeyAppend([x], [s[0]], key, v);
    }
  }

  /** The stable ascending sort of `s` by `key`. */
  function Sort<T>(s: seq<T>, key: T -> real): (r: seq<T>)
    ensures Sorted(r, key)
    ensures multiset(r) == multiset(s)
    ensures |r| == |s|
    ensures forall v :: WithKey(r, key, v) == WithKey(s, key, v)
  {
    if s == [] then []
    else
      var t := Sort(s[1..], key);
      assert s == [s[0]] + s[1..];
      assert forall v :: WithKey(Insert(s[0], t, key), key, v) == WithKey(s, key, v) by {
        forall v ensures WithKey(Insert(s[0], t, key), key, v) == WithKey(s, key, v) {
          InsertStable(s[0], t, key, v);
          WithKeyAppend([s[0]], t, key, v);
          WithKeyAppend([s[0]], s[1..], key, v);
        }
      }
      Insert(s[0], t, key)
  }

  /** In a sorted sequence nothing has a key below the first element's. */
  lemma {:induction false} WithKeyBelowHead<T>(s: seq<T>, key: T -> real, v: real)
    requires Sorted(s, key)
    requires WithKey(s, key, v) != []
    ensures |s| > 0 && key(s[0]) <= v
  {
    if key(s[0]) != v {
      WithKeyBelowHead(s[1..], key, v);
      assert key(s[0]) <= key(s[1..][0]);
    }
  }

  /** A stable sort has only one possible result: two sorted sequences that
      agree, key by key, on the order of the elements with that key are
      equal. So `Sort` is what any stable sorting algorithm returns. */
  lemma {:induction false} SortedUnique<T>(a: seq<T>, b: seq<T>, key: T -> real)
    requires Sorted(a, key) && Sorted(b, key)
    requires forall v :: WithKey(a, key, v) == WithKey(b, key, v)
    ensures a == b
    decreases |a|
  {
    if a == [] {
    } else {
      var m := key(a[0]);
      assert WithKey(a, key, m)[0] == a[0];
      WithKeyBelowHead(b, key, m);
      assert WithKey(b, key, key(b[0])) != [];
      WithKeyBelowHead(a, key, key(b[0]));
      assert key(b[0]) == m;
      assert WithKey(b, key, m)[0] == b[0];
      assert a[0] == b[0];
      forall v ensures WithKey(a[1..], key, v) == WithKey(b[1..], key, v) {
        var h := if m == v then [a[0]] else [];
        assert WithKey(a, key, v) == h + WithKey(a[1..], key, v);
        assert WithKey(b, key, v) == h + WithKey(b[1..], key, v);
        assert WithKey(a[1..], key, v) == (h + WithKey(a[1..], key, v))[|h|..];
        assert WithKey(b[1..], key, v) == (h + WithKey(b[1..], key, v))[|h|..];
      }
      SortedUnique(a[1..], b[1..], key);
      assert a == [a[0]] + a[1..];
      assert b == [b[0]] + b[1..];
    }
  }

  /** Any sorted rearrangement of `s` that keeps, for every key, the original
      order of the elements with that key is `Sort(s, key)`. */
  lemma SortIsTheStableSort<T>(s: seq<T>, r: seq<T>, key: T -> real)
    requires Sorted(r, key)
    requires forall v :: WithKey(r, key, v) == WithKey(s, key, v)
    ensures r == Sort(s, key)
  {
    var sorted := Sort(s, key);
    forall v ensures WithKey(r, key, v) == WithKey(sorted, key, v) {
      assert WithKey(sorted, key, v) == WithKey(s, key, v);
    }
    SortedUnique(r, sorted, key);
  }
}
