/** Kotlin's `sortedBy` and `sortedByDescending`: a stable sort by a real
    key. A descending sort is a sort by the negated key, because Kotlin sorts
    with a stable merge sort and `compareByDescending` only flips the
    comparison. */
module Sorting {

  /** The sum of `f` over the elements, Kotlin's `sumOf { f(it) }` on exact
      values. */
  function SumBy<T>(xs: seq<T>, f: T -> real): real
    decreases |xs|
  {
    if xs == [] then 0.0 else f(xs[0]) + SumBy(xs[1..], f)
  }

  lemma {:induction false} SumBySnoc<T>(xs: seq<T>, x: T, f: T -> real)
    ensures SumBy(xs + [x], f) == SumBy(xs, f) + f(x)
    decreases |xs|
  {
    if xs != [] {
      assert (xs + [x])[1..] == xs[1..] + [x];
      SumBySnoc(xs[1..], x, f);
    }
  }

  /** Replacing one element changes the sum by the difference of the two. */
  lemma {:induction false} SumByUpdate<T>(xs: seq<T>, i: nat, y: T, f: T -> real)
    requires i < |xs|
    ensures SumBy(xs[i := y], f) == SumBy(xs, f) - f(xs[i]) + f(y)
    decreases |xs|
  {
    if i > 0 {
      assert xs[i := y][1..] == xs[1..][i - 1 := y];
      SumByUpdate(xs[1..], i - 1, y, f);
    }
  }

  predicate SortedBy<T>(xs: seq<T>, key: T -> real) {
    forall i, j :: 0 <= i < j < |xs| ==> key(xs[i]) <= key(xs[j])
  }

  predicate StrictlySortedBy<T>(xs: seq<T>, key: T -> real) {
    forall i, j :: 0 <= i < j < |xs| ==> key(xs[i]) < key(xs[j])
  }

  /** The elements whose key is `v`, in their order in `xs`. A stable sort
      keeps this subsequence unchanged for every `v`. */
  function WithKey<T>(xs: seq<T>, key: T -> real, v: real): (r: seq<T>)
    ensures |r| <= |xs|
    decreases |xs|
  {
    if xs == [] then []
    else if key(xs[0]) == v then [xs[0]] + WithKey(xs[1..], key, v)
    else WithKey(xs[1..], key, v)
  }

  /** `x` placed before the first element whose key is not smaller. */
  function Insert<T>(x: T, s: seq<T>, key: T -> real): (r: seq<T>)
    ensures |r| == |s| + 1
    decreases |s|
  {
    if s == [] then [x]
    else if key(x) <= key(s[0]) then [x] + s
    else [s[0]] + Insert(x, s[1..], key)
  }

  /** Insertion sort, inserting each element in front of the sorted rest:
      an element goes before every later element with an equal key. */
  function SortBy<T>(xs: seq<T>, key: T -> real): (r: seq<T>)
    decreases |xs|
  {
    if xs == [] then [] else Insert(xs[0], SortBy(xs[1..], key), key)
  }

  lemma {:induction false} InsertSorted<T>(x: T, s: seq<T>, key: T -> real)
    requires SortedBy(s, key)
    ensures SortedBy(Insert(x, s, key), key)
    decreases |s|
  {
    if s != [] && key(s[0]) < key(x) {
      InsertSorted(x, s[1..], key);
      InsertElements(x, s[1..], key);
      var r := Insert(x, s[1..], key);
      forall k | 0 <= k < |r|
        ensures key(s[0]) <= key(r[k])
      {
        if r[k] != x {
          var j :| 0 <= j < |s[1..]| && s[1..][j] == r[k];
          assert s[j + 1] == r[k];
        }
      }
    }
  }

  lemma {:induction false} InsertElements<T>(x: T, s: seq<T>, key: T -> real)
    ensures multiset(Insert(x, s, key)) == multiset(s) + multiset{x}
    ensures forall k :: 0 <= k < |Insert(x, s, key)| ==>
              Insert(x, s, key)[k] == x || Insert(x, s, key)[k] in s
    decreases |s|
  {
    if s != [] && key(s[0]) < key(x) {
      InsertElements(x, s[1..], key);
      assert s == [s[0]] + s[1..];
      var r := Insert(x, s, key);
      forall k | 0 < k < |r|
        ensures r[k] == x || r[k] in s
      {
        assert r[k] == Insert(x, s[1..], key)[k - 1];
      }
    }
  }

  lemma {:induction false} InsertWithKey<T>(x: T, s: seq<T>, key: T -> real, v: real)
    ensures WithKey(Insert(x, s, key), key, v)
            == (if key(x) == v then [x] + WithKey(s, key, v) else WithKey(s, key, v))
    decreases |s|
  {
    if s != [] && key(s[0]) < key(x) {
      InsertWithKey(x, s[1..], key, v);
      assert (key(x) == v ==> key(s[0]) != v);
    }
  }

  lemma {:induction false} InsertSum<T>(x: T, s: seq<T>, key: T -> real, f: T -> real)
    ensures SumBy(Insert(x, s, key), f) == f(x) + SumBy(s, f)
    decreases |s|
  {
    if s != [] && key(s[0]) < key(x) {
      InsertSum(x, s[1..], key, f);
      assert ([s[0]] + Insert(x, s[1..], key))[1..] == Insert(x, s[1..], key);
    }
  }

  /** An element no larger than everything in a sorted sequence can go in
      front of it. */
  lemma PrependSorted<T>(x: T, s: seq<T>, key: T -> real)
    requires SortedBy(s, key)
    requires forall k :: 0 <= k < |s| ==> key(x) <= key(s[k])
    ensures SortedBy([x] + s, key)
  {
    var t := [x] + s;
    forall i, j | 0 <= i < j < |t|
      ensures key(t[i]) <= key(t[j])
    {
      assert t[j] == s[j - 1];
      if i > 0 {
        assert t[i] == s[i - 1];
      }
    }
  }

  /** The sort orders by key and permutes its input. */
  lemma SortByCorrect<T>(xs: seq<T>, key: T -> real)
    ensures SortedBy(SortBy(xs, key), key)
    ensures multiset(SortBy(xs, key)) == multiset(xs)
    ensures |SortBy(xs, key)| == |xs|
    ensures forall k :: 0 <= k < |SortBy(xs, key)| ==> SortBy(xs, key)[k] in xs
    ensures forall k :: 0 <= k < |xs| ==> xs[k] in SortBy(xs, key)
  {
    var r := SortBy(xs, key);
    SortByPermutes(xs, key);
    assert |r| == |multiset(r)| == |multiset(xs)| == |xs|;
    forall k | 0 <= k < |r|
      ensures r[k] in xs
    {
      assert r[k] in multiset(r);
    }
    forall k | 0 <= k < |xs|
      ensures xs[k] in r
    {
      assert xs[k] in multiset(xs);
    }
  }

  lemma {:induction false} SortByPermutes<T>(xs: seq<T>, key: T -> real)
    ensures SortedBy(SortBy(xs, key), key)
    ensures multiset(SortBy(xs, key)) == multiset(xs)
    decreases |xs|
  {
    if xs != [] {
      SortByPermutes(xs[1..], key);
      InsertSorted(xs[0], SortBy(xs[1..], key), key);
      InsertElements(xs[0], SortBy(xs[1..], key), key);
      assert xs == [xs[0]] + xs[1..];
    }
  }

  lemma {:induction false} SortByStable<T>(xs: seq<T>, key: T -> real, v: real)
    ensures WithKey(SortBy(xs, key), key, v) == WithKey(xs, key, v)
    decreases |xs|
  {
    if xs != [] {
      SortByStable(xs[1..], key, v);
      InsertWithKey(xs[0], SortBy(xs[1..], key), key, v);
    }
  }

  lemma {:induction false} SortBySum<T>(xs: seq<T>, key: T -> real, f: T -> real)
    ensures SumBy(SortBy(xs, key), f) == SumBy(xs, f)
    decreases |xs|
  {
    if xs != [] {
      SortBySum(xs[1..], key, f);
      InsertSum(xs[0], SortBy(xs[1..], key), key, f);
    }
  }

  /** Sorting a sorted sequence changes nothing. */
  lemma {:induction false} SortBySorted<T>(xs: seq<T>, key: T -> real)
    requires SortedBy(xs, key)
    ensures SortBy(xs, key) == xs
    decreases |xs|
  {
    if xs != [] {
      SortBySorted(xs[1..], key);
      assert SortBy(xs, key) == Insert(xs[0], xs[1..], key);
    }
  }

  /** Elements with pairwise different keys come out strictly ordered. */
  lemma {:induction false} SortByStrict<T>(xs: seq<T>, key: T -> real)
    requires forall i, j :: 0 <= i < j < |xs| ==> key(xs[i]) != key(xs[j])
    ensures StrictlySortedBy(SortBy(xs, key), key)
    decreases |xs|
  {
    if xs != [] {
      SortByStrict(xs[1..], key);
      SortByCorrect(xs[1..], key);
      var s := SortBy(xs[1..], key);
      forall k | 0 <= k < |s|
        ensures key(s[k]) != key(xs[0])
      {
        var j :| 0 <= j < |xs[1..]| && xs[1..][j] == s[k];
        assert xs[j + 1] == s[k];
      }
      InsertStrict(xs[0], s, key);
    }
  }

  lemma {:induction false} InsertStrict<T>(x: T, s: seq<T>, key: T -> real)
    requires StrictlySortedBy(s, key)
    requires forall k :: 0 <= k < |s| ==> key(s[k]) != key(x)
    ensures StrictlySortedBy(Insert(x, s, key), key)
    decreases |s|
  {
    if s != [] && key(s[0]) < key(x) {
      InsertStrict(x, s[1..], key);
      InsertElements(x, s[1..], key);
      var r := Insert(x, s[1..], key);
      forall k | 0 <= k < |r|
        ensures key(s[0]) < key(r[k])
      {
        if r[k] != x {
          var j :| 0 <= j < |s[1..]| && s[1..][j] == r[k];
          assert s[j + 1] == r[k];
        }
      }
    }
  }

  /** Elements that differ under `proj` still differ after sorting. */
  lemma {:induction false} SortByDistinct<T, U>(xs: seq<T>, key: T -> real, proj: T -> U)
    requires forall i, j :: 0 <= i < j < |xs| ==> proj(xs[i]) != proj(xs[j])
    ensures forall i, j :: 0 <= i < j < |SortBy(xs, key)| ==>
              proj(SortBy(xs, key)[i]) != proj(SortBy(xs, key)[j])
    decreases |xs|
  {
    if xs != [] {
      SortByDistinct(xs[1..], key, proj);
      SortByCorrect(xs[1..], key);
      var s := SortBy(xs[1..], key);
      forall k | 0 <= k < |s|
        ensures proj(s[k]) != proj(xs[0])
      {
        var j :| 0 <= j < |xs[1..]| && xs[1..][j] == s[k];
        assert xs[j + 1] == s[k];
      }
      InsertDistinct(xs[0], s, key, proj);
    }
  }

  lemma {:induction false} InsertDistinct<T, U>(x: T, s: seq<T>, key: T -> real, proj: T -> U)
    requires forall i, j :: 0 <= i < j < |s| ==> proj(s[i]) != proj(s[j])
    requires forall k :: 0 <= k < |s| ==> proj(s[k]) != proj(x)
    ensures forall i, j :: 0 <= i < j < |Insert(x, s, key)| ==>
              proj(Insert(x, s, key)[i]) != proj(Insert(x, s, key)[j])
    decreases |s|
  {
    if s != [] && key(s[0]) < key(x) {
      InsertDistinct(x, s[1..], key, proj);
      InsertElements(x, s[1..], key);
      var r := Insert(x, s[1..], key);
      forall k | 0 <= k < |r|
        ensures proj(s[0]) != proj(r[k])
      {
        if r[k] != x {
          var j :| 0 <= j < |s[1..]| && s[1..][j] == r[k];
          assert s[j + 1] == r[k];
        }
      }
      var t := Insert(x, s, key);
      assert t == [s[0]] + r;
      forall i, j | 0 <= i < j < |t|
        ensures proj(t[i]) != proj(t[j])
      {
        if i > 0 {
          assert t[i] == r[i - 1] && t[j] == r[j - 1];
        }
      }
    } else if s != [] {
      var t := Insert(x, s, key);
      assert t == [x] + s;
      forall i, j | 0 <= i < j < |t|
        ensures proj(t[i]) != proj(t[j])
      {
        if i > 0 {
          assert t[i] == s[i - 1] && t[j] == s[j - 1];
        }
      }
    }
  }
}
