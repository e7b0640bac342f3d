/** Kotlin's `mapNotNull` on a list. */
module Lists {
  import opened Wrappers

  /** The results of `f` that are present, in input order. */
  function FilterMap<A, B>(xs: seq<A>, f: A -> Option<B>): (ys: seq<B>)
    ensures |ys| <= |xs|
    decreases |xs|
  {
    if xs == [] then []
    else
      var n := |xs| - 1;
      FilterMap(xs[..n], f) + (match f(xs[n]) case Some(y) => [y] case None => [])
  }

  /** `mapNotNull` works element by element: on `a + b` it gives the results
      of `a` followed by those of `b`. */
  lemma {:induction false} FilterMapConcat<A, B>(a: seq<A>, b: seq<A>, f: A -> Option<B>)
    ensures FilterMap(a + b, f) == FilterMap(a, f) + FilterMap(b, f)
    decreases |b|
  {
    if b != [] {
      var n := |b| - 1;
      assert (a + b)[..|a| + n] == a + b[..n];
      assert (a + b)[|a| + n] == b[n];
      FilterMapConcat(a, b[..n], f);
      var tail := match f(b[n]) case Some(y) => [y] case None => [];
      assert FilterMap(a + b, f) == FilterMap(a + b[..n], f) + tail;
      assert FilterMap(b, f) == FilterMap(b[..n], f) + tail;
      assert FilterMap(a, f) + FilterMap(b[..n], f) + tail
          == FilterMap(a, f) + (FilterMap(b[..n], f) + tail);
    } else {
      assert a + b == a;
    }
  }

  lemma FilterMapSingle<A, B>(x: A, f: A -> Option<B>)
    ensures FilterMap([x], f) == if f(x).Some? then [f(x).value] else []
  {
    assert [x][..0] == [];
  }

  /** Nothing comes out exactly when `f` gives nothing for every element. */
  lemma {:induction false} FilterMapEmpty<A, B>(xs: seq<A>, f: A -> Option<B>)
    ensures FilterMap(xs, f) == [] <==> forall i :: 0 <= i < |xs| ==> f(xs[i]).None?
    decreases |xs|
  {
    if xs != [] {
      var n := |xs| - 1;
      FilterMapEmpty(xs[..n], f);
      assert forall i :: 0 <= i < n ==> xs[..n][i] == xs[i];
    }
  }

  /** Every result comes from some element. */
  lemma {:induction false} FilterMapSources<A, B>(xs: seq<A>, f: A -> Option<B>)
    ensures forall k :: 0 <= k < |FilterMap(xs, f)| ==>
              exists i :: 0 <= i < |xs| && f(xs[i]) == Some(FilterMap(xs, f)[k])
    decreases |xs|
  {
    if xs != [] {
      var n := |xs| - 1;
      var p := xs[..n];
      FilterMapSources(p, f);
      var ys := FilterMap(xs, f);
      var q := FilterMap(p, f);
      var tail := match f(xs[n]) case Some(y) => [y] case None => [];
      assert ys == q + tail;
      forall k | 0 <= k < |ys|
        ensures exists i :: 0 <= i < |xs| && f(xs[i]) == Some(ys[k])
      {
        if k < |q| {
          assert ys[k] == q[k];
          var i :| 0 <= i < |p| && f(p[i]) == Some(q[k]);
          assert xs[i] == p[i];
        } else {
          assert ys[k] == tail[0];
          assert f(xs[n]) == Some(ys[k]);
        }
      }
      assert forall k :: 0 <= k < |ys| ==> exists i :: 0 <= i < |xs| && f(xs[i]) == Some(ys[k]);
    } else {
      assert FilterMap(xs, f) == [];
    }
  }

  /** Every present result of an element is among the results. */
  lemma {:induction false} FilterMapKeeps<A, B>(xs: seq<A>, f: A -> Option<B>)
    ensures forall i :: 0 <= i < |xs| && f(xs[i]).Some? ==> f(xs[i]).value in FilterMap(xs, f)
    decreases |xs|
  {
    if xs != [] {
      var n := |xs| - 1;
      var p := xs[..n];
      FilterMapKeeps(p, f);
      var ys := FilterMap(xs, f);
      var q := FilterMap(p, f);
      var tail := match f(xs[n]) case Some(y) => [y] case None => [];
      assert ys == q + tail;
      forall i | 0 <= i < |xs| && f(xs[i]).Some?
        ensures f(xs[i]).value in ys
      {
        if i < n {
          assert xs[i] == p[i];
          assert f(p[i]).value in q;
        } else {
          assert ys[|ys| - 1] == f(xs[n]).value;
        }
      }
    }
  }
}
