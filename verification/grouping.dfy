/** `groupBy { key }.mapValues { sumOf { amount } }` and the
    `maxByOrNull`/`minByOrNull` that pick from the result. A Kotlin
    `LinkedHashMap` iterates in insertion order, so a grouping is a sequence of
    key–total pairs with distinct keys, each key placed where it first
    occurred. */
module Grouping {
  import opened Wrappers
  import opened Sorting

  function Value<K>(kv: (K, real)): real {
    kv.1
  }

  /** The sum of the values. */
  function Total<K>(kvs: seq<(K, real)>): real {
    SumBy(kvs, Value)
  }

  /** The keys, in order: `map { it.first }`. */
  function KeysOf<K>(kvs: seq<(K, real)>): (ks: seq<K>)
    ensures |ks| == |kvs|
    ensures forall k :: 0 <= k < |kvs| ==> ks[k] == kvs[k].0
  {
    seq(|kvs|, k requires 0 <= k < |kvs| => kvs[k].0)
  }

  predicate HasKey<K(==)>(kvs: seq<(K, real)>, k: K) {
    exists i :: 0 <= i < |kvs| && kvs[i].0 == k
  }

  predicate DistinctKeys<K(==)>(kvs: seq<(K, real)>) {
    forall i, j :: 0 <= i < j < |kvs| ==> kvs[i].0 != kvs[j].0
  }

  /** Position of the first pair with key `k`, or `|kvs|` when there is none. */
  function IndexOfKey<K(==)>(kvs: seq<(K, real)>, k: K): (i: nat)
    ensures i <= |kvs|
    ensures i < |kvs| <==> HasKey(kvs, k)
    ensures i < |kvs| ==> kvs[i].0 == k
    ensures forall j :: 0 <= j < i ==> kvs[j].0 != k
    decreases |kvs|
  {
    if kvs == [] then 0
    else if kvs[0].0 == k then 0
    else
      var i := IndexOfKey(kvs[1..], k);
      assert HasKey(kvs[1..], k) ==> HasKey(kvs, k);
      assert HasKey(kvs, k) && kvs[0].0 != k ==> HasKey(kvs[1..], k) by {
        if HasKey(kvs, k) && kvs[0].0 != k {
          var j :| 0 <= j < |kvs| && kvs[j].0 == k;
          assert kvs[1..][j - 1].0 == k;
        }
      }
      1 + i
  }

  /** The sum of the values paired with `k`. */
  function SumFor<K(==)>(kvs: seq<(K, real)>, k: K): real
    decreases |kvs|
  {
    if kvs == [] then 0.0
    else
      var last := kvs[|kvs| - 1];
      SumFor(kvs[..|kvs| - 1], k) + (if last.0 == k then last.1 else 0.0)
  }

  /** One step of `groupBy` followed by summing: the value is added to the
      key's group, or the key opens a new group at the end. */
  function Accumulate<K(==)>(g: seq<(K, real)>, k: K, v: real): seq<(K, real)> {
    var i := IndexOfKey(g, k);
    if i < |g| then g[i := (k, g[i].1 + v)] else g + [(k, v)]
  }

  /** The totals per key, keys in order of first occurrence. */
  function GroupSums<K(==)>(kvs: seq<(K, real)>): seq<(K, real)>
    decreases |kvs|
  {
    if kvs == [] then []
    else
      var last := kvs[|kvs| - 1];
      Accumulate(GroupSums(kvs[..|kvs| - 1]), last.0, last.1)
  }

  lemma AccumulateKeys<K>(g: seq<(K, real)>, k: K, v: real)
    requires DistinctKeys(g)
    ensures DistinctKeys(Accumulate(g, k, v))
    ensures forall k' :: HasKey(Accumulate(g, k, v), k') <==> HasKey(g, k') || k' == k
    ensures |Accumulate(g, k, v)| == if HasKey(g, k) then |g| else |g| + 1
    ensures forall i :: 0 <= i < |g| ==> Accumulate(g, k, v)[i].0 == g[i].0
    ensures forall i :: 0 <= i < |g| ==>
              Accumulate(g, k, v)[i].1 == g[i].1 + (if g[i].0 == k then v else 0.0)
    ensures !HasKey(g, k) ==> Accumulate(g, k, v)[|g|] == (k, v)
  {
    var r := Accumulate(g, k, v);
    forall k' | HasKey(r, k')
      ensures HasKey(g, k') || k' == k
    {
      var j :| 0 <= j < |r| && r[j].0 == k';
      if j < |g| {
        assert g[j].0 == k';
      }
    }
    forall k' | HasKey(g, k')
      ensures HasKey(r, k')
    {
      var j :| 0 <= j < |g| && g[j].0 == k';
      assert r[j].0 == k';
    }
    if !HasKey(g, k) {
      assert r[|g|].0 == k;
    }
  }

  lemma AccumulateTotal<K>(g: seq<(K, real)>, k: K, v: real)
    ensures Total(Accumulate(g, k, v)) == Total(g) + v
  {
    var i := IndexOfKey(g, k);
    if i < |g| {
      SumByUpdate(g, i, (k, g[i].1 + v), Value);
    } else {
      SumBySnoc(g, (k, v), Value);
    }
  }

  lemma HasKeySnoc<K>(kvs: seq<(K, real)>, kv: (K, real), k: K)
    ensures HasKey(kvs + [kv], k) <==> HasKey(kvs, k) || kv.0 == k
  {
    var s := kvs + [kv];
    if HasKey(s, k) && kv.0 != k {
      var j :| 0 <= j < |s| && s[j].0 == k;
      assert kvs[j].0 == k;
    }
    if HasKey(kvs, k) {
      var j :| 0 <= j < |kvs| && kvs[j].0 == k;
      assert s[j].0 == k;
    }
    assert s[|kvs|] == kv;
  }

  lemma {:induction false} IndexOfKeySnoc<K>(kvs: seq<(K, real)>, kv: (K, real), k: K)
    ensures IndexOfKey(kvs + [kv], k)
            == if HasKey(kvs, k) then IndexOfKey(kvs, k) else if kv.0 == k then |kvs| else |kvs| + 1
    decreases |kvs|
  {
    HasKeySnoc(kvs, kv, k);
    if kvs != [] && kvs[0].0 != k {
      assert (kvs + [kv])[1..] == kvs[1..] + [kv];
      IndexOfKeySnoc(kvs[1..], kv, k);
      HasKeySnoc(kvs[1..], kv, k);
    }
  }

  lemma {:induction false} SumForAbsent<K>(kvs: seq<(K, real)>, k: K)
    requires !HasKey(kvs, k)
    ensures SumFor(kvs, k) == 0.0
    decreases |kvs|
  {
    if kvs != [] {
      var p := kvs[..|kvs| - 1];
      assert kvs == p + [kvs[|kvs| - 1]];
      HasKeySnoc(p, kvs[|kvs| - 1], k);
      SumForAbsent(p, k);
    }
  }

  /** The grouping names each key once, exactly the keys of the input. */
  lemma {:induction false} GroupSumsKeys<K>(kvs: seq<(K, real)>)
    ensures DistinctKeys(GroupSums(kvs))
    ensures forall k :: HasKey(GroupSums(kvs), k) <==> HasKey(kvs, k)
    ensures |GroupSums(kvs)| <= |kvs|
    decreases |kvs|
  {
    if kvs != [] {
      var p := kvs[..|kvs| - 1];
      var last := kvs[|kvs| - 1];
      assert kvs == p + [last];
      GroupSumsKeys(p);
      AccumulateKeys(GroupSums(p), last.0, last.1);
      forall k
        ensures HasKey(kvs, k) <==> HasKey(p, k) || last.0 == k
      {
        HasKeySnoc(p, last, k);
      }
    }
  }

  /** Each group holds the sum of its key's values. */
  lemma {:induction false} GroupSumsValues<K>(kvs: seq<(K, real)>)
    ensures forall i :: 0 <= i < |GroupSums(kvs)| ==>
              GroupSums(kvs)[i].1 == SumFor(kvs, GroupSums(kvs)[i].0)
    decreases |kvs|
  {
    if kvs != [] {
      var p := kvs[..|kvs| - 1];
      var last := kvs[|kvs| - 1];
      GroupSumsValues(p);
      GroupSumsKeys(p);
      var g0 := GroupSums(p);
      AccumulateKeys(g0, last.0, last.1);
      if !HasKey(g0, last.0) {
        SumForAbsent(p, last.0);
      }
    }
  }

  /** Groups appear in the order their keys first occur. */
  lemma {:induction false} GroupSumsOrder<K>(kvs: seq<(K, real)>)
    ensures forall i, j :: 0 <= i < j < |GroupSums(kvs)| ==>
              IndexOfKey(kvs, GroupSums(kvs)[i].0) < IndexOfKey(kvs, GroupSums(kvs)[j].0)
    decreases |kvs|
  {
    if kvs != [] {
      var p := kvs[..|kvs| - 1];
      var last := kvs[|kvs| - 1];
      assert kvs == p + [last];
      GroupSumsOrder(p);
      GroupSumsKeys(p);
      var g0 := GroupSums(p);
      AccumulateKeys(g0, last.0, last.1);
      var g := GroupSums(kvs);
      forall i | 0 <= i < |g|
        ensures i < |g0| ==> IndexOfKey(kvs, g[i].0) == IndexOfKey(p, g0[i].0)
        ensures i == |g0| ==> IndexOfKey(kvs, g[i].0) == |p|
      {
        IndexOfKeySnoc(p, last, g[i].0);
        if i < |g0| {
          assert HasKey(g0, g0[i].0);
        }
      }
    }
  }

  /** Grouping keeps the overall sum. */
  lemma {:induction false} GroupSumsTotal<K>(kvs: seq<(K, real)>)
    ensures Total(GroupSums(kvs)) == Total(kvs)
    decreases |kvs|
  {
    if kvs != [] {
      var p := kvs[..|kvs| - 1];
      var last := kvs[|kvs| - 1];
      assert kvs == p + [last];
      GroupSumsTotal(p);
      AccumulateTotal(GroupSums(p), last.0, last.1);
      SumBySnoc(p, last, Value);
    }
  }

  /** `maxByOrNull { it.value }`: the first pair holding the largest value,
      none for an empty grouping. */
  function MaxIndex<K>(g: seq<(K, real)>): (r: Option<nat>)
    ensures r.None? <==> g == []
    ensures r.Some? ==> r.value < |g|
    ensures r.Some? ==> forall j :: 0 <= j < |g| ==> g[j].1 <= g[r.value].1
    ensures r.Some? ==> forall j :: 0 <= j < r.value ==> g[j].1 < g[r.value].1
    decreases |g|
  {
    if g == [] then None
    else match MaxIndex(g[..|g| - 1])
      case None => Some(0)
      case Some(i) => if g[i].1 < g[|g| - 1].1 then Some(|g| - 1) else Some(i)
  }

  /** `minByOrNull { it.value }`: the first pair holding the smallest value,
      none for an empty grouping. */
  function MinIndex<K>(g: seq<(K, real)>): (r: Option<nat>)
    ensures r.None? <==> g == []
    ensures r.Some? ==> r.value < |g|
    ensures r.Some? ==> forall j :: 0 <= j < |g| ==> g[r.value].1 <= g[j].1
    ensures r.Some? ==> forall j :: 0 <= j < r.value ==> g[r.value].1 < g[j].1
    decreases |g|
  {
    if g == [] then None
    else match MinIndex(g[..|g| - 1])
      case None => Some(0)
      case Some(i) => if g[i].1 > g[|g| - 1].1 then Some(|g| - 1) else Some(i)
  }

  /** A position holding a largest value with only smaller values before it
      is the one `MaxIndex` picks. */
  lemma FirstMaxUnique<K>(g: seq<(K, real)>, i: nat)
    requires i < |g|
    requires forall j :: 0 <= j < |g| ==> g[j].1 <= g[i].1
    requires forall j :: 0 <= j < i ==> g[j].1 < g[i].1
    ensures MaxIndex(g) == Some(i)
  {
    var r := MaxIndex(g).value;
    assert !(r < i) && !(i < r);
  }

  /** A position holding a smallest value with only larger values before it
      is the one `MinIndex` picks. */
  lemma FirstMinUnique<K>(g: seq<(K, real)>, i: nat)
    requires i < |g|
    requires forall j :: 0 <= j < |g| ==> g[i].1 <= g[j].1
    requires forall j :: 0 <= j < i ==> g[i].1 < g[j].1
    ensures MinIndex(g) == Some(i)
  {
    var r := MinIndex(g).value;
    assert !(r < i) && !(i < r);
  }
}
