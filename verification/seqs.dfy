/**
 * Sequence helpers shared by the model: `Array.prototype.filter`, order-preserving
 * subsequences, keyed counting, and the insertion-ordered count tables that the
 * dashboards build with `forEach` over a plain object (`counts[k] = (counts[k] ?? 0) + 1`).
 */
module Seqs {

  /** `xs.filter(p)`: keeps the elements satisfying `p`, in their original order. */
  function Filter<T(!new)>(xs: seq<T>, p: T -> bool): (r: seq<T>)
    ensures |r| <= |xs|
    ensures forall x :: x in r <==> x in xs && p(x)
  {
    if |xs| == 0 then []
    else
      var init := Filter(xs[..|xs| - 1], p);
      assert forall x :: x in xs <==> x in xs[..|xs| - 1] || x == xs[|xs| - 1];
      if p(xs[|xs| - 1]) then init + [xs[|xs| - 1]] else init
  }

  /** `a` is obtained from `b` by deleting elements, keeping the order of the rest. */
  predicate IsSubsequence<T(==)>(a: seq<T>, b: seq<T>)
    decreases |b|
  {
    if |a| == 0 then true
    else if |b| == 0 then false
    else if a[|a| - 1] == b[|b| - 1] then IsSubsequence(a[..|a| - 1], b[..|b| - 1])
    else IsSubsequence(a, b[..|b| - 1])
  }

  lemma {:induction false} FilterIsSubsequence<T(!new)>(xs: seq<T>, p: T -> bool)
    ensures IsSubsequence(Filter(xs, p), xs)
    decreases |xs|
  {
    if |xs| > 0 {
      var init := xs[..|xs| - 1];
      FilterIsSubsequence(init, p);
      var r := Filter(xs, p);
      if p(xs[|xs| - 1]) {
        assert r[..|r| - 1] == Filter(init, p);
      } else {
        assert r == Filter(init, p);
      }
    }
  }

  /** Every sequence is a subsequence of itself. */
  lemma {:induction false} SubsequenceOfSelf<T>(xs: seq<T>)
    ensures IsSubsequence(xs, xs)
    decreases |xs|
  {
    if |xs| > 0 {
      SubsequenceOfSelf(xs[..|xs| - 1]);
    }
  }

  /** A filter that accepts everything keeps everything. */
  lemma {:induction false} FilterKeepsAll<T(!new)>(xs: seq<T>, p: T -> bool)
    requires forall x :: p(x)
    ensures Filter(xs, p) == xs
    decreases |xs|
  {
    if |xs| > 0 {
      FilterKeepsAll(xs[..|xs| - 1], p);
      assert xs[..|xs| - 1] + [xs[|xs| - 1]] == xs;
    }
  }

  /** Filters with the same predicate give the same result. */
  lemma {:induction false} FilterSame<T(!new)>(xs: seq<T>, p: T -> bool, q: T -> bool)
    requires forall x :: p(x) == q(x)
    ensures Filter(xs, p) == Filter(xs, q)
    decreases |xs|
  {
    if |xs| > 0 {
      FilterSame(xs[..|xs| - 1], p, q);
    }
  }

  /** No two elements share a key. */
  predicate DistinctBy<T, K(==)>(xs: seq<T>, key: T -> K)
  {
    forall i, j :: 0 <= i < j < |xs| ==> key(xs[i]) != key(xs[j])
  }

  /** Filtering keeps keys distinct. */
  lemma {:induction false} FilterKeepsDistinct<T(!new), K>(xs: seq<T>, p: T -> bool, key: T -> K)
    requires DistinctBy(xs, key)
    ensures DistinctBy(Filter(xs, p), key)
  {
    if |xs| > 0 {
      var init := xs[..|xs| - 1];
      var last := xs[|xs| - 1];
      FilterKeepsDistinct(init, p, key);
      var f := Filter(init, p);
      if p(last) {
        var r := f + [last];
        forall i, j | 0 <= i < j < |r| ensures key(r[i]) != key(r[j]) {
          if j == |r| - 1 {
            assert r[i] in init;
            var k :| 0 <= k < |init| && init[k] == r[i];
            assert xs[k] == r[i];
          } else {
            assert r[i] == f[i] && r[j] == f[j];
          }
        }
      }
    }
  }

  /** Number of elements whose key is `k`. */
  function CountKey<T, K(==)>(xs: seq<T>, key: T -> K, k: K): nat
  {
    if |xs| == 0 then 0
    else CountKey(xs[..|xs| - 1], key, k) + (if key(xs[|xs| - 1]) == k then 1 else 0)
  }

  /** Every element is counted under exactly one key, so a key's count never exceeds the length. */
  lemma {:induction false} CountKeyBound<T, K>(xs: seq<T>, key: T -> K, k: K)
    ensures CountKey(xs, key, k) <= |xs|
    ensures CountKey(xs, key, k) == 0 <==> forall i :: 0 <= i < |xs| ==> key(xs[i]) != k
  {
    if |xs| > 0 {
      var init := xs[..|xs| - 1];
      CountKeyBound(init, key, k);
      assert forall i :: 0 <= i < |init| ==> init[i] == xs[i];
    }
  }

  /** Filtering by "the key is `k`" keeps exactly the elements `CountKey` counts. */
  lemma {:induction false} FilterCountsKey<T(!new), K>(xs: seq<T>, p: T -> bool, key: T -> K, k: K)
    requires forall x :: p(x) <==> key(x) == k
    ensures |Filter(xs, p)| == CountKey(xs, key, k)
  {
    if |xs| > 0 {
      FilterCountsKey(xs[..|xs| - 1], p, key, k);
    }
  }

  /** Filtering by `p` and by its negation splits the sequence. */
  lemma {:induction false} FilterComplement<T(!new)>(xs: seq<T>, p: T -> bool, q: T -> bool)
    requires forall x :: q(x) == !p(x)
    ensures |Filter(xs, p)| + |Filter(xs, q)| == |xs|
  {
    if |xs| > 0 {
      FilterComplement(xs[..|xs| - 1], p, q);
    }
  }

  // ---------------------------------------------------------------------------
  // Insertion-ordered count tables (what `Object.entries` returns for such an object).

  type Table<K> = seq<(K, nat)>

  /** The key is present in the table. */
  predicate HasKey<K(==,!new)>(t: Table<K>, k: K)
  {
    exists i :: 0 <= i < |t| && t[i].0 == k
  }

  /** `counts[k] ?? 0`. */
  function Lookup<K(==,!new)>(t: Table<K>, k: K): nat
  {
    if |t| == 0 then 0
    else if t[0].0 == k then t[0].1
    else Lookup(t[1..], k)
  }

  predicate DistinctKeys<K(==,!new)>(t: Table<K>)
  {
    forall i, j :: 0 <= i < j < |t| ==> t[i].0 != t[j].0
  }

  /** Sum of all counts in the table. */
  function SumCounts<K>(t: Table<K>): nat
  {
    if |t| == 0 then 0 else t[0].1 + SumCounts(t[1..])
  }

  /** A table's keys are its head's key and its tail's keys. */
  lemma HasKeyCons<K(!new)>(t: Table<K>)
    requires |t| > 0
    ensures forall j :: HasKey(t, j) <==> t[0].0 == j || HasKey(t[1..], j)
  {
    forall j | HasKey(t, j) && t[0].0 != j
      ensures HasKey(t[1..], j)
    {
      var i :| 0 <= i < |t| && t[i].0 == j;
      assert t[1..][i - 1].0 == j;
    }
  }

  lemma DistinctKeysCons<K(!new)>(t: Table<K>)
    requires |t| > 0
    ensures DistinctKeys(t) <==> DistinctKeys(t[1..]) && !HasKey(t[1..], t[0].0)
  {
    if DistinctKeys(t) {
      forall a, b | 0 <= a < b < |t[1..]| ensures t[1..][a].0 != t[1..][b].0 {
        assert t[1..][a] == t[a + 1] && t[1..][b] == t[b + 1];
      }
    }
    if DistinctKeys(t[1..]) && !HasKey(t[1..], t[0].0) {
      forall a, b | 0 <= a < b < |t| ensures t[a].0 != t[b].0 {
        assert t[b] == t[1..][b - 1];
        if a > 0 {
          assert t[a] == t[1..][a - 1];
        }
      }
    }
  }

  /** `counts[k] = (counts[k] ?? 0) + 1`: bumps an existing key in place, or appends it with 1. */
  function Bump<K(==,!new)>(t: Table<K>, k: K): (r: Table<K>)
    ensures forall j :: Lookup(r, j) == Lookup(t, j) + (if j == k then 1 else 0)
    ensures forall j :: HasKey(r, j) <==> HasKey(t, j) || j == k
    ensures SumCounts(r) == SumCounts(t) + 1
    ensures DistinctKeys(t) ==> DistinctKeys(r)
    ensures forall i :: 0 <= i < |r| ==> r[i].1 > 0 || (i < |t| && r[i] == t[i])
  {
    if |t| == 0 then
      assert (k, 1) == [(k, 1)][0];
      [(k, 1)]
    else if t[0].0 == k then
      var r := [(k, t[0].1 + 1)] + t[1..];
      assert r[1..] == t[1..];
      HasKeyCons(t);
      HasKeyCons(r);
      DistinctKeysCons(t);
      DistinctKeysCons(r);
      r
    else
      var rest := Bump(t[1..], k);
      var r := [t[0]] + rest;
      assert r[1..] == rest;
      HasKeyCons(t);
      HasKeyCons(r);
      DistinctKeysCons(t);
      DistinctKeysCons(r);
      r
  }

  /**
   * The table `xs.forEach(x => counts[key(x)] = (counts[key(x)] ?? 0) + 1)` builds from
   * an empty object, as an insertion-ordered list of entries.
   */
  function Tally<T, K(==,!new)>(xs: seq<T>, key: T -> K): (t: Table<K>)
    ensures DistinctKeys(t)
    ensures forall k :: Lookup(t, k) == CountKey(xs, key, k)
    ensures forall k :: HasKey(t, k) <==> exists i :: 0 <= i < |xs| && key(xs[i]) == k
    ensures forall i :: 0 <= i < |t| ==> t[i].1 > 0
    ensures SumCounts(t) == |xs|
  {
    if |xs| == 0 then []
    else
      var init := xs[..|xs| - 1];
      var t := Bump(Tally(init, key), key(xs[|xs| - 1]));
      assert forall i :: 0 <= i < |init| ==> init[i] == xs[i];
      t
  }

  /** In a table with distinct keys, the entry for a key holds exactly its `Lookup` count. */
  lemma {:induction false} LookupAt<K(!new)>(t: Table<K>, i: nat)
    requires DistinctKeys(t)
    requires i < |t|
    ensures Lookup(t, t[i].0) == t[i].1
  {
    if i > 0 {
      assert DistinctKeys(t[1..]) by {
        forall a, b | 0 <= a < b < |t[1..]| ensures t[1..][a].0 != t[1..][b].0 {
          assert t[1..][a] == t[a + 1] && t[1..][b] == t[b + 1];
        }
      }
      LookupAt(t[1..], i - 1);
    }
  }
}
