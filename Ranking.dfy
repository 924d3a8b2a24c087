/** Ordering and truncation as LINQ's OrderByDescending and Take perform them. The order among
    records of equal rank is left to the implementation by the source; the insertion sort here
    is one admissible choice, and no property below depends on it. */
module Ranking {
  import opened Grouping

  predicate SortedDesc<T>(s: seq<T>, rank: T -> int) {
    forall i, j :: 0 <= i < j < |s| ==> rank(s[i]) >= rank(s[j])
  }

  /** Prepending a record that ranks at least as high as every record of a sorted
      sequence keeps it sorted. */
  lemma SortedCons<T>(a: T, t: seq<T>, rank: T -> int)
    requires SortedDesc(t, rank)
    requires forall k :: 0 <= k < |t| ==> rank(a) >= rank(t[k])
    ensures SortedDesc([a] + t, rank)
  {
    var s := [a] + t;
    forall i, j | 0 <= i < j < |s| ensures rank(s[i]) >= rank(s[j]) {
      assert s[j] == t[j - 1];
      if i > 0 {
        assert s[i] == t[i - 1];
      }
    }
  }

  /** Inserts `x` into a sequence already in descending rank order, keeping that order. */
  function Insert<T(!new)>(x: T, s: seq<T>, rank: T -> int): (r: seq<T>)
    requires SortedDesc(s, rank)
    ensures |r| == |s| + 1
    ensures forall k :: 0 <= k < |r| ==> r[k] == x || r[k] in s
    ensures multiset(r) == multiset(s) + multiset{x}
    ensures SortedDesc(r, rank)
  {
    if s == [] then [x]
    else if rank(x) >= rank(s[0]) then
      SortedCons(x, s, rank);
      [x] + s
    else
      var tail := Insert(x, s[1..], rank);
      InsertBehindHead(x, s, tail, rank);
      [s[0]] + tail
  }

  /** Putting the head of a sorted sequence back in front of `x` inserted into its rest
      gives `x` inserted into the whole. */
  lemma InsertBehindHead<T(!new)>(x: T, s: seq<T>, tail: seq<T>, rank: T -> int)
    requires SortedDesc(s, rank) && s != [] && rank(x) < rank(s[0])
    requires |tail| == |s|
    requires forall k :: 0 <= k < |tail| ==> tail[k] == x || tail[k] in s[1..]
    requires multiset(tail) == multiset(s[1..]) + multiset{x}
    requires SortedDesc(tail, rank)
    ensures forall k :: 0 <= k < |tail| + 1 ==> ([s[0]] + tail)[k] == x || ([s[0]] + tail)[k] in s
    ensures multiset([s[0]] + tail) == multiset(s) + multiset{x}
    ensures SortedDesc([s[0]] + tail, rank)
  {
    assert s == [s[0]] + s[1..];
    forall k | 0 <= k < |tail| ensures rank(s[0]) >= rank(tail[k]) {
      if tail[k] != x {
        var i :| 0 <= i < |s[1..]| && s[1..][i] == tail[k];
        assert s[1..][i] == s[i + 1];
      }
    }
    SortedCons(s[0], tail, rank);
    var r := [s[0]] + tail;
    forall k | 0 <= k < |r| ensures r[k] == x || r[k] in s {
      if k > 0 {
        assert r[k] == tail[k - 1];
      }
    }
  }

  /** OrderByDescending(rank): a permutation of `s` in non-increasing rank order. */
  function SortDesc<T(!new)>(s: seq<T>, rank: T -> int): (r: seq<T>)
    ensures multiset(r) == multiset(s)
    ensures SortedDesc(r, rank)
  {
    if s == [] then []
    else
      assert s == [s[0]] + s[1..];
      Insert(s[0], SortDesc(s[1..], rank), rank)
  }

  /** Take(n): the first `n` records, all of them when there are fewer, none when `n <= 0`. */
  function Take<T>(s: seq<T>, n: int): (r: seq<T>)
    ensures |r| == if n <= 0 then 0 else if n < |s| then n else |s|
    ensures r == s[..|r|]
  {
    if n <= 0 then [] else if n < |s| then s[..n] else s
  }

  /** Sorting records with distinct keys keeps them, one per key. */
  lemma SortedDistinctKeys<G(!new), K>(gs: seq<G>, keyOf: G -> K, rank: G -> int, sorted: seq<G>)
    requires forall i, j :: 0 <= i < j < |gs| ==> keyOf(gs[i]) != keyOf(gs[j])
    requires multiset(sorted) == multiset(gs)
    ensures |sorted| == |gs|
    ensures forall p :: 0 <= p < |sorted| ==> sorted[p] in gs
    ensures forall g :: g in gs ==> g in sorted
    ensures forall i, j :: 0 <= i < j < |sorted| ==> keyOf(sorted[i]) != keyOf(sorted[j])
  {
    assert |sorted| == |gs| by {
      assert |multiset(sorted)| == |multiset(gs)|;
    }
    forall p | 0 <= p < |sorted| ensures sorted[p] in gs {
      assert sorted[p] in multiset(gs);
    }
    forall g | g in gs ensures g in sorted {
      assert g in multiset(sorted);
    }
    assert Distinct(gs) by {
      forall i, j | 0 <= i < j < |gs| ensures gs[i] != gs[j] {
        assert keyOf(gs[i]) != keyOf(gs[j]);
      }
    }
    PermutationDistinct(gs, sorted);
    forall i, j | 0 <= i < j < |sorted| ensures keyOf(sorted[i]) != keyOf(sorted[j]) {
      var p :| 0 <= p < |gs| && gs[p] == sorted[i];
      var q :| 0 <= q < |gs| && gs[q] == sorted[j];
      assert p != q;
    }
  }

  /** The top-N of records with distinct keys (GroupBy(..).Select(..).OrderByDescending(rank)
      .Take(n)): as many records as `n` allows, ranked from the highest down, each with a
      distinct key and taken from the groups; a record left out ranks no higher than any
      record kept, and is left out only because `n` records were already kept. */
  lemma TopSpec<G(!new), K>(gs: seq<G>, keyOf: G -> K, rank: G -> int, n: int, top: seq<G>)
    requires forall i, j :: 0 <= i < j < |gs| ==> keyOf(gs[i]) != keyOf(gs[j])
    requires top == Take(SortDesc(gs, rank), n)
    ensures |top| == if n <= 0 then 0 else if n < |gs| then n else |gs|
    ensures SortedDesc(top, rank)
    ensures forall i :: 0 <= i < |top| ==> top[i] in gs
    ensures forall i, j :: 0 <= i < j < |top| ==> keyOf(top[i]) != keyOf(top[j])
    ensures forall g :: g in gs && (forall i :: 0 <= i < |top| ==> keyOf(top[i]) != keyOf(g)) ==>
      && n <= |top|
      && forall i :: 0 <= i < |top| ==> rank(top[i]) >= rank(g)
  {
    var sorted := SortDesc(gs, rank);
    SortedDistinctKeys(gs, keyOf, rank, sorted);
    TopOfSorted(gs, keyOf, rank, n, sorted, top);
  }

  lemma TopOfSorted<G(!new), K>(gs: seq<G>, keyOf: G -> K, rank: G -> int, n: int, sorted: seq<G>, top: seq<G>)
    requires |sorted| == |gs|
    requires SortedDesc(sorted, rank)
    requires forall p :: 0 <= p < |sorted| ==> sorted[p] in gs
    requires forall g :: g in gs ==> g in sorted
    requires forall i, j :: 0 <= i < j < |sorted| ==> keyOf(sorted[i]) != keyOf(sorted[j])
    requires top == Take(sorted, n)
    ensures |top| == if n <= 0 then 0 else if n < |gs| then n else |gs|
    ensures SortedDesc(top, rank)
    ensures forall i :: 0 <= i < |top| ==> top[i] in gs
    ensures forall i, j :: 0 <= i < j < |top| ==> keyOf(top[i]) != keyOf(top[j])
    ensures forall g :: g in gs && (forall i :: 0 <= i < |top| ==> keyOf(top[i]) != keyOf(g)) ==>
      && n <= |top|
      && forall i :: 0 <= i < |top| ==> rank(top[i]) >= rank(g)
  {
    assert |top| <= |sorted|;
    assert top == sorted[..|top|];
    forall i, j | 0 <= i < j < |top| ensures rank(top[i]) >= rank(top[j]) && keyOf(top[i]) != keyOf(top[j]) {
      assert top[i] == sorted[i] && top[j] == sorted[j];
    }
    forall i | 0 <= i < |top| ensures top[i] in gs {
      assert top[i] == sorted[i];
    }
    forall g | g in gs && (forall i :: 0 <= i < |top| ==> keyOf(top[i]) != keyOf(g))
      ensures n <= |top| && forall i :: 0 <= i < |top| ==> rank(top[i]) >= rank(g)
    {
      PrefixExcludes(keyOf, rank, n, sorted, top, g);
    }
  }

  /** A record of a sorted sequence whose key the prefix `Take(sorted, n)` misses lies
      beyond it: the prefix is full and ranks no lower. */
  lemma PrefixExcludes<G, K>(keyOf: G -> K, rank: G -> int, n: int, sorted: seq<G>, top: seq<G>, g: G)
    requires SortedDesc(sorted, rank)
    requires top == Take(sorted, n)
    requires g in sorted
    requires forall i :: 0 <= i < |top| ==> keyOf(top[i]) != keyOf(g)
    ensures n <= |top|
    ensures forall i :: 0 <= i < |top| ==> rank(top[i]) >= rank(g)
  {
    var p :| 0 <= p < |sorted| && sorted[p] == g;
    assert top == sorted[..|top|];
    assert forall i :: 0 <= i < |top| ==> keyOf(sorted[i]) != keyOf(g);
    assert keyOf(sorted[p]) == keyOf(g);
    forall i | 0 <= i < |top| ensures rank(top[i]) >= rank(g) {
      assert top[i] == sorted[i];
    }
  }

  /** The exclusion half of TopSpec for one record `g`, in a form callers instantiate directly. */
  lemma TopExcludes<G(!new), K>(gs: seq<G>, keyOf: G -> K, rank: G -> int, n: int, top: seq<G>, g: G)
    requires forall i, j :: 0 <= i < j < |gs| ==> keyOf(gs[i]) != keyOf(gs[j])
    requires top == Take(SortDesc(gs, rank), n)
    requires g in gs
    requires forall i :: 0 <= i < |top| ==> keyOf(top[i]) != keyOf(g)
    ensures n <= |top|
    ensures forall i :: 0 <= i < |top| ==> rank(top[i]) >= rank(g)
  {
    TopSpec(gs, keyOf, rank, n, top);
  }
}
