/** Grouping a sequence of records by a key, as LINQ's GroupBy/Count/Distinct do: the
    distinct keys, how many records carry each, and filtering. */
module Grouping {

  predicate Distinct<K(==,!new)>(ks: seq<K>) {
    forall i, j :: 0 <= i < j < |ks| ==> ks[i] != ks[j]
  }

  /** Some record of `s` has key `k`. */
  predicate HasKey<T, K(==,!new)>(s: seq<T>, key: T -> K, k: K) {
    exists i :: 0 <= i < |s| && key(s[i]) == k
  }

  lemma HasKeyCons<T, K(!new)>(x: T, t: seq<T>, key: T -> K, k: K)
    ensures HasKey([x] + t, key, k) <==> key(x) == k || HasKey(t, key, k)
  {
    var s := [x] + t;
    if HasKey(t, key, k) {
      var i :| 0 <= i < |t| && key(t[i]) == k;
      assert s[i + 1] == t[i];
    }
    if HasKey(s, key, k) && key(x) != k {
      var i :| 0 <= i < |s| && key(s[i]) == k;
      assert t[i - 1] == s[i];
    }
    if key(x) == k {
      assert key(s[0]) == k;
    }
  }

  /** The number of records of `s` whose key is `k` (the size of that group). */
  function Count<T, K(==,!new)>(s: seq<T>, key: T -> K, k: K): (n: nat)
    ensures n <= |s|
    ensures n > 0 <==> HasKey(s, key, k)
  {
    if s == [] then 0
    else
      HasKeyCons(s[0], s[1..], key, k);
      assert s == [s[0]] + s[1..];
      (if key(s[0]) == k then 1 else 0) + Count(s[1..], key, k)
  }

  /** The distinct keys of `s`, each exactly once: the groups of a GroupBy, or a Distinct. */
  function Keys<T, K(==,!new)>(s: seq<T>, key: T -> K): (ks: seq<K>)
    ensures Distinct(ks)
    ensures |ks| <= |s|
    ensures forall k :: k in ks <==> HasKey(s, key, k)
  {
    if s == [] then []
    else
      var rest := Keys(s[1..], key);
      assert s == [s[0]] + s[1..];
      assert forall k :: HasKey(s, key, k) <==> key(s[0]) == k || HasKey(s[1..], key, k) by {
        forall k ensures HasKey(s, key, k) <==> key(s[0]) == k || HasKey(s[1..], key, k) {
          HasKeyCons(s[0], s[1..], key, k);
        }
      }
      if key(s[0]) in rest then rest else [key(s[0])] + rest
  }

  /** The sizes of the groups named by `ks`, added up. */
  function SumCounts<T, K(==,!new)>(ks: seq<K>, s: seq<T>, key: T -> K): nat {
    if ks == [] then 0 else Count(s, key, ks[0]) + SumCounts(ks[1..], s, key)
  }

  /** Prepending a record to `s` adds one to the total exactly when its key is among `ks`. */
  lemma {:induction false} SumCountsCons<T, K(!new)>(ks: seq<K>, x: T, t: seq<T>, key: T -> K)
    requires Distinct(ks)
    ensures SumCounts(ks, [x] + t, key) == SumCounts(ks, t, key) + (if key(x) in ks then 1 else 0)
  {
    var s := [x] + t;
    if ks != [] {
      assert s[1..] == t;
      assert Distinct(ks[1..]) by {
        forall i, j | 0 <= i < j < |ks[1..]| ensures ks[1..][i] != ks[1..][j] {
          assert ks[1..][i] == ks[i + 1] && ks[1..][j] == ks[j + 1];
        }
      }
      SumCountsCons(ks[1..], x, t, key);
      if key(x) == ks[0] {
        assert key(x) !in ks[1..] by {
          forall i | 0 <= i < |ks[1..]| ensures ks[1..][i] != ks[0] {
            assert ks[1..][i] == ks[i + 1];
          }
        }
      }
      assert key(x) in ks <==> key(x) == ks[0] || key(x) in ks[1..] by {
        assert ks == [ks[0]] + ks[1..];
      }
    }
  }

  /** Every record falls in exactly one group: the group sizes add up to the number of
      records. This is why the mean of the group sizes is |s| / (number of groups). */
  lemma {:induction false} SumOfGroupSizes<T, K(!new)>(s: seq<T>, key: T -> K)
    ensures SumCounts(Keys(s, key), s, key) == |s|
  {
    if s != [] {
      var x, t := s[0], s[1..];
      assert s == [x] + t;
      var rest := Keys(t, key);
      SumOfGroupSizes(t, key);
      SumCountsCons(rest, x, t, key);
      if key(x) !in rest {
        assert Count(t, key, key(x)) == 0;
        assert Keys(s, key) == [key(x)] + rest;
        assert ([key(x)] + rest)[1..] == rest;
      }
    }
  }

  /** The set of keys present in `s`: an independent, set-based reading of Distinct. */
  ghost function KeySet<T(!new), K(!new)>(s: seq<T>, key: T -> K): set<K> {
    set x | x in s :: key(x)
  }

  lemma {:induction false} DistinctCardinality<K(!new)>(ks: seq<K>)
    requires Distinct(ks)
    ensures |set k | k in ks| == |ks|
  {
    if ks != [] {
      var rest := ks[1..];
      assert Distinct(rest) by {
        forall i, j | 0 <= i < j < |rest| ensures rest[i] != rest[j] {
          assert rest[i] == ks[i + 1] && rest[j] == ks[j + 1];
        }
      }
      DistinctCardinality(rest);
      assert ks[0] !in rest by {
        forall i | 0 <= i < |rest| ensures rest[i] != ks[0] {
          assert rest[i] == ks[i + 1];
        }
      }
      assert (set k | k in ks) == {ks[0]} + (set k | k in rest) by {
        assert ks == [ks[0]] + rest;
      }
    }
  }

  /** Counting the distinct keys by the sequence of groups agrees with counting the set of
      keys present. */
  lemma KeysCountKeySet<T(!new), K(!new)>(s: seq<T>, key: T -> K)
    ensures |Keys(s, key)| == |KeySet(s, key)|
  {
    var ks := Keys(s, key);
    DistinctCardinality(ks);
    assert (set k | k in ks) == KeySet(s, key) by {
      forall k ensures k in ks <==> k in KeySet(s, key) {
        if k in ks {
          var i :| 0 <= i < |s| && key(s[i]) == k;
          assert s[i] in s;
        }
      }
    }
  }

  /** A sequence is Distinct exactly when no value occurs in it twice. */
  lemma {:induction false} DistinctMultiplicity<K(!new)>(ks: seq<K>, x: K)
    requires Distinct(ks)
    ensures multiset(ks)[x] <= 1
  {
    if ks != [] {
      var rest := ks[1..];
      assert ks == [ks[0]] + rest;
      assert Distinct(rest) by {
        forall i, j | 0 <= i < j < |rest| ensures rest[i] != rest[j] {
          assert rest[i] == ks[i + 1] && rest[j] == ks[j + 1];
        }
      }
      DistinctMultiplicity(rest, x);
      if x == ks[0] {
        assert x !in rest by {
          forall i | 0 <= i < |rest| ensures rest[i] != x {
            assert rest[i] == ks[i + 1];
          }
        }
      }
    }
  }

  lemma OccursTwice<K>(b: seq<K>, i: nat, j: nat)
    requires i < j < |b|
    ensures b[i] == b[j] ==> multiset(b)[b[i]] >= 2
  {
    assert b == b[..j] + b[j..];
    assert b[i] in multiset(b[..j]);
    assert b[j] in multiset(b[j..]);
  }

  /** A reordering of a sequence without repetitions has none either. */
  lemma PermutationDistinct<K(!new)>(a: seq<K>, b: seq<K>)
    requires Distinct(a)
    requires multiset(a) == multiset(b)
    ensures Distinct(b)
  {
    forall i, j | 0 <= i < j < |b| ensures b[i] != b[j] {
      DistinctMultiplicity(a, b[i]);
      OccursTwice(b, i, j);
    }
  }
}
