/** Capped shortlists: the k nearest members of a pool, nearest first. */
module Shortlist {

  ghost predicate Distinct<T>(s: seq<T>) {
    forall i, j :: 0 <= i < j < |s| ==> s[i] != s[j]
  }

  ghost predicate Ascending<T>(s: seq<T>, d: T -> int) {
    forall i, j :: 0 <= i < j < |s| ==> d(s[i]) <= d(s[j])
  }

  ghost function Elements<T>(s: seq<T>): set<T> {
    set x | x in s
  }

  ghost function Min(a: nat, b: nat): nat {
    if a < b then a else b
  }

  /** `r` lists `k` members of `pool` (or all, if fewer), nearest first, and nobody left out is nearer. */
  ghost predicate Nearest<T>(r: seq<T>, pool: set<T>, k: nat, d: T -> int) {
    && Distinct(r) && Ascending(r, d) && Elements(r) <= pool
    && |r| == Min(k, |pool|)
    && (forall x, y :: x in pool && x !in r && y in r ==> d(y) <= d(x))
  }

  ghost predicate NoTies<T>(pool: set<T>, d: T -> int) {
    forall x, y :: x in pool && y in pool && d(x) == d(y) ==> x == y
  }

  lemma {:induction false} DistinctCount<T>(s: seq<T>)
    requires Distinct(s)
    ensures |Elements(s)| == |s|
  {
    if s == [] {
    } else {
      var t := s[..|s| - 1];
      DistinctCount(t);
      assert s[|s| - 1] !in Elements(t);
      assert Elements(s) == Elements(t) + {s[|s| - 1]} by {
        assert s == t + [s[|s| - 1]];
      }
    }
  }

  lemma {:induction false} CountBound<T>(s: seq<T>)
    ensures |Elements(s)| <= |s|
  {
    if s == [] {
    } else {
      var t := s[..|s| - 1];
      CountBound(t);
      assert Elements(s) == Elements(t) + {s[|s| - 1]};
    }
  }

  lemma SubsetCount<T>(a: set<T>, b: set<T>)
    requires a <= b
    ensures |a| <= |b| && (|a| == |b| ==> a == b)
  {
    assert b == a + (b - a);
  }

  /** A shortlist shorter than its cap holds the whole pool. */
  lemma ShortHoldsAll<T>(r: seq<T>, pool: set<T>, k: nat, d: T -> int)
    requires Nearest(r, pool, k, d) && |r| < k
    ensures Elements(r) == pool
  {
    DistinctCount(r);
    SubsetCount(Elements(r), pool);
  }

  /** Cutting a shortlist gives the shortlist of the smaller cap. */
  lemma Cut<T>(r: seq<T>, pool: set<T>, k: nat, c: nat, d: T -> int)
    requires Nearest(r, pool, k, d) && c <= k
    ensures Nearest(r[..Min(c, |r|)], pool, c, d)
  {
    var s := r[..Min(c, |r|)];
    forall x, y | x in pool && x !in s && y in s ensures d(y) <= d(x) {
      if x in r {
        var j :| 0 <= j < |r| && r[j] == x;
        var i :| 0 <= i < |s| && s[i] == y;
        assert j >= |s| && r[i] == y;
      }
    }
  }

  lemma NearerIsBefore<T>(r: seq<T>, a: set<T>, s: seq<T>, b: set<T>, k: nat, d: T -> int, i: nat, p: nat)
    requires Nearest(r, a, k, d) && Nearest(s, b, k, d) && a <= b && p <= i < |r| && i < |s| && d(s[i]) > d(r[i])
    ensures r[p] in s[..i]
  {
    var x := r[p];
    assert x in Elements(r) && s[i] in s && d(x) <= d(r[i]);
    var q :| 0 <= q < |s| && s[q] == x;
    assert q < i;
    assert s[..i][q] == x;
  }

  /** A larger pool has, position by position, a shortlist at least as near. */
  lemma PoolGrows<T>(r: seq<T>, a: set<T>, s: seq<T>, b: set<T>, k: nat, d: T -> int, i: nat)
    requires Nearest(r, a, k, d) && Nearest(s, b, k, d) && a <= b && i < |r|
    ensures i < |s| && d(s[i]) <= d(r[i])
  {
    SubsetCount(a, b);
    if d(s[i]) > d(r[i]) {
      var head := r[..i + 1];
      forall x | x in head ensures x in s[..i] {
        var p :| 0 <= p < |head| && head[p] == x;
        NearerIsBefore(r, a, s, b, k, d, i, p);
      }
      DistinctCount(head);
      CountBound(s[..i]);
      SubsetCount(Elements(head), Elements(s[..i]));
      assert false;
    }
  }

  /** Without ties the shortlist is unique. */
  lemma Unique<T>(r: seq<T>, s: seq<T>, pool: set<T>, k: nat, d: T -> int)
    requires Nearest(r, pool, k, d) && Nearest(s, pool, k, d) && NoTies(pool, d)
    ensures r == s
  {
    forall i | 0 <= i < |r| ensures r[i] == s[i] {
      PoolGrows(r, pool, s, pool, k, d, i);
      PoolGrows(s, pool, r, pool, k, d, i);
      assert r[i] in r && s[i] in s;
    }
  }

  lemma SamePermutationDistinct<T>(s: seq<T>, t: seq<T>)
    requires multiset(s) == multiset(t) && Distinct(t)
    ensures Distinct(s)
  {
    forall i, j | 0 <= i < j < |s| ensures s[i] != s[j] {
      if s[i] == s[j] {
        assert s == s[..i] + [s[i]] + s[i + 1..j] + [s[j]] + s[j + 1..];
        assert multiset(s)[s[i]] >= 2;
        DistinctMultiplicity(t, s[i]);
        assert false;
      }
    }
  }

  lemma {:induction false} DistinctMultiplicity<T>(t: seq<T>, x: T)
    requires Distinct(t)
    ensures multiset(t)[x] <= 1
  {
    if t == [] {
    } else {
      var u := t[..|t| - 1];
      assert t == u + [t[|t| - 1]];
      DistinctMultiplicity(u, x);
      if x == t[|t| - 1] {
        assert x !in u;
      }
    }
  }

  /** If the newcomer is listed while a pool member is not, some listed member was pushed past it. */
  lemma NewcomerIsNearer<T>(best: seq<T>, pool: set<T>, k: nat, d: T -> int, n: T, s: seq<T>, x: T, i: nat)
    requires Nearest(best, pool, k, d) && x in pool && x !in best
    requires |s| == |best| + 1 && Distinct(s) && Ascending(s, d)
    requires forall y :: y in s ==> y in best || y == n
    requires i < k && i < |s| && s[i] == n
    ensures d(n) <= d(x)
  {
    if |best| < k {
      ShortHoldsAll(best, pool, k, d);
      assert false;
    }
    var z := s[|s| - 1];
    assert z in s && z != n;
    assert z in best;
  }

  lemma SameMembers<T>(s: seq<T>, t: seq<T>)
    requires multiset(s) == multiset(t)
    ensures |s| == |t| && Elements(s) == Elements(t)
  {
    assert |s| == |multiset(s)| == |multiset(t)| == |t|;
    forall x ensures x in s <==> x in t {
      assert x in s <==> x in multiset(s);
      assert x in t <==> x in multiset(t);
    }
  }

  lemma MergeOmits<T>(best: seq<T>, pool: set<T>, k: nat, d: T -> int, n: T, s: seq<T>, x: T, i: nat)
    requires Nearest(best, pool, k, d) && n !in best
    requires |s| == |best| + 1 && Distinct(s) && Ascending(s, d) && Elements(s) == Elements(best + [n])
    requires x in pool + {n} && x !in s[..Min(k, |s|)] && i < Min(k, |s|)
    ensures d(s[i]) <= d(x)
  {
    if x in s {
      var j :| 0 <= j < |s| && s[j] == x;
      var r := s[..Min(k, |s|)];
      forall q | 0 <= q < |r| ensures s[q] in r {
        assert r[q] == s[q];
      }
      assert j >= |r|;
    } else {
      assert n in Elements(best + [n]) && x != n;
      assert x !in best by { assert x in best ==> x in Elements(best + [n]); }
      if s[i] == n {
        forall y | y in s ensures y in best || y == n {
          assert y in Elements(s);
        }
        NewcomerIsNearer(best, pool, k, d, n, s, x, i);
      } else {
        assert s[i] in Elements(s);
        assert s[i] in best;
      }
    }
  }

  lemma MergeSize<T>(best: seq<T>, pool: set<T>, k: nat, d: T -> int, n: T)
    requires Nearest(best, pool, k, d) && n !in best
    ensures Min(k, |best| + 1) == Min(k, |pool + {n}|)
  {
    if |best| < k {
      ShortHoldsAll(best, pool, k, d);
      assert n !in pool;
    } else if n in pool {
      assert pool + {n} == pool;
    }
  }

  /** Adding one candidate, re-sorting and cutting keeps the shortlist exact. */
  lemma Merge<T>(best: seq<T>, pool: set<T>, k: nat, d: T -> int, n: T, s: seq<T>)
    requires Nearest(best, pool, k, d) && n !in best
    requires multiset(s) == multiset(best + [n]) && Ascending(s, d)
    ensures Nearest(s[..Min(k, |s|)], pool + {n}, k, d)
  {
    var r := s[..Min(k, |s|)];
    SameMembers(s, best + [n]);
    SamePermutationDistinct(s, best + [n]);
    MergeSize(best, pool, k, d, n);
    forall x, y | x in pool + {n} && x !in r && y in r ensures d(y) <= d(x) {
      var i :| 0 <= i < |r| && r[i] == y;
      MergeOmits(best, pool, k, d, n, s, x, i);
    }
    assert Elements(r) <= pool + {n} by {
      forall x | x in r ensures x in pool + {n} {
        assert x in Elements(s);
        assert x == n || x in Elements(best);
      }
    }
  }

  ghost function Least<T>(pool: set<T>, d: T -> int): (m: T)
    requires pool != {}
    ensures m in pool && forall x :: x in pool ==> d(m) <= d(x)
  {
    var x :| x in pool;
    if pool == {x} then x
    else
      assert pool != {x} ==> pool - {x} != {};
      var y := Least(pool - {x}, d);
      if d(x) <= d(y) then x else y
  }

  /** The k nearest members, chosen one after another. */
  ghost function TopK<T>(pool: set<T>, k: nat, d: T -> int): seq<T>
    decreases k
  {
    if k == 0 || pool == {} then []
    else
      var m := Least(pool, d);
      [m] + TopK(pool - {m}, k - 1, d)
  }

  lemma PrependLeast<T>(m: T, t: seq<T>, pool: set<T>, k: nat, d: T -> int)
    requires k > 0 && m in pool && forall x :: x in pool ==> d(m) <= d(x)
    requires Nearest(t, pool - {m}, k - 1, d)
    ensures Nearest([m] + t, pool, k, d)
  {
    var r := [m] + t;
    forall j | 0 <= j < |t| ensures t[j] in pool - {m} {
      assert t[j] in Elements(t);
    }
    assert Elements(r) == {m} + Elements(t);
    forall x, y | x in pool && x !in r && y in r ensures d(y) <= d(x) {
      assert x !in Elements(r) && y in Elements(r);
    }
  }

  /** Choosing the least member k times yields a shortlist. */
  lemma {:induction false} TopKIsNearest<T>(pool: set<T>, k: nat, d: T -> int)
    ensures Nearest(TopK(pool, k, d), pool, k, d)
    decreases k
  {
    if k > 0 && pool != {} {
      var m := Least(pool, d);
      TopKIsNearest(pool - {m}, k - 1, d);
      PrependLeast(m, TopK(pool - {m}, k - 1, d), pool, k, d);
    }
  }
}
