/** Sorting by a comparison, as the components use Go's `sort.Slice` and `sort.SliceStable`. */
module Sorting {

  /** A comparison that sorting may use: total and transitive; ties are allowed. */
  ghost predicate Comparison<T(!new)>(le: (T, T) -> bool) {
    && (forall x, y :: le(x, y) || le(y, x))
    && (forall x, y, z :: le(x, y) && le(y, z) ==> le(x, z))
  }

  ghost predicate Sorted<T>(s: seq<T>, le: (T, T) -> bool) {
    forall i, j :: 0 <= i < j < |s| ==> le(s[i], s[j])
  }

  /** The elements of `s` that tie with `x`, in the order of `s`. */
  ghost function Ties<T>(s: seq<T>, le: (T, T) -> bool, x: T): seq<T> {
    if s == [] then []
    else
      var before, last := Ties(s[..|s| - 1], le, x), s[|s| - 1];
      if le(x, last) && le(last, x) then before + [last] else before
  }

  lemma {:induction false} TiesConcat<T>(a: seq<T>, b: seq<T>, le: (T, T) -> bool, x: T)
    ensures Ties(a + b, le, x) == Ties(a, le, x) + Ties(b, le, x)
  {
    if b == [] {
      assert a + b == a;
    } else {
      assert (a + b)[..|a + b| - 1] == a + b[..|b| - 1];
      TiesConcat(a, b[..|b| - 1], le, x);
    }
  }

  lemma {:induction false} TiesEmpty<T>(s: seq<T>, le: (T, T) -> bool, x: T)
    requires forall y :: y in s ==> !(le(x, y) && le(y, x))
    ensures Ties(s, le, x) == []
  {
    if s == [] {
    } else {
      TiesEmpty(s[..|s| - 1], le, x);
    }
  }

  lemma {:induction false} InsertKeepsTies<T>(s: seq<T>, le: (T, T) -> bool, e: T, p: nat, x: T)
    requires p <= |s|
    requires forall q :: p <= q < |s| ==> !(le(x, s[q]) && le(s[q], x)) || !(le(x, e) && le(e, x))
    ensures Ties(s[..p] + [e] + s[p..], le, x) == Ties(s + [e], le, x)
  {
    TiesConcat(s[..p] + [e], s[p..], le, x);
    TiesConcat(s[..p], [e], le, x);
    TiesConcat(s[..p], s[p..], le, x);
    TiesConcat(s, [e], le, x);
    assert s == s[..p] + s[p..];
    if le(x, e) && le(e, x) {
      TiesEmpty(s[p..], le, x);
    } else {
      TiesEmpty([e], le, x);
    }
  }

  lemma InsertKeepsOrder<T(!new)>(s: seq<T>, le: (T, T) -> bool, e: T, p: nat)
    requires Comparison(le) && Sorted(s, le) && p <= |s|
    requires p == 0 || le(s[p - 1], e)
    requires forall q :: p <= q < |s| ==> !le(s[q], e)
    ensures Sorted(s[..p] + [e] + s[p..], le)
  {
    var r := s[..p] + [e] + s[p..];
    forall i, j | 0 <= i < j < |r| ensures le(r[i], r[j]) {
      if j < p {
        assert r[i] == s[i] && r[j] == s[j];
      } else if j == p {
        assert r[i] == s[i] && r[j] == e;
        assert i == p - 1 || le(s[i], s[p - 1]);
      } else {
        assert r[j] == s[j - 1] && !le(s[j - 1], e);
        if i < p {
          assert r[i] == s[i];
        } else if i == p {
          assert r[i] == e;
        } else {
          assert r[i] == s[i - 1];
        }
      }
    }
  }

  lemma InsertKeepsAllTies<T(!new)>(s: seq<T>, le: (T, T) -> bool, e: T, p: nat, input: seq<T>)
    requires Comparison(le) && p <= |s|
    requires forall q :: p <= q < |s| ==> !le(s[q], e)
    requires SameTies(s, input, le)
    ensures SameTies(s[..p] + [e] + s[p..], input + [e], le)
  {
    forall x ensures Ties(s[..p] + [e] + s[p..], le, x) == Ties(input + [e], le, x) {
      InsertKeepsTies(s, le, e, p, x);
      TiesConcat(s, [e], le, x);
      TiesConcat(input, [e], le, x);
    }
  }

  /** Every element ties with the same elements in the same order. */
  ghost predicate SameTies<T(!new)>(a: seq<T>, b: seq<T>, le: (T, T) -> bool) {
    forall x :: Ties(a, le, x) == Ties(b, le, x)
  }

  /** Puts one element behind every element that is not greater. */
  method Insert<T(!new)>(s: seq<T>, le: (T, T) -> bool, e: T, ghost input: seq<T>) returns (r: seq<T>)
    requires Comparison(le) && Sorted(s, le) && SameTies(s, input, le)
    ensures Sorted(r, le) && multiset(r) == multiset(s) + multiset{e} && |r| == |s| + 1
    ensures SameTies(r, input + [e], le)
  {
    var p := |s|;
    while p > 0 && !le(s[p - 1], e)
      invariant 0 <= p <= |s|
      invariant forall q :: p <= q < |s| ==> !le(s[q], e)
    {
      p := p - 1;
    }
    InsertKeepsOrder(s, le, e, p);
    InsertKeepsAllTies(s, le, e, p, input);
    assert s == s[..p] + s[p..];
    r := s[..p] + [e] + s[p..];
  }

  /** `sort.SliceStable`: ordered, the same elements, and ties keep their input order. */
  method StableSort<T(!new)>(s: seq<T>, le: (T, T) -> bool) returns (r: seq<T>)
    requires Comparison(le)
    ensures Sorted(r, le) && multiset(r) == multiset(s) && |r| == |s|
    ensures SameTies(r, s, le)
  {
    r := [];
    for i := 0 to |s|
      invariant Sorted(r, le) && multiset(r) == multiset(s[..i]) && |r| == i
      invariant SameTies(r, s[..i], le)
    {
      assert s[..i + 1] == s[..i] + [s[i]];
      r := Insert(r, le, s[i], s[..i]);
    }
    assert s[..|s|] == s;
  }

  /** `sort.Slice`: ordered and the same elements; the order of ties is not promised. */
  method Sort<T(!new)>(s: seq<T>, le: (T, T) -> bool) returns (r: seq<T>)
    requires Comparison(le)
    ensures Sorted(r, le) && multiset(r) == multiset(s) && |r| == |s|
  {
    r := StableSort(s, le);
  }

  lemma DropFirst<T>(a: seq<T>)
    requires a != []
    ensures multiset(a[1..]) == multiset(a) - multiset{a[0]}
  {
    assert a == [a[0]] + a[1..];
  }

  /** Without ties between different elements, a sorted arrangement is unique. */
  lemma {:induction false} SortedUnique<T>(a: seq<T>, b: seq<T>, le: (T, T) -> bool)
    requires Sorted(a, le) && Sorted(b, le) && multiset(a) == multiset(b)
    requires forall i, j :: 0 <= i < j < |a| && le(a[j], a[i]) ==> a[i] == a[j]
    ensures a == b
  {
    assert |a| == |multiset(a)| == |multiset(b)| == |b|;
    if a == [] {
    } else {
      assert a[0] == b[0] by {
        assert a[0] in multiset(b) && b[0] in multiset(a);
        var i :| 0 <= i < |b| && b[i] == a[0];
        var j :| 0 <= j < |a| && a[j] == b[0];
        if i > 0 && j > 0 {
          assert le(b[0], b[i]) && le(a[0], a[j]);
        }
      }
      DropFirst(a);
      DropFirst(b);
      SortedUnique(a[1..], b[1..], le);
    }
  }

  lemma DropLast<T>(a: seq<T>)
    requires a != []
    ensures multiset(a[..|a| - 1]) == multiset(a) - multiset{a[|a| - 1]}
  {
    assert a == a[..|a| - 1] + [a[|a| - 1]];
  }

  lemma LastIsGreatest<T(!new)>(a: seq<T>, le: (T, T) -> bool, x: T)
    requires Comparison(le) && Sorted(a, le) && x in multiset(a)
    ensures le(x, a[|a| - 1])
  {
    var i :| 0 <= i < |a| && a[i] == x;
    if i < |a| - 1 {
      assert le(a[i], a[|a| - 1]);
    } else {
      assert le(x, x) || le(x, x);
    }
  }

  lemma SameEnd<T>(a: seq<T>, b: seq<T>, end: T)
    requires a + [end] == b + [end]
    ensures a == b
  {
    assert |a + [end]| == |b + [end]|;
    assert a == (a + [end])[..|a|] && b == (b + [end])[..|b|];
  }

  lemma TiesDropLast<T>(a: seq<T>, b: seq<T>, last: T, le: (T, T) -> bool, z: T)
    requires Ties(a + [last], le, z) == Ties(b + [last], le, z)
    ensures Ties(a, le, z) == Ties(b, le, z)
  {
    assert (a + [last])[..|a|] == a && (b + [last])[..|b|] == b;
    if le(z, last) && le(last, z) {
      SameEnd(Ties(a, le, z), Ties(b, le, z), last);
    }
  }

  lemma SameTiesDropLast<T(!new)>(a: seq<T>, b: seq<T>, last: T, le: (T, T) -> bool)
    requires SameTies(a + [last], b + [last], le)
    ensures SameTies(a, b, le)
  {
    forall z ensures Ties(a, le, z) == Ties(b, le, z) {
      TiesDropLast(a, b, last, le, z);
    }
  }

  lemma SameLast<T(!new)>(a: seq<T>, b: seq<T>, le: (T, T) -> bool)
    requires Comparison(le) && Sorted(a, le) && Sorted(b, le) && multiset(a) == multiset(b) && a != [] && b != []
    requires SameTies(a, b, le)
    ensures a[|a| - 1] == b[|b| - 1]
  {
    var x, y := a[|a| - 1], b[|b| - 1];
    assert x in multiset(b) && y in multiset(a);
    LastIsGreatest(b, le, x);
    LastIsGreatest(a, le, y);
    LastIsGreatest(a, le, x);
    var ties := Ties(a, le, x);
    assert ties == Ties(a[..|a| - 1], le, x) + [x] && ties == Ties(b[..|b| - 1], le, x) + [y];
    assert ties[|ties| - 1] == x && ties[|ties| - 1] == y;
  }

  lemma DropSameLast<T(!new)>(a: seq<T>, b: seq<T>, last: T, le: (T, T) -> bool)
    requires Sorted(a + [last], le) && Sorted(b + [last], le) && multiset(a + [last]) == multiset(b + [last])
    ensures Sorted(a, le) && Sorted(b, le) && multiset(a) == multiset(b)
  {
    var c, d := a + [last], b + [last];
    DropLast(c);
    DropLast(d);
    assert c[..|a|] == a && d[..|b|] == b;
    assert forall i :: 0 <= i < |a| ==> a[i] == c[i];
    assert forall i :: 0 <= i < |b| ==> b[i] == d[i];
  }

  /** A stable arrangement is unique, ties or not. */
  lemma {:induction false} StableUnique<T(!new)>(a: seq<T>, b: seq<T>, le: (T, T) -> bool)
    requires Comparison(le) && Sorted(a, le) && Sorted(b, le) && multiset(a) == multiset(b)
    requires SameTies(a, b, le)
    ensures a == b
    decreases |a|
  {
    assert |a| == |multiset(a)| == |multiset(b)| == |b|;
    if a == [] {
    } else {
      SameLast(a, b, le);
      var front, other, last := a[..|a| - 1], b[..|b| - 1], a[|a| - 1];
      assert a == front + [last] && b == other + [last];
      DropSameLast(front, other, last, le);
      SameTiesDropLast(front, other, last, le);
      StableUnique(front, other, le);
    }
  }
}
