/** `Array.prototype.sort` with a comparator `(a, b) => key(a) - key(b)`, which is a stable sort by an
    integer key, and sums over sequences (`reduce((sum, x) => sum + f(x), 0)`). */
module Sorting {

  ghost predicate SortedBy<T>(s: seq<T>, key: T -> int)
  {
    forall i, j :: 0 <= i < j < |s| ==> key(s[i]) <= key(s[j])
  }

  /** An element no smaller than everything in a sorted sequence may be appended. */
  lemma SortedSnoc<T>(s: seq<T>, x: T, key: T -> int)
    requires SortedBy(s, key)
    requires forall k :: 0 <= k < |s| ==> key(s[k]) <= key(x)
    ensures SortedBy(s + [x], key)
  {
  }

  /** A bound on every element carries over to a sequence with the same elements plus one more. */
  lemma BoundedByMultiset<T>(a: seq<T>, b: seq<T>, x: T, key: T -> int, bound: int)
    requires multiset(a) == multiset(b) + multiset{x}
    requires forall k :: 0 <= k < |b| ==> key(b[k]) <= bound
    requires key(x) <= bound
    ensures forall k :: 0 <= k < |a| ==> key(a[k]) <= bound
  {
    forall k | 0 <= k < |a| ensures key(a[k]) <= bound {
      var y := a[k];
      assert y in multiset(a);
      if y != x {
        assert y in multiset(b);
        var m :| 0 <= m < |b| && b[m] == y;
      }
    }
  }

  /** Inserts x after every element whose key is at most key(x), which keeps equal keys in arrival order. */
  function InsertBy<T>(r: seq<T>, x: T, key: T -> int): (r': seq<T>)
    requires SortedBy(r, key)
    ensures multiset(r') == multiset(r) + multiset{x}
    ensures SortedBy(r', key)
    decreases |r|
  {
    if r == [] || key(r[|r| - 1]) <= key(x) then
      SortedSnoc(r, x, key);
      r + [x]
    else
      var last := r[|r| - 1];
      var front := r[..|r| - 1];
      assert r == front + [last];
      var init := InsertBy(front, x, key);
      BoundedByMultiset(init, front, x, key, key(last));
      SortedSnoc(init, last, key);
      init + [last]
  }

  function SortBy<T>(s: seq<T>, key: T -> int): (r: seq<T>)
    ensures multiset(r) == multiset(s) && |r| == |s|
    ensures SortedBy(r, key)
    decreases |s|
  {
    if s == [] then []
    else
      assert s == s[..|s| - 1] + [s[|s| - 1]];
      var r := InsertBy(SortBy(s[..|s| - 1], key), s[|s| - 1], key);
      assert |r| == |multiset(r)| == |multiset(s)| == |s|;
      r
  }

  lemma SortedMembers<T>(s: seq<T>, key: T -> int, x: T)
    ensures x in SortBy(s, key) <==> x in s
  {
    var r := SortBy(s, key);
    assert x in r <==> x in multiset(r);
    assert x in s <==> x in multiset(s);
  }

  function SumBy<T>(s: seq<T>, f: T -> int): int
  {
    if s == [] then 0 else SumBy(s[..|s| - 1], f) + f(s[|s| - 1])
  }

  lemma SumBySnoc<T>(s: seq<T>, x: T, f: T -> int)
    ensures SumBy(s + [x], f) == SumBy(s, f) + f(x)
  {
    assert (s + [x])[..|s|] == s;
  }

  lemma {:induction false} SumByConcat<T>(a: seq<T>, b: seq<T>, f: T -> int)
    ensures SumBy(a + b, f) == SumBy(a, f) + SumBy(b, f)
    decreases |b|
  {
    if b == [] {
      assert a + b == a;
    } else {
      assert (a + b)[..|a + b| - 1] == a + b[..|b| - 1];
      SumByConcat(a, b[..|b| - 1], f);
    }
  }

  /** A sum does not depend on the order of its terms. */
  lemma {:induction false} SumByPermutation<T>(a: seq<T>, b: seq<T>, f: T -> int)
    requires multiset(a) == multiset(b)
    ensures SumBy(a, f) == SumBy(b, f)
    decreases |a|
  {
    if a == [] {
      assert |b| == |multiset(b)| == 0;
    } else {
      var x := a[|a| - 1];
      assert a == a[..|a| - 1] + [x];
      assert x in multiset(b);
      var j :| 0 <= j < |b| && b[j] == x;
      assert b == b[..j] + [x] + b[j + 1..];
      var rest := b[..j] + b[j + 1..];
      assert multiset(b) == multiset(rest) + multiset{x};
      assert multiset(a) == multiset(a[..|a| - 1]) + multiset{x};
      assert multiset(a[..|a| - 1]) == multiset(a) - multiset{x};
      assert multiset(rest) == multiset(b) - multiset{x};
      SumByPermutation(a[..|a| - 1], rest, f);
      SumByConcat(b[..j] + [x], b[j + 1..], f);
      SumByConcat(b[..j], [x], f);
      SumByConcat(b[..j], b[j + 1..], f);
      assert SumBy([x], f) == f(x) by {
        assert [x][..0] == [];
      }
    }
  }

  lemma SortBySum<T>(s: seq<T>, key: T -> int, f: T -> int)
    ensures SumBy(SortBy(s, key), f) == SumBy(s, f)
  {
    SumByPermutation(SortBy(s, key), s, f);
  }
}
