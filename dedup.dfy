/** First-seen de-duplication: the order in which the keys of a JavaScript `Map` (or the members of a
    `Set`) come out when it is filled from a sequence and only new keys are added. */
module Dedup {

  ghost predicate NoDuplicates<T>(s: seq<T>)
  {
    forall i, j :: 0 <= i < j < |s| ==> s[i] != s[j]
  }

  function Distinct<T(==)>(s: seq<T>): (r: seq<T>)
    ensures NoDuplicates(r)
    ensures forall k :: 0 <= k < |r| ==> r[k] in s
    ensures forall k :: 0 <= k < |s| ==> s[k] in r
    decreases |s|
  {
    if s == [] then []
    else
      var d := Distinct(s[..|s| - 1]);
      assert s == s[..|s| - 1] + [s[|s| - 1]];
      if s[|s| - 1] in d then d else d + [s[|s| - 1]]
  }

  /** The index of the first occurrence of x in s. */
  function FirstIndex<T(==)>(s: seq<T>, x: T): (k: nat)
    requires x in s
    ensures k < |s| && s[k] == x && x !in s[..k]
  {
    if s[0] == x then 0 else 1 + FirstIndex(s[1..], x)
  }

  lemma {:induction false} FirstIndexPrefix<T>(s: seq<T>, t: seq<T>, x: T)
    requires x in s
    ensures FirstIndex(s + t, x) == FirstIndex(s, x)
  {
    var k := FirstIndex(s, x);
    var k' := FirstIndex(s + t, x);
    assert (s + t)[k] == x;
    assert (s + t)[..k] == s[..k];
  }

  /** `Distinct` keeps the first-seen order: earlier entries were seen first. */
  lemma {:induction false} DistinctFirstSeenOrder<T>(s: seq<T>, i: int, j: int)
    requires 0 <= i < j < |Distinct(s)|
    ensures FirstIndex(s, Distinct(s)[i]) < FirstIndex(s, Distinct(s)[j])
    decreases |s|
  {
    var n := |s|;
    var front := s[..n - 1];
    var d := Distinct(front);
    assert s == front + [s[n - 1]];
    var r := Distinct(s);
    assert r[i] in front;
    FirstIndexPrefix(front, [s[n - 1]], r[i]);
    if s[n - 1] in d || j < |d| {
      assert r[j] in front;
      FirstIndexPrefix(front, [s[n - 1]], r[j]);
      DistinctFirstSeenOrder(front, i, j);
    } else {
      assert r[j] == s[n - 1] && s[n - 1] !in front;
      assert FirstIndex(s, r[j]) == n - 1;
    }
  }

  /** Each member of a sequence without duplicates occurs in it exactly once. */
  lemma {:induction false} OccursOnce<T>(r: seq<T>, x: T)
    requires NoDuplicates(r) && x in r
    ensures multiset(r)[x] == 1
    decreases |r|
  {
    var n := |r|;
    assert r == r[..n - 1] + [r[n - 1]];
    if r[n - 1] == x {
      assert x !in r[..n - 1];
    } else {
      OccursOnce(r[..n - 1], x);
    }
  }

  /** Appending one element adds it to the de-duplicated sequence iff it is new. */
  lemma DistinctSnoc<T>(s: seq<T>, x: T)
    ensures Distinct(s + [x]) == if x in s then Distinct(s) else Distinct(s) + [x]
  {
    assert (s + [x])[..|s|] == s;
    if x in s {
      var k :| 0 <= k < |s| && s[k] == x;
      assert x in Distinct(s);
    } else {
      assert x !in Distinct(s);
    }
  }
}
