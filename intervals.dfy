/** Half-open intervals of millisecond instants and the two set operations of the Gantt page:
    `subtractSegmentsFromInterval` and `mergeIntervals`. Each is stated by the points it covers. */
module Intervals {
  import opened Sorting

  /** The half-open interval [start, end). */
  datatype Interval = Interval(start: int, end: int)

  function Max(a: int, b: int): int { if a < b then b else a }

  function Min(a: int, b: int): int { if a < b then a else b }

  predicate NonEmpty(iv: Interval) { iv.start < iv.end }

  predicate Contains(iv: Interval, p: int) { iv.start <= p < iv.end }

  /** Some interval of xs contains the instant p. */
  ghost predicate Covers(xs: seq<Interval>, p: int)
  {
    exists k :: 0 <= k < |xs| && Contains(xs[k], p)
  }

  /** Non-empty intervals in ascending order, each starting strictly after the previous one ends
      (so no two overlap or touch). */
  ghost predicate Canonical(xs: seq<Interval>)
  {
    && (forall k :: 0 <= k < |xs| ==> NonEmpty(xs[k]))
    && (forall i, j :: 0 <= i < j < |xs| ==> xs[i].end < xs[j].start)
  }

  ghost predicate Inside(xs: seq<Interval>, w: Interval)
  {
    forall k :: 0 <= k < |xs| ==> w.start <= xs[k].start && xs[k].end <= w.end
  }

  function StartOf(iv: Interval): int { iv.start }

  /** The interval cut to the window: `max` of the starts, `min` of the ends. */
  function Clamp(iv: Interval, w: Interval): (r: Interval)
    ensures w.start <= r.start && r.end <= w.end
    ensures forall p :: Contains(r, p) <==> Contains(iv, p) && Contains(w, p)
  {
    Interval(Max(iv.start, w.start), Min(iv.end, w.end))
  }

  lemma CoversAppend(a: seq<Interval>, b: seq<Interval>)
    ensures forall p :: Covers(a + b, p) <==> Covers(a, p) || Covers(b, p)
  {
    forall p ensures Covers(a + b, p) <==> Covers(a, p) || Covers(b, p) {
      if Covers(a + b, p) {
        var k :| 0 <= k < |a + b| && Contains((a + b)[k], p);
        if k < |a| {
          assert (a + b)[k] == a[k];
        } else {
          assert (a + b)[k] == b[k - |a|];
        }
      }
      if Covers(a, p) {
        var k :| 0 <= k < |a| && Contains(a[k], p);
        assert (a + b)[k] == a[k];
      }
      if Covers(b, p) {
        var k :| 0 <= k < |b| && Contains(b[k], p);
        assert (a + b)[|a| + k] == b[k];
      }
    }
  }

  lemma CoversSingle(x: Interval)
    ensures forall p :: Covers([x], p) <==> Contains(x, p)
  {
    forall p ensures Covers([x], p) <==> Contains(x, p) {
      if Contains(x, p) {
        assert [x][0] == x;
      }
    }
  }

  lemma CoversSnoc(a: seq<Interval>, x: Interval)
    ensures forall p :: Covers(a + [x], p) <==> Covers(a, p) || Contains(x, p)
  {
    CoversAppend(a, [x]);
    CoversSingle(x);
  }

  /** The first interval of a canonical list starts at its least point, and its end is not covered. */
  lemma CanonicalHead(xs: seq<Interval>)
    requires Canonical(xs) && xs != []
    ensures Covers(xs, xs[0].start) && !Covers(xs, xs[0].end)
    ensures forall p :: Covers(xs, p) ==> xs[0].start <= p
    ensures forall p :: Covers(xs[1..], p) <==> Covers(xs, p) && xs[0].end <= p
  {
    assert Contains(xs[0], xs[0].start);
    forall p | Covers(xs[1..], p) ensures Covers(xs, p) && xs[0].end <= p {
      var k :| 0 <= k < |xs[1..]| && Contains(xs[1..][k], p);
      assert xs[1..][k] == xs[k + 1];
    }
    forall p | Covers(xs, p) && xs[0].end <= p ensures Covers(xs[1..], p) {
      var k :| 0 <= k < |xs| && Contains(xs[k], p);
      assert k != 0;
      assert xs[1..][k - 1] == xs[k];
    }
  }

  /** A set of instants has exactly one canonical representation. */
  lemma {:induction false} CanonicalUnique(a: seq<Interval>, b: seq<Interval>)
    requires Canonical(a) && Canonical(b)
    requires forall p :: Covers(a, p) <==> Covers(b, p)
    ensures a == b
    decreases |a|
  {
    if a != [] && b != [] {
      CanonicalHead(a);
      CanonicalHead(b);
      assert a[0].start == b[0].start;
      assert !Covers(b, a[0].end) && !Covers(a, b[0].end);
      assert a[0].end <= b[0].end by {
        if b[0].end < a[0].end {
          assert Contains(a[0], b[0].end);
        }
      }
      assert b[0].end <= a[0].end by {
        if a[0].end < b[0].end {
          assert Contains(b[0], a[0].end);
        }
      }
      CanonicalUnique(a[1..], b[1..]);
      assert a == [a[0]] + a[1..] && b == [b[0]] + b[1..];
    } else if a != [] {
      CanonicalHead(a);
    } else if b != [] {
      CanonicalHead(b);
    }
  }

  /** The segments that reach into [lo, hi): `filter(s => s.end > lo && s.start < hi)`. */
  function Overlapping(xs: seq<Interval>, lo: int, hi: int): (r: seq<Interval>)
    ensures forall k :: 0 <= k < |r| ==> r[k] in xs && r[k].end > lo && r[k].start < hi
    ensures forall k :: 0 <= k < |xs| && xs[k].end > lo && xs[k].start < hi ==> xs[k] in r
    decreases |xs|
  {
    if xs == [] then []
    else
      var r := Overlapping(xs[..|xs| - 1], lo, hi);
      var x := xs[|xs| - 1];
      assert forall k :: 0 <= k < |xs| - 1 ==> xs[k] == xs[..|xs| - 1][k];
      if x.end > lo && x.start < hi then r + [x] else r
  }

  /** Every interval of a is one of b's. */
  ghost predicate MembersOf(a: seq<Interval>, b: seq<Interval>)
  {
    forall k :: 0 <= k < |a| ==> a[k] in b
  }

  lemma CoversMono(a: seq<Interval>, b: seq<Interval>)
    requires MembersOf(a, b)
    ensures forall p :: Covers(a, p) ==> Covers(b, p)
  {
    forall p | Covers(a, p) ensures Covers(b, p) {
      var k :| 0 <= k < |a| && Contains(a[k], p);
      var m :| 0 <= m < |b| && b[m] == a[k];
    }
  }

  lemma SortedMembersOf(s: seq<Interval>)
    ensures MembersOf(SortBy(s, StartOf), s) && MembersOf(s, SortBy(s, StartOf))
  {
    var r := SortBy(s, StartOf);
    forall k | 0 <= k < |r| ensures r[k] in s {
      SortedMembers(s, StartOf, r[k]);
    }
    forall k | 0 <= k < |s| ensures s[k] in r {
      SortedMembers(s, StartOf, s[k]);
    }
  }

  lemma OverlappingCovers(segments: seq<Interval>, base: Interval)
    ensures forall p :: Contains(base, p) ==> (Covers(Overlapping(segments, base.start, base.end), p) <==> Covers(segments, p))
  {
    var f := Overlapping(segments, base.start, base.end);
    assert MembersOf(f, segments);
    CoversMono(f, segments);
    forall p | Contains(base, p) && Covers(segments, p) ensures Covers(f, p) {
      var k :| 0 <= k < |segments| && Contains(segments[k], p);
      var m :| 0 <= m < |f| && f[m] == segments[k];
    }
  }

  /** `[...segments].filter(...).sort((a, b) => a.start - b.start)`: the segments that reach into
      the base, sorted by start, covering the same points of the base. */
  method SubtractSchedule(segments: seq<Interval>, base: Interval) returns (r: seq<Interval>)
    ensures forall i, j :: 0 <= i < j < |r| ==> r[i].start <= r[j].start
    ensures forall p :: Contains(base, p) ==> (Covers(r, p) <==> Covers(segments, p))
    ensures segments == [] ==> r == []
  {
    var f := Overlapping(segments, base.start, base.end);
    r := SortBy(f, StartOf);
    assert forall i, j :: 0 <= i < j < |r| ==> StartOf(r[i]) <= StartOf(r[j]);
    OverlappingCovers(segments, base);
    SortedCovers(f);
  }

  /** What the subtraction has settled about the point p once the segments `done` are processed
      and the cursor stands at `cursor`: below the cursor, p is in a result piece exactly when no
      processed segment covers it; from the cursor to the end of the base, no processed segment
      covers p. */
  ghost predicate Swept(result: seq<Interval>, done: seq<Interval>, es: int, cursor: int, ee: int, p: int)
  {
    && (es <= p < cursor ==> (Covers(result, p) <==> !Covers(done, p)))
    && (cursor <= p < ee ==> !Covers(done, p))
  }

  lemma CoversSnocAt(a: seq<Interval>, x: Interval, p: int)
    ensures Covers(a + [x], p) <==> Covers(a, p) || Contains(x, p)
  {
    CoversSnoc(a, x);
  }

  /** Intervals that all end by `bound` cover no point at or after it. */
  lemma NotCoveredBeyond(xs: seq<Interval>, bound: int, p: int)
    requires forall k :: 0 <= k < |xs| ==> xs[k].end <= bound
    requires bound <= p
    ensures !Covers(xs, p)
  {
    forall k | 0 <= k < |xs| ensures !Contains(xs[k], p) {
    }
  }

  /** One turn of the subtraction loop, from (result, cursor) to (result', cursor') over the
      segment seg, keeps `Swept` at every point. */
  lemma SubtractStep(done: seq<Interval>, seg: Interval, es: int, ee: int,
                     result: seq<Interval>, cursor: int, result': seq<Interval>, cursor': int)
    requires es <= cursor
    requires forall k :: 0 <= k < |result| ==> result[k].end < cursor && result[k].end <= seg.start
    requires forall p :: Swept(result, done, es, cursor, ee, p)
    requires var ss := Max(es, seg.start);
             var se := Min(ee, seg.end);
             && result' == (if se > ss && ss > cursor then result + [Interval(cursor, ss)] else result)
             && cursor' == (if se > ss then Max(cursor, se) else cursor)
    ensures forall p :: Swept(result', done + [seg], es, cursor', ee, p)
  {
    var ss := Max(es, seg.start);
    var se := Min(ee, seg.end);
    forall p ensures Swept(result', done + [seg], es, cursor', ee, p) {
      assert Swept(result, done, es, cursor, ee, p);
      CoversSnocAt(done, seg, p);
      if se > ss && ss > cursor {
        CoversSnocAt(result, Interval(cursor, ss), p);
      }
      if cursor <= p {
        NotCoveredBeyond(result, cursor, p);
      } else if Contains(seg, p) {
        NotCoveredBeyond(result, seg.start, p);
      }
    }
  }

  /** The shape of the subtraction's state after the first i segments: the pieces so far are
      canonical, inside [es, ee), end before the cursor, and end by the start of every segment still
      to come (segments arrive sorted by start). */
  ghost predicate SubtractFrame(sorted: seq<Interval>, i: int, es: int, ee: int, result: seq<Interval>, cursor: int)
  {
    && 0 <= i <= |sorted|
    && es <= cursor && (cursor == es || cursor <= ee)
    && Canonical(result) && Inside(result, Interval(es, ee))
    && (forall k :: 0 <= k < |result| ==> result[k].end < cursor)
    && (forall k, m :: 0 <= k < |result| && i <= m < |sorted| ==> result[k].end <= sorted[m].start)
  }

  lemma SubtractFrameStep(sorted: seq<Interval>, i: int, es: int, ee: int,
                          result: seq<Interval>, cursor: int, result': seq<Interval>, cursor': int)
    requires forall a, b :: 0 <= a < b < |sorted| ==> sorted[a].start <= sorted[b].start
    requires SubtractFrame(sorted, i, es, ee, result, cursor) && i < |sorted|
    requires var ss := Max(es, sorted[i].start);
             var se := Min(ee, sorted[i].end);
             && result' == (if se > ss && ss > cursor then result + [Interval(cursor, ss)] else result)
             && cursor' == (if se > ss then Max(cursor, se) else cursor)
    ensures SubtractFrame(sorted, i + 1, es, ee, result', cursor')
  {
  }

  /** One whole turn of the subtraction loop over the segment sorted[i]. */
  lemma SubtractTurn(sorted: seq<Interval>, i: int, done: seq<Interval>, es: int, ee: int,
                     result: seq<Interval>, cursor: int, result': seq<Interval>, cursor': int)
    requires forall a, b :: 0 <= a < b < |sorted| ==> sorted[a].start <= sorted[b].start
    requires SubtractFrame(sorted, i, es, ee, result, cursor) && i < |sorted|
    requires forall p :: Swept(result, done, es, cursor, ee, p)
    requires var ss := Max(es, sorted[i].start);
             var se := Min(ee, sorted[i].end);
             && result' == (if se > ss && ss > cursor then result + [Interval(cursor, ss)] else result)
             && cursor' == (if se > ss then Max(cursor, se) else cursor)
    ensures SubtractFrame(sorted, i + 1, es, ee, result', cursor')
    ensures forall p :: Swept(result', done + [sorted[i]], es, cursor', ee, p)
  {
    SubtractStep(done, sorted[i], es, ee, result, cursor, result', cursor');
    SubtractFrameStep(sorted, i, es, ee, result, cursor, result', cursor');
  }

  /** The piece after the cursor completes the subtraction once every segment is processed. */
  lemma SubtractFinish(sorted: seq<Interval>, base: Interval, segments: seq<Interval>,
                       result: seq<Interval>, cursor: int, result': seq<Interval>)
    requires SubtractFrame(sorted, |sorted|, base.start, base.end, result, cursor)
    requires forall p :: Swept(result, sorted, base.start, cursor, base.end, p)
    requires forall p :: Contains(base, p) ==> (Covers(sorted, p) <==> Covers(segments, p))
    requires result' == if cursor < base.end then result + [Interval(cursor, base.end)] else result
    ensures Canonical(result') && Inside(result', base)
    ensures forall p :: Contains(base, p) ==> (Covers(result', p) <==> !Covers(segments, p))
  {
    forall p | Contains(base, p) ensures Covers(result', p) <==> !Covers(segments, p) {
      assert Swept(result, sorted, base.start, cursor, base.end, p);
      if cursor < base.end {
        CoversSnocAt(result, Interval(cursor, base.end), p);
      }
      if cursor <= p {
        NotCoveredBeyond(result, cursor, p);
      }
    }
  }

  /** `subtractSegmentsFromInterval`: the parts of base that no segment covers, found by a cursor
      that only moves forward over the segments sorted by start. */
  method Subtract(base: Interval, segments: seq<Interval>) returns (result: seq<Interval>)
    ensures Canonical(result) && Inside(result, base)
    ensures forall p :: Contains(base, p) ==> (Covers(result, p) <==> !Covers(segments, p))
    ensures segments == [] ==> result == if NonEmpty(base) then [base] else []
  {
    var es, ee := base.start, base.end;
    var sorted := SubtractSchedule(segments, base);
    result := [];
    var cursor := es;
    var i := 0;
    ghost var done: seq<Interval> := [];
    while i < |sorted|
      invariant SubtractFrame(sorted, i, es, ee, result, cursor)
      invariant i == 0 ==> cursor == es && result == []
      invariant |done| == i && forall k :: 0 <= k < i ==> done[k] == sorted[k]
      invariant forall p :: Swept(result, done, es, cursor, ee, p)
    {
      var seg := sorted[i];
      var ss := Max(es, seg.start);
      var se := Min(ee, seg.end);
      ghost var result0, cursor0 := result, cursor;
      if se > ss {
        if ss > cursor {
          result := result + [Interval(cursor, ss)];
        }
        cursor := Max(cursor, se);
      }
      SubtractTurn(sorted, i, done, es, ee, result0, cursor0, result, cursor);
      done := done + [seg];
      i := i + 1;
    }
    assert done == sorted;
    ghost var result0 := result;
    if cursor < ee {
      result := result + [Interval(cursor, ee)];
    }
    SubtractFinish(sorted, base, segments, result0, cursor, result);
  }

  function ClampAll(xs: seq<Interval>, w: Interval): (r: seq<Interval>)
    ensures |r| == |xs| && forall k :: 0 <= k < |xs| ==> r[k] == Clamp(xs[k], w)
  {
    seq(|xs|, k requires 0 <= k < |xs| => Clamp(xs[k], w))
  }

  /** `filter(iv => iv.end > iv.start)` */
  function NonEmptyOnly(xs: seq<Interval>): (r: seq<Interval>)
    ensures forall k :: 0 <= k < |r| ==> r[k] in xs && NonEmpty(r[k])
    ensures forall k :: 0 <= k < |xs| && NonEmpty(xs[k]) ==> xs[k] in r
    decreases |xs|
  {
    if xs == [] then []
    else
      var r := NonEmptyOnly(xs[..|xs| - 1]);
      var x := xs[|xs| - 1];
      assert forall k :: 0 <= k < |xs| - 1 ==> xs[k] == xs[..|xs| - 1][k];
      if NonEmpty(x) then r + [x] else r
  }

  lemma SortedCovers(s: seq<Interval>)
    ensures forall p :: Covers(SortBy(s, StartOf), p) <==> Covers(s, p)
  {
    SortedMembersOf(s);
    CoversMono(SortBy(s, StartOf), s);
    CoversMono(s, SortBy(s, StartOf));
  }

  lemma ClampAllCovers(xs: seq<Interval>, w: Interval)
    ensures forall p :: Covers(ClampAll(xs, w), p) <==> Contains(w, p) && Covers(xs, p)
  {
    var c := ClampAll(xs, w);
    forall p ensures Covers(c, p) <==> Contains(w, p) && Covers(xs, p) {
      if Covers(c, p) {
        var k :| 0 <= k < |c| && Contains(c[k], p);
        assert Contains(xs[k], p);
      }
      if Contains(w, p) && Covers(xs, p) {
        var k :| 0 <= k < |xs| && Contains(xs[k], p);
        assert Contains(c[k], p);
      }
    }
  }

  lemma NonEmptyOnlyCovers(xs: seq<Interval>)
    ensures forall p :: Covers(NonEmptyOnly(xs), p) <==> Covers(xs, p)
  {
    var f := NonEmptyOnly(xs);
    assert MembersOf(f, xs);
    CoversMono(f, xs);
    forall p | Covers(xs, p) ensures Covers(f, p) {
      var k :| 0 <= k < |xs| && Contains(xs[k], p);
      var m :| 0 <= m < |f| && f[m] == xs[k];
    }
  }

  /** `intervals.map(clamp).filter(nonEmpty).sort((a, b) => a.start - b.start)`: the list the
      merge loop walks. */
  method MergeSchedule(intervals: seq<Interval>, window: Interval) returns (list: seq<Interval>)
    ensures forall k :: 0 <= k < |list| ==> NonEmpty(list[k]) && window.start <= list[k].start && list[k].end <= window.end
    ensures forall i, j :: 0 <= i < j < |list| ==> list[i].start <= list[j].start
    ensures forall p :: Covers(list, p) <==> Contains(window, p) && Covers(intervals, p)
  {
    var c := ClampAll(intervals, window);
    var f := NonEmptyOnly(c);
    list := SortBy(f, StartOf);
    SortedMembersOf(f);
    forall k | 0 <= k < |list|
      ensures NonEmpty(list[k]) && window.start <= list[k].start && list[k].end <= window.end
    {
      assert list[k] in f;
      var m :| 0 <= m < |f| && f[m] == list[k];
      var n :| 0 <= n < |c| && c[n] == f[m];
    }
    assert forall i, j :: 0 <= i < j < |list| ==> StartOf(list[i]) <= StartOf(list[j]);
    SortedCovers(f);
    NonEmptyOnlyCovers(c);
    ClampAllCovers(intervals, window);
  }

  /** Two lists of intervals agree on the point p. */
  ghost predicate SameAt(a: seq<Interval>, b: seq<Interval>, p: int)
  {
    Covers(a, p) <==> Covers(b, p)
  }

  /** One turn of the merge loop, from out to out': the next interval iv is appended, or the last
      interval is stretched over it when iv starts at or before the last interval's end. */
  lemma MergeStep(done: seq<Interval>, iv: Interval, window: Interval, out: seq<Interval>, out': seq<Interval>)
    requires NonEmpty(iv) && window.start <= iv.start && iv.end <= window.end
    requires Canonical(out) && Inside(out, window)
    requires |out| > 0 ==> out[|out| - 1].start <= iv.start
    requires forall p :: SameAt(out, done, p)
    requires |out| == 0 ==> out' == [iv]
    requires |out| > 0 ==>
      var last := out[|out| - 1];
      out' == if iv.start > last.end then out + [iv]
              else if iv.end > last.end then out[..|out| - 1] + [Interval(last.start, iv.end)]
              else out
    ensures Canonical(out') && Inside(out', window) && |out'| > 0
    ensures out'[|out'| - 1].start <= iv.start
    ensures forall p :: SameAt(out', done + [iv], p)
  {
    if |out| == 0 {
      forall p ensures SameAt(out', done + [iv], p) {
        CoversSnocAt([], iv, p);
        CoversSnocAt(done, iv, p);
        assert SameAt(out, done, p);
      }
    } else {
      var last := out[|out| - 1];
      var front := out[..|out| - 1];
      assert out == front + [last];
      forall p ensures SameAt(out', done + [iv], p) {
        assert SameAt(out, done, p);
        CoversSnocAt(done, iv, p);
        CoversSnocAt(front, last, p);
        if iv.start <= last.end {
          if iv.end > last.end {
            CoversSnocAt(front, Interval(last.start, iv.end), p);
          }
        } else {
          CoversSnocAt(out, iv, p);
        }
      }
    }
  }

  /** `mergeIntervals`: clamp to the window, drop empty intervals, sort by start, and coalesce every
      interval that starts at or before the running end. */
  method Merge(intervals: seq<Interval>, window: Interval) returns (out: seq<Interval>)
    ensures Canonical(out) && Inside(out, window)
    ensures forall p :: Covers(out, p) <==> Contains(window, p) && Covers(intervals, p)
    ensures Canonical(intervals) && Inside(intervals, window) ==> out == intervals
  {
    var list := MergeSchedule(intervals, window);
    out := [];
    var i := 0;
    ghost var done: seq<Interval> := [];
    while i < |list|
      invariant 0 <= i <= |list|
      invariant Canonical(out) && Inside(out, window)
      invariant |done| == i && forall k :: 0 <= k < i ==> done[k] == list[k]
      invariant forall p :: SameAt(out, done, p)
      invariant |out| > 0 ==> forall m :: i <= m < |list| ==> out[|out| - 1].start <= list[m].start
    {
      var iv := list[i];
      ghost var out0 := out;
      assert forall m :: i <= m < |list| ==> iv.start <= list[m].start;
      if |out| == 0 {
        out := [iv];
      } else {
        var last := out[|out| - 1];
        if iv.start <= last.end {
          if iv.end > last.end {
            out := out[..|out| - 1] + [Interval(last.start, iv.end)];
          }
        } else {
          out := out + [iv];
        }
      }
      MergeStep(done, iv, window, out0, out);
      done := done + [iv];
      i := i + 1;
    }
    assert done == list;
    forall p ensures Covers(out, p) <==> Contains(window, p) && Covers(intervals, p) {
      assert SameAt(out, list, p);
    }
    if Canonical(intervals) && Inside(intervals, window) {
      CanonicalUnique(out, intervals);
    }
  }
}
