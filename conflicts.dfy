/** `computeConflictSegmentsByEmployee`: per employee, the instants at which two or more of the
    employee's assignments overlap, found by a sweep over the assignments' start and end points. */
module Conflicts {
  import opened Sorting
  import opened Intervals
  import opened Plans
  import opened MSDate

  /** A sweep event: +1 where an interval starts, -1 where it ends. */
  datatype Point = Point(t: int, d: int)

  /** The comparator `a.t === b.t ? b.d - a.d : a.t - b.t`, for events whose d is +1 or -1, as one
      integer key: earlier instants first and, at one instant, starts before ends. */
  function PointKey(pt: Point): int
  {
    2 * pt.t + (if pt.d > 0 then 0 else 1)
  }

  function Delta(pt: Point): int { pt.d }

  /** The contribution of an event to the number of intervals open at the instant p. */
  function Weight(p: int): Point -> int
  {
    (pt: Point) => if pt.t <= p then pt.d else 0
  }

  /** The number of intervals of the list that contain the instant p. */
  function CountAt(list: seq<Interval>, p: int): nat
  {
    if list == [] then 0
    else CountAt(list[..|list| - 1], p) + (if Contains(list[|list| - 1], p) then 1 else 0)
  }

  /** The events of a list of intervals: a start and an end for each, in list order. */
  function PointsOf(list: seq<Interval>): (r: seq<Point>)
    ensures |r| == 2 * |list|
    ensures forall k :: 0 <= k < |r| ==> r[k].d == 1 || r[k].d == -1
  {
    if list == [] then []
    else
      var iv := list[|list| - 1];
      PointsOf(list[..|list| - 1]) + [Point(iv.start, 1), Point(iv.end, -1)]
  }

  lemma SumByPair(a: Point, b: Point, f: Point -> int)
    ensures SumBy([a, b], f) == f(a) + f(b)
  {
    SumBySnoc([a], b, f);
    SumBySnoc([], a, f);
    assert [a, b] == [a] + [b];
    assert [a] == [] + [a];
  }

  /** Every interval adds one start and one end, so the events sum to zero. */
  lemma {:induction false} PointsBalance(list: seq<Interval>)
    ensures SumBy(PointsOf(list), Delta) == 0
    decreases |list|
  {
    if list != [] {
      var iv := list[|list| - 1];
      PointsBalance(list[..|list| - 1]);
      SumByConcat(PointsOf(list[..|list| - 1]), [Point(iv.start, 1), Point(iv.end, -1)], Delta);
      SumByPair(Point(iv.start, 1), Point(iv.end, -1), Delta);
    }
  }

  /** The events at or before p add up to the number of intervals open at p (every interval is
      non-empty, so its end does not come before its start). */
  lemma {:induction false} PointsCount(list: seq<Interval>, p: int)
    requires forall k :: 0 <= k < |list| ==> NonEmpty(list[k])
    ensures SumBy(PointsOf(list), Weight(p)) == CountAt(list, p)
    decreases |list|
  {
    if list != [] {
      var iv := list[|list| - 1];
      var init := list[..|list| - 1];
      assert forall k :: 0 <= k < |init| ==> init[k] == list[k];
      PointsCount(init, p);
      SumByConcat(PointsOf(init), [Point(iv.start, 1), Point(iv.end, -1)], Weight(p));
      SumByPair(Point(iv.start, 1), Point(iv.end, -1), Weight(p));
    }
  }

  /** Once every event is at or before p, each one counts in full. */
  lemma {:induction false} WeightAllBefore(done: seq<Point>, p: int)
    requires forall k :: 0 <= k < |done| ==> done[k].t <= p
    ensures SumBy(done, Weight(p)) == SumBy(done, Delta)
    decreases |done|
  {
    if done != [] {
      var init := done[..|done| - 1];
      assert forall k :: 0 <= k < |init| ==> init[k] == done[k];
      WeightAllBefore(init, p);
    }
  }

  /** What sorting the events preserves: their sum, and their sum at or before every instant. */
  lemma SortedPoints(list: seq<Interval>, points: seq<Point>)
    requires forall k :: 0 <= k < |list| ==> NonEmpty(list[k])
    requires points == PointsOf(list)
    ensures var events := SortBy(points, PointKey);
            && (forall a, b :: 0 <= a < b < |events| ==> PointKey(events[a]) <= PointKey(events[b]))
            && (forall k :: 0 <= k < |events| ==> events[k].d == 1 || events[k].d == -1)
            && SumBy(events, Delta) == 0
            && forall p :: SumBy(events, Weight(p)) == CountAt(list, p)
  {
    var events := SortBy(points, PointKey);
    assert forall a, b :: 0 <= a < b < |events| ==> PointKey(events[a]) <= PointKey(events[b]);
    forall j | 0 <= j < |events| ensures events[j].d == 1 || events[j].d == -1 {
      assert events[j] in multiset(points);
    }
    SortBySum(points, PointKey, Delta);
    PointsBalance(list);
    forall p ensures SumBy(events, Weight(p)) == CountAt(list, p) {
      SortBySum(points, PointKey, Weight(p));
      PointsCount(list, p);
    }
  }

  /** The loop that pushes a start and an end event for each interval, followed by the sort. */
  method CollectPoints(list: seq<Interval>) returns (events: seq<Point>)
    requires forall k :: 0 <= k < |list| ==> NonEmpty(list[k])
    ensures forall a, b :: 0 <= a < b < |events| ==> PointKey(events[a]) <= PointKey(events[b])
    ensures forall k :: 0 <= k < |events| ==> events[k].d == 1 || events[k].d == -1
    ensures SumBy(events, Delta) == 0
    ensures forall p :: SumBy(events, Weight(p)) == CountAt(list, p)
  {
    var points: seq<Point> := [];
    var k := 0;
    while k < |list|
      invariant 0 <= k <= |list|
      invariant points == PointsOf(list[..k])
    {
      assert list[..k + 1][..k] == list[..k];
      points := points + [Point(list[k].start, 1), Point(list[k].end, -1)];
      k := k + 1;
    }
    assert list[..k] == list;
    events := SortBy(points, PointKey);
    SortedPoints(list, points);
  }

  /** p lies in a closed conflict segment or in the one still open. */
  ghost predicate Open(segs: seq<Interval>, segStart: Option<int>, p: int)
  {
    Covers(segs, p) || (segStart.Some? && segStart.value <= p)
  }

  /** The state of the sweep after the events `done`, the last of which is at the instant T. */
  ghost predicate SweepFrame(segs: seq<Interval>, segStart: Option<int>, count: int, done: seq<Point>, T: int)
  {
    && count == SumBy(done, Delta)
    && (segStart.Some? <==> count >= 2)
    && (segStart.Some? ==> segStart.value <= T)
    && (forall k :: 0 <= k < |done| ==> done[k].t <= T)
    && (|done| > 0 ==> done[|done| - 1].t == T)
    && Canonical(segs)
    && (forall k :: 0 <= k < |segs| ==> segs[k].end <= T)
    && (forall k :: 0 <= k < |segs| && segs[k].end == T ==> |done| > 0 && done[|done| - 1].d < 0)
    && (segStart.Some? ==> forall k :: 0 <= k < |segs| ==> segs[k].end < segStart.value)
  }

  /** Below the last event's instant, the sweep has decided p: it is in a segment exactly when two or
      more intervals are open at p. */
  ghost predicate SweepAt(segs: seq<Interval>, segStart: Option<int>, done: seq<Point>, T: int, p: int)
  {
    p < T ==> (Open(segs, segStart, p) <==> SumBy(done, Weight(p)) >= 2)
  }

  /** The body of the sweep loop: the count moves by q.d; a segment opens where the count reaches 2
      and closes (when not empty) where it drops below 2. */
  ghost predicate SweepUpdate(segs: seq<Interval>, segStart: Option<int>, count: int, q: Point,
                              segs': seq<Interval>, segStart': Option<int>, count': int)
  {
    && count' == count + q.d
    && segStart' == (if count < 2 && count' >= 2 then Some(q.t)
                     else if count >= 2 && count' < 2 then None
                     else segStart)
    && segs' == (if count >= 2 && count' < 2 && segStart.Some? && q.t > segStart.value
                 then segs + [Interval(segStart.value, q.t)]
                 else segs)
  }

  lemma SweepFrameTurn(segs: seq<Interval>, segStart: Option<int>, count: int, done: seq<Point>, T: int, q: Point,
                       segs': seq<Interval>, segStart': Option<int>, count': int)
    requires SweepFrame(segs, segStart, count, done, T)
    requires q.d == 1 || q.d == -1
    requires T <= q.t
    requires |done| > 0 ==> PointKey(done[|done| - 1]) <= PointKey(q)
    requires SweepUpdate(segs, segStart, count, q, segs', segStart', count')
    ensures SweepFrame(segs', segStart', count', done + [q], q.t)
  {
    SumBySnoc(done, q, Delta);
    assert (done + [q])[|done|] == q;
    if count >= 2 && count' < 2 && segStart.Some? && q.t > segStart.value {
      var seg := Interval(segStart.value, q.t);
      assert segs' == segs + [seg];
      forall a, b | 0 <= a < b < |segs'| ensures segs'[a].end < segs'[b].start {
        if b == |segs| {
          assert segs'[a] == segs[a];
        } else {
          assert segs'[a] == segs[a] && segs'[b] == segs[b];
        }
      }
    }
    forall k | 0 <= k < |segs'| && segs'[k].end == q.t ensures q.d < 0 {
      if k < |segs| && segs'[k] == segs[k] && segs[k].end == q.t {
        assert PointKey(done[|done| - 1]) == 2 * q.t + 1;
      }
    }
  }

  lemma SweepAtTurn(segs: seq<Interval>, segStart: Option<int>, count: int, done: seq<Point>, T: int, q: Point,
                    segs': seq<Interval>, segStart': Option<int>, count': int)
    requires SweepFrame(segs, segStart, count, done, T)
    requires forall p :: SweepAt(segs, segStart, done, T, p)
    requires T <= q.t
    requires SweepUpdate(segs, segStart, count, q, segs', segStart', count')
    ensures forall p :: SweepAt(segs', segStart', done + [q], q.t, p)
  {
    forall p ensures SweepAt(segs', segStart', done + [q], q.t, p) {
      SumBySnoc(done, q, Weight(p));
      if p < q.t {
        assert Weight(p)(q) == 0;
        if segStart.Some? {
          CoversSnocAt(segs, Interval(segStart.value, q.t), p);
        }
        if p < T {
          assert SweepAt(segs, segStart, done, T, p);
        } else {
          WeightAllBefore(done, p);
          NotCoveredBeyond(segs, T, p);
        }
      }
    }
  }

  /** The sweep over one employee's intervals: the instants at which two or more of them overlap. */
  method Sweep(list: seq<Interval>) returns (segs: seq<Interval>)
    requires forall k :: 0 <= k < |list| ==> NonEmpty(list[k])
    ensures Canonical(segs)
    ensures forall p :: Covers(segs, p) <==> CountAt(list, p) >= 2
  {
    var events := CollectPoints(list);
    segs := SweepEvents(events);
  }

  /** The loop of the sweep over events ordered by instant, starts before ends: a point is in a
      segment exactly when the events up to it leave two or more intervals open. */
  method SweepEvents(events: seq<Point>) returns (segs: seq<Interval>)
    requires forall a, b :: 0 <= a < b < |events| ==> PointKey(events[a]) <= PointKey(events[b])
    requires forall k :: 0 <= k < |events| ==> events[k].d == 1 || events[k].d == -1
    requires SumBy(events, Delta) == 0
    ensures Canonical(segs)
    ensures forall p :: Covers(segs, p) <==> SumBy(events, Weight(p)) >= 2
  {
    var count := 0;
    var segStart: Option<int> := None;
    segs := [];
    var i := 0;
    ghost var done: seq<Point> := [];
    ghost var T := if |events| > 0 then events[0].t else 0;
    while i < |events|
      invariant 0 <= i <= |events| && done == events[..i]
      invariant i < |events| ==> T <= events[i].t
      invariant SweepFrame(segs, segStart, count, done, T)
      invariant forall p :: SweepAt(segs, segStart, done, T, p)
    {
      var pt := events[i];
      ghost var segs0, segStart0, count0 := segs, segStart, count;
      var prev := count;
      count := count + pt.d;
      if prev < 2 && count >= 2 {
        segStart := Some(pt.t);
      } else if prev >= 2 && count < 2 {
        if segStart.Some? && pt.t > segStart.value {
          segs := segs + [Interval(segStart.value, pt.t)];
        }
        segStart := None;
      }
      assert i > 0 ==> PointKey(events[i - 1]) <= PointKey(pt);
      SweepFrameTurn(segs0, segStart0, count0, done, T, pt, segs, segStart, count);
      SweepAtTurn(segs0, segStart0, count0, done, T, pt, segs, segStart, count);
      done := done + [pt];
      T := pt.t;
      i := i + 1;
      assert done == events[..i];
      if i < |events| {
        assert PointKey(events[i - 1]) <= PointKey(events[i]);
      }
    }
    assert done == events;
    SweepFinish(segs, segStart, count, done, T);
  }

  /** After the last event the count is back to zero, so the sweep has decided every point. */
  lemma SweepFinish(segs: seq<Interval>, segStart: Option<int>, count: int, done: seq<Point>, T: int)
    requires SweepFrame(segs, segStart, count, done, T)
    requires forall p :: SweepAt(segs, segStart, done, T, p)
    requires SumBy(done, Delta) == 0
    ensures forall p :: Covers(segs, p) <==> SumBy(done, Weight(p)) >= 2
  {
    forall p ensures Covers(segs, p) <==> SumBy(done, Weight(p)) >= 2 {
      assert SweepAt(segs, segStart, done, T, p);
      if T <= p {
        WeightAllBefore(done, p);
        NotCoveredBeyond(segs, T, p);
      }
    }
  }

  /** The window of one record in the loop that builds `byEmp`: only assignments, both dates
      parsed and valid, clamped to the range, and non-empty after clamping. */
  function AssignmentWindow(item: PlanItem, range: Interval): (r: Option<Interval>)
    ensures r.Some? ==> NonEmpty(r.value) && range.start <= r.value.start && r.value.end <= range.end
    ensures r.Some? <==> IsAssignment(item)
                         && ParseInstant(item.RenderStartDate).Some? && ParseInstant(item.RenderEndDate).Some?
                         && Max(range.start, ParseInstant(item.RenderStartDate).value)
                            < Min(range.end, ParseInstant(item.RenderEndDate).value)
  {
    if !IsAssignment(item) then None
    else
      var start := ParseInstant(item.RenderStartDate);
      var end := ParseInstant(item.RenderEndDate);
      if start.None? || end.None? then None
      else
        var s := Max(range.start, start.value);
        var e := Min(range.end, end.value);
        if e <= s then None else Some(Interval(s, e))
  }

  /** The intervals that `byEmp` collects under the key k, in record order. */
  function EmployeeIntervals(raw: seq<PlanItem>, k: Key, range: Interval): (r: seq<Interval>)
    ensures forall j :: 0 <= j < |r| ==> NonEmpty(r[j]) && range.start <= r[j].start && r[j].end <= range.end
  {
    if raw == [] then []
    else
      var item := raw[|raw| - 1];
      var w := AssignmentWindow(item, range);
      if w.Some? && EmployeeKey(item) == k then EmployeeIntervals(raw[..|raw| - 1], k, range) + [w.value]
      else EmployeeIntervals(raw[..|raw| - 1], k, range)
  }

  /** One more record adds its window to its own key's list and leaves every other list alone. */
  lemma EmployeeIntervalsStep(raw: seq<PlanItem>, j: int, k: Key, range: Interval)
    requires 0 <= j < |raw|
    ensures var w := AssignmentWindow(raw[j], range);
            EmployeeIntervals(raw[..j + 1], k, range) ==
              if w.Some? && EmployeeKey(raw[j]) == k then EmployeeIntervals(raw[..j], k, range) + [w.value]
              else EmployeeIntervals(raw[..j], k, range)
  {
    assert raw[..j + 1][..j] == raw[..j];
  }

  /** Record j is an assignment of the employee k with a window in the range. */
  ghost predicate HasWindow(raw: seq<PlanItem>, j: int, k: Key, range: Interval)
    requires 0 <= j < |raw|
  {
    AssignmentWindow(raw[j], range).Some? && EmployeeKey(raw[j]) == k
  }

  /** An employee key has intervals exactly when one of its records has an assignment window. */
  lemma {:induction false} EmployeeIntervalsNonEmpty(raw: seq<PlanItem>, k: Key, range: Interval)
    ensures EmployeeIntervals(raw, k, range) != [] <==> exists j :: 0 <= j < |raw| && HasWindow(raw, j, k, range)
    decreases |raw|
  {
    if raw != [] {
      var n := |raw| - 1;
      var init := raw[..n];
      EmployeeIntervalsNonEmpty(init, k, range);
      forall j | 0 <= j < n ensures HasWindow(init, j, k, range) == HasWindow(raw, j, k, range) {
        assert init[j] == raw[j];
      }
      if !HasWindow(raw, n, k, range) {
        assert EmployeeIntervals(raw, k, range) == EmployeeIntervals(init, k, range);
        forall j | 0 <= j < |raw| && HasWindow(raw, j, k, range) ensures j < n { }
      }
    }
  }

  /** The map `byEmp` after the first j records: every key with intervals, and its intervals. */
  ghost predicate ByEmpAfter(byEmp: map<Key, seq<Interval>>, raw: seq<PlanItem>, j: int, range: Interval)
    requires 0 <= j <= |raw|
  {
    forall k :: (k in byEmp ==> byEmp[k] == EmployeeIntervals(raw[..j], k, range) && byEmp[k] != [])
             && (k !in byEmp ==> EmployeeIntervals(raw[..j], k, range) == [])
  }

  /** One step of the `byEmp` loop. */
  lemma ByEmpStep(byEmp: map<Key, seq<Interval>>, byEmp': map<Key, seq<Interval>>, raw: seq<PlanItem>, j: int, range: Interval)
    requires 0 <= j < |raw| && ByEmpAfter(byEmp, raw, j, range)
    requires var w := AssignmentWindow(raw[j], range);
             var key := EmployeeKey(raw[j]);
             byEmp' == if w.None? then byEmp
                       else byEmp[key := (if key in byEmp then byEmp[key] else []) + [w.value]]
    ensures ByEmpAfter(byEmp', raw, j + 1, range)
  {
    forall k ensures (k in byEmp' ==> byEmp'[k] == EmployeeIntervals(raw[..j + 1], k, range) && byEmp'[k] != [])
                  && (k !in byEmp' ==> EmployeeIntervals(raw[..j + 1], k, range) == []) {
      EmployeeIntervalsStep(raw, j, k, range);
    }
  }

  /** `computeConflictSegmentsByEmployee`: one entry for every employee key with at least one
      assignment window, holding exactly the instants covered by two or more of its windows. */
  method ComputeConflictSegmentsByEmployee(raw: seq<PlanItem>, range: Interval) returns (out: map<Key, seq<Interval>>)
    ensures forall k :: k in out <==> EmployeeIntervals(raw, k, range) != []
    ensures forall k :: k in out ==> Canonical(out[k]) && Inside(out[k], range)
    ensures forall k, p :: k in out ==> (Covers(out[k], p) <==> CountAt(EmployeeIntervals(raw, k, range), p) >= 2)
  {
    var byEmp: map<Key, seq<Interval>> := map[];
    var j := 0;
    while j < |raw|
      invariant 0 <= j <= |raw|
      invariant ByEmpAfter(byEmp, raw, j, range)
    {
      var w := AssignmentWindow(raw[j], range);
      ghost var before := byEmp;
      if w.Some? {
        var key := EmployeeKey(raw[j]);
        var arr := if key in byEmp then byEmp[key] else [];
        byEmp := byEmp[key := arr + [w.value]];
      }
      ByEmpStep(before, byEmp, raw, j, range);
      j := j + 1;
    }
    assert raw[..j] == raw;
    out := map[];
    var todo := byEmp.Keys;
    while todo != {}
      invariant todo <= byEmp.Keys
      invariant forall k :: k in out <==> k in byEmp && k !in todo
      invariant forall k :: k in out ==> Canonical(out[k]) && Inside(out[k], range)
      invariant forall k, p :: k in out ==> (Covers(out[k], p) <==> CountAt(byEmp[k], p) >= 2)
      decreases |todo|
    {
      var emp :| emp in todo;
      var segs := Sweep(byEmp[emp]);
      SweepInside(byEmp[emp], segs, range);
      out := out[emp := segs];
      todo := todo - {emp};
    }
  }

  /** Conflict segments lie within the span of the intervals they come from. */
  lemma SweepInside(list: seq<Interval>, segs: seq<Interval>, range: Interval)
    requires forall k :: 0 <= k < |list| ==> range.start <= list[k].start && list[k].end <= range.end
    requires Canonical(segs)
    requires forall p :: Covers(segs, p) <==> CountAt(list, p) >= 2
    ensures Inside(segs, range)
  {
    forall k | 0 <= k < |segs| ensures range.start <= segs[k].start && segs[k].end <= range.end {
      assert Contains(segs[k], segs[k].start) && Contains(segs[k], segs[k].end - 1);
      CountInside(list, segs[k].start, range);
      CountInside(list, segs[k].end - 1, range);
    }
  }

  lemma {:induction false} CountInside(list: seq<Interval>, p: int, range: Interval)
    requires forall k :: 0 <= k < |list| ==> range.start <= list[k].start && list[k].end <= range.end
    requires CountAt(list, p) > 0
    ensures Contains(range, p)
    decreases |list|
  {
    var init := list[..|list| - 1];
    if !Contains(list[|list| - 1], p) {
      assert forall k :: 0 <= k < |init| ==> init[k] == list[k];
      CountInside(init, p, range);
    }
  }

  lemma FirstCovered(xs: seq<Interval>)
    requires xs != [] && NonEmpty(xs[0])
    ensures Covers(xs, xs[0].start)
  {
    assert Contains(xs[0], xs[0].start);
  }

  /** Back-to-back assignments `[a, b)` and `[b, c)` never overlap: since starts sort before ends at
      one instant, the sweep over them emits no conflict segment. */
  lemma BackToBackNoConflict(a: int, b: int, c: int, segs: seq<Interval>)
    requires Canonical(segs)
    requires forall p :: Covers(segs, p) <==> CountAt([Interval(a, b), Interval(b, c)], p) >= 2
    ensures segs == []
  {
    var list := [Interval(a, b), Interval(b, c)];
    assert list[..1] == [Interval(a, b)];
    assert [Interval(a, b)][..0] == [];
    forall p ensures CountAt(list, p) <= 1 {
      assert CountAt(list, p) == CountAt([Interval(a, b)], p) + (if Contains(Interval(b, c), p) then 1 else 0);
      assert CountAt([Interval(a, b)], p) == if Contains(Interval(a, b), p) then 1 else 0;
    }
    if segs != [] {
      FirstCovered(segs);
    }
  }
}
