/** The second half of `mapPerEmployeeRows`: for each group, its time in the visible range split
    into available, assigned, leave and conflict time, turned into day-granular bar segments, sorted,
    and with touching segments of one kind merged. */
module Rows {
  import opened Plans
  import opened MSDate
  import opened Intervals
  import opened Days
  import opened Sorting
  import opened Groups
  import opened Dedup
  import opened Text
  import Conflicts

  datatype Kind = Available | Assigned | Leave | Conflict

  /** A bar segment: its first instant and its length in days. */
  datatype Segment = Segment(startDate: int, duration: int)

  /** An entry of `withKinds`: a segment and its kind. */
  datatype Tagged = Tagged(s: Segment, k: Kind)

  /** The row handed to the Gantt chart. */
  datatype Row = Row(
    taskId: Key,
    taskName: string,
    employeeName: string,
    employeeId: Option<int>,
    designation: Option<string>,
    grade: Option<string>,
    startDate: int,
    endDate: int,
    duration: int,
    segments: seq<Segment>,
    segmentKinds: seq<Kind>)

  // ---------------------------------------------------------------------------------------------
  // Assigned time

  /** The window of one record of a group: both dates parsed and valid, the end after the start,
      clamped to the range, and non-empty after clamping. */
  function RowWindow(item: PlanItem, range: Interval): (r: Option<Interval>)
    ensures IsAssignment(item) ==> r == Conflicts.AssignmentWindow(item, range)
  {
    var s := ParseInstant(item.RenderStartDate);
    var e := ParseInstant(item.RenderEndDate);
    if s.None? || e.None? || e.value <= s.value then None
    else
      var cs := Max(s.value, range.start);
      var ce := Min(e.value, range.end);
      if ce > cs then Some(Interval(cs, ce)) else None
  }

  /** The windows of a group's records, in record order. */
  function WindowsOf(items: seq<PlanItem>, range: Interval): (r: seq<Interval>)
    ensures forall k :: 0 <= k < |r| ==> NonEmpty(r[k])
    ensures Inside(r, range)
  {
    if items == [] then []
    else
      var w := RowWindow(items[|items| - 1], range);
      if w.Some? then WindowsOf(items[..|items| - 1], range) + [w.value] else WindowsOf(items[..|items| - 1], range)
  }

  /** The loop that fills `assignedIntervals`. */
  method CollectAssigned(items: seq<PlanItem>, range: Interval) returns (list: seq<Interval>)
    ensures list == WindowsOf(items, range)
  {
    list := [];
    var j := 0;
    while j < |items|
      invariant 0 <= j <= |items|
      invariant list == WindowsOf(items[..j], range)
    {
      assert items[..j + 1][..j] == items[..j];
      var w := RowWindow(items[j], range);
      if w.Some? {
        list := list + [w.value];
      }
      j := j + 1;
    }
    assert items[..j] == items;
  }

  /** An id-keyed group reads the same windows as the conflict sweep reads for that id, as long as
      no record without an employee id has that id as its own `Id`. */
  lemma {:induction false} SameWindowsAsConflicts(raw: seq<PlanItem>, n: int, range: Interval)
    requires forall i :: 0 <= i < |raw| && IsAssignment(raw[i]) && raw[i].EmployeeId.None? ==> raw[i].Id != Num(n)
    ensures WindowsOf(Members(raw, "id:" + IntDecimal(n)), range) == Conflicts.EmployeeIntervals(raw, Num(n), range)
    decreases |raw|
  {
    if raw != [] {
      var item := raw[|raw| - 1];
      var init := raw[..|raw| - 1];
      var k := "id:" + IntDecimal(n);
      assert forall i :: 0 <= i < |init| ==> init[i] == raw[i];
      SameWindowsAsConflicts(init, n, range);
      var items := Members(init, k);
      IdKey(item, n);
      if IsAssignment(item) && GroupKey(item) == k {
        assert (items + [item])[..|items|] == items;
      }
    }
  }

  /** A record is keyed "id:n" exactly when its employee id is n. */
  lemma IdKey(item: PlanItem, n: int)
    ensures GroupKey(item) == "id:" + IntDecimal(n) <==> item.EmployeeId == Some(n)
  {
    if GroupKey(item) == "id:" + IntDecimal(n) {
      assert GroupKey(item)[0] == 'i';
      assert IntDecimal(item.EmployeeId.value) == GroupKey(item)[3..];
      IntDecimalInjective(item.EmployeeId.value, n);
    }
  }

  // ---------------------------------------------------------------------------------------------
  // The four kinds of time

  lemma CoversInside(xs: seq<Interval>, w: Interval, p: int)
    requires Inside(xs, w) && Covers(xs, p)
    ensures Contains(w, p)
  {
  }

  ghost predicate AllNonEmpty(xs: seq<Interval>)
  {
    forall k :: 0 <= k < |xs| ==> NonEmpty(xs[k])
  }

  /** At p, out covers what done covers and segs does not. */
  ghost predicate CutAt(out: seq<Interval>, done: seq<Interval>, segs: seq<Interval>, p: int)
  {
    Covers(out, p) <==> Covers(done, p) && !Covers(segs, p)
  }

  lemma CutStep(out: seq<Interval>, done: seq<Interval>, segs: seq<Interval>, iv: Interval, parts: seq<Interval>, p: int)
    requires CutAt(out, done, segs, p)
    requires Inside(parts, iv)
    requires Contains(iv, p) ==> (Covers(parts, p) <==> !Covers(segs, p))
    ensures CutAt(out + parts, done + [iv], segs, p)
  {
    CoversAppend(out, parts);
    CoversSnocAt(done, iv, p);
    if Covers(parts, p) {
      CoversInside(parts, iv, p);
    }
  }

  lemma InsideAppend(a: seq<Interval>, b: seq<Interval>, iv: Interval, w: Interval)
    requires Inside(a, w) && AllNonEmpty(a)
    requires Inside(b, iv) && AllNonEmpty(b)
    requires w.start <= iv.start && iv.end <= w.end
    ensures Inside(a + b, w) && AllNonEmpty(a + b)
  {
  }

  /** The loops that push the parts of each interval minus a list of segments. */
  method SubtractEach(ivs: seq<Interval>, segs: seq<Interval>, range: Interval) returns (out: seq<Interval>)
    requires Inside(ivs, range)
    ensures Inside(out, range) && AllNonEmpty(out)
    ensures forall p :: Covers(out, p) <==> Covers(ivs, p) && !Covers(segs, p)
  {
    out := [];
    var i := 0;
    ghost var done: seq<Interval> := [];
    while i < |ivs|
      invariant 0 <= i <= |ivs| && |done| == i
      invariant forall k :: 0 <= k < i ==> done[k] == ivs[k]
      invariant Inside(out, range) && AllNonEmpty(out)
      invariant forall p :: CutAt(out, done, segs, p)
    {
      var iv := ivs[i];
      var parts := Subtract(iv, segs);
      forall p ensures CutAt(out + parts, done + [iv], segs, p) {
        CutStep(out, done, segs, iv, parts, p);
      }
      InsideAppend(out, parts, iv, range);
      out := out + parts;
      done := done + [iv];
      i := i + 1;
    }
    assert done == ivs;
    forall p ensures Covers(out, p) <==> Covers(ivs, p) && !Covers(segs, p) {
      assert CutAt(out, done, segs, p);
    }
  }

  /** The classification of `mapPerEmployeeRows`, point by point: leave time wherever a leave
      covers the point, conflict time where a conflict does and no leave, assigned time where an
      assignment does and neither a leave nor a conflict, and available time where neither an
      assignment nor a leave does; all of it within the range. */
  method ClassifyTime(assignments: seq<Interval>, lvRaw: seq<Interval>, cfRaw: seq<Interval>, range: Interval)
    returns (available: seq<Interval>, assignedPure: seq<Interval>, leaves: seq<Interval>, conflictPure: seq<Interval>)
    ensures Canonical(available) && Canonical(leaves) && AllNonEmpty(assignedPure) && AllNonEmpty(conflictPure)
    ensures Inside(available, range) && Inside(assignedPure, range) && Inside(leaves, range) && Inside(conflictPure, range)
    ensures forall p :: Covers(leaves, p) <==> Contains(range, p) && Covers(lvRaw, p)
    ensures forall p :: Covers(conflictPure, p) <==> Contains(range, p) && Covers(cfRaw, p) && !Covers(lvRaw, p)
    ensures forall p :: Covers(assignedPure, p) <==>
                          Contains(range, p) && Covers(assignments, p) && !Covers(lvRaw, p) && !Covers(cfRaw, p)
    ensures forall p :: Covers(available, p) <==> Contains(range, p) && !Covers(assignments, p) && !Covers(lvRaw, p)
    ensures assignments == [] && lvRaw == [] ==> available == if NonEmpty(range) then [range] else []
  {
    var assignedUnion := Merge(assignments, range);
    leaves := Merge(lvRaw, range);
    var conflicts := Merge(cfRaw, range);
    CoversAppend(leaves, conflicts);
    assignedPure := SubtractEach(assignedUnion, leaves + conflicts, range);
    conflictPure := SubtractEach(conflicts, leaves, range);
    CoversAppend(assignedUnion, leaves);
    var occupied := Merge(assignedUnion + leaves, range);
    available := Subtract(range, occupied);
    forall p ensures Covers(available, p) <==> Contains(range, p) && !Covers(assignments, p) && !Covers(lvRaw, p) {
      if Covers(available, p) {
        CoversInside(available, range, p);
      }
    }
    if assignments == [] && lvRaw == [] {
      assert Canonical(assignments) && Inside(assignments, range);
      assert Canonical(lvRaw) && Inside(lvRaw, range);
      assert assignedUnion + leaves == [];
      assert Canonical(assignedUnion + leaves) && Inside(assignedUnion + leaves, range);
    }
  }

  /** The kind of a point, by precedence: leave, then conflict, then assignments, then available. */
  ghost function KindAt(assignments: seq<Interval>, lvRaw: seq<Interval>, cfRaw: seq<Interval>, p: int): Kind
  {
    if Covers(lvRaw, p) then Leave
    else if Covers(cfRaw, p) then Conflict
    else if Covers(assignments, p) then Assigned
    else Available
  }

  /** The kinds whose list covers p. */
  ghost function KindsCovering(available: seq<Interval>, assignedPure: seq<Interval>, leaves: seq<Interval>,
                               conflictPure: seq<Interval>, p: int): set<Kind>
  {
    (if Covers(available, p) then {Available} else {})
    + (if Covers(assignedPure, p) then {Assigned} else {})
    + (if Covers(leaves, p) then {Leave} else {})
    + (if Covers(conflictPure, p) then {Conflict} else {})
  }

  /** When the conflicts lie within the assignments (as the sweep's segments do), the four lists
      split the range: every point of it is covered by exactly one of them, the one of its kind. */
  lemma Partition(assignments: seq<Interval>, lvRaw: seq<Interval>, cfRaw: seq<Interval>, range: Interval,
                  available: seq<Interval>, assignedPure: seq<Interval>, leaves: seq<Interval>,
                  conflictPure: seq<Interval>, p: int)
    requires Covers(leaves, p) <==> Contains(range, p) && Covers(lvRaw, p)
    requires Covers(conflictPure, p) <==> Contains(range, p) && Covers(cfRaw, p) && !Covers(lvRaw, p)
    requires Covers(assignedPure, p) <==> Contains(range, p) && Covers(assignments, p) && !Covers(lvRaw, p) && !Covers(cfRaw, p)
    requires Covers(available, p) <==> Contains(range, p) && !Covers(assignments, p) && !Covers(lvRaw, p)
    requires Covers(cfRaw, p) ==> Covers(assignments, p)
    ensures Contains(range, p) ==> KindsCovering(available, assignedPure, leaves, conflictPure, p) == {KindAt(assignments, lvRaw, cfRaw, p)}
    ensures !Contains(range, p) ==> KindsCovering(available, assignedPure, leaves, conflictPure, p) == {}
  {
  }

  /** Points where a conflict is counted lie in an assignment, so the sweep's segments meet the
      condition of the partition. */
  lemma {:induction false} CountedIsCovered(list: seq<Interval>, p: int)
    requires Conflicts.CountAt(list, p) > 0
    ensures Covers(list, p)
    decreases |list|
  {
    var init := list[..|list| - 1];
    if !Contains(list[|list| - 1], p) {
      CountedIsCovered(init, p);
      assert forall k :: 0 <= k < |init| ==> init[k] == list[k];
    }
  }

  /** For a group keyed by employee id n, the conflicts the sweep reports for n lie within the
      group's own windows, which is the condition `Partition` asks of them. */
  lemma ConflictsWithinWindows(raw: seq<PlanItem>, n: int, range: Interval, conflicts: seq<Interval>, p: int)
    requires forall i :: 0 <= i < |raw| && IsAssignment(raw[i]) && raw[i].EmployeeId.None? ==> raw[i].Id != Num(n)
    requires Covers(conflicts, p) <==> Conflicts.CountAt(Conflicts.EmployeeIntervals(raw, Num(n), range), p) >= 2
    ensures Covers(conflicts, p) ==> Covers(WindowsOf(Members(raw, "id:" + IntDecimal(n)), range), p)
  {
    SameWindowsAsConflicts(raw, n, range);
    if Covers(conflicts, p) {
      CountedIsCovered(Conflicts.EmployeeIntervals(raw, Num(n), range), p);
    }
  }

  // ---------------------------------------------------------------------------------------------
  // Segments

  /** The segment of an interval: `{ StartDate: start, Duration: durationForGantt(start, end) }`. */
  function SegmentOf(iv: Interval): Segment
  {
    Segment(iv.start, DurationForGantt(iv.start, iv.end))
  }

  function TagAll(list: seq<Interval>, kind: Kind): seq<Tagged>
  {
    seq(|list|, i requires 0 <= i < |list| => Tagged(SegmentOf(list[i]), kind))
  }

  function TaggedStart(t: Tagged): int { t.s.startDate }

  function TaggedDuration(t: Tagged): int { t.s.duration }

  function SegmentDuration(s: Segment): int { s.duration }

  function GanttDays(iv: Interval): int { DurationForGantt(iv.start, iv.end) }

  /** `pushSegments`: one segment of the given kind per interval, appended in list order (the
      `dur <= 0` guard never fires, since a Gantt duration is at least one day). */
  method PushSegments(tagged: seq<Tagged>, list: seq<Interval>, kind: Kind) returns (tagged': seq<Tagged>)
    ensures tagged' == tagged + TagAll(list, kind)
  {
    tagged' := tagged;
    var j := 0;
    while j < |list|
      invariant 0 <= j <= |list|
      invariant tagged' == tagged + TagAll(list[..j], kind)
    {
      assert TagAll(list[..j + 1], kind) == TagAll(list[..j], kind) + [Tagged(SegmentOf(list[j]), kind)];
      var dur := DurationForGantt(list[j].start, list[j].end);
      if dur > 0 {
        tagged' := tagged' + [Tagged(Segment(list[j].start, dur), kind)];
      }
      j := j + 1;
    }
    assert list[..j] == list;
  }

  /** Every pushed segment is at least one day long, and together they last as many days as the
      intervals they come from. */
  lemma {:induction false} TagAllDays(list: seq<Interval>, kind: Kind)
    ensures forall k :: 0 <= k < |TagAll(list, kind)| ==> TagAll(list, kind)[k].s.duration >= 1
    ensures SumBy(TagAll(list, kind), TaggedDuration) == SumBy(list, GanttDays)
    decreases |list|
  {
    if list != [] {
      var init := list[..|list| - 1];
      TagAllDays(init, kind);
      var t := TagAll(list, kind);
      assert t[..|t| - 1] == TagAll(init, kind);
    }
  }

  /** `withKinds.sort(...)` by start; the sort is stable, as `Array.prototype.sort` is. */
  method SortByStart(xs: seq<Tagged>) returns (r: seq<Tagged>)
    ensures SortedBy(r, TaggedStart)
    ensures multiset(r) == multiset(xs) && |r| == |xs|
    ensures SumBy(r, TaggedDuration) == SumBy(xs, TaggedDuration)
    ensures AllPositive(xs) ==> AllPositive(r)
    ensures forall k :: SumBy(r, DaysOf(k)) == SumBy(xs, DaysOf(k))
    ensures forall m :: 0 <= m < |r| ==> StartsOne(xs, r[m])
  {
    r := SortBy(xs, TaggedStart);
    SortBySum(xs, TaggedStart, TaggedDuration);
    forall k ensures SumBy(r, DaysOf(k)) == SumBy(xs, DaysOf(k)) {
      SortBySum(xs, TaggedStart, DaysOf(k));
    }
    forall m | 0 <= m < |r| ensures r[m] in multiset(xs) && StartsOne(xs, r[m]) {
      assert r[m] in multiset(r);
      assert r[m] in xs;
      var j :| 0 <= j < |xs| && xs[j] == r[m];
    }
  }

  /** The merge loop's test: the same kind, and the next segment starts at the midnight that
      `addDays(last.StartDate, last.Duration)` gives. */
  predicate Mergeable(last: Tagged, cur: Tagged)
  {
    cur.k == last.k && cur.s.startDate == AddDays(last.s.startDate, last.s.duration)
  }

  ghost predicate NoMergeable(xs: seq<Tagged>)
  {
    forall i, j :: 0 <= i && j == i + 1 && j < |xs| ==> !Mergeable(xs[i], xs[j])
  }

  /** The segment the last one becomes when it absorbs cur. */
  function Grown(last: Tagged, cur: Tagged): Tagged
  {
    Tagged(Segment(last.s.startDate, last.s.duration + cur.s.duration), last.k)
  }

  /** One turn of the merge loop. */
  ghost function Pushed(merged: seq<Tagged>, cur: Tagged): seq<Tagged>
  {
    if merged == [] then [cur]
    else if Mergeable(merged[|merged| - 1], cur) then merged[|merged| - 1 := Grown(merged[|merged| - 1], cur)]
    else merged + [cur]
  }

  /** What the merge loop keeps after i input segments. */
  ghost predicate MergeInv(xs: seq<Tagged>, i: int, merged: seq<Tagged>)
  {
    0 <= i <= |xs|
    && |merged| <= i && (merged == [] <==> i == 0)
    && NoMergeable(merged)
    && SumBy(merged, TaggedDuration) == SumBy(xs[..i], TaggedDuration)
    && (i > 0 ==> merged[0].s.startDate == xs[0].s.startDate)
    && (SortedBy(xs, TaggedStart) ==> SortedBy(merged, TaggedStart))
    && (SortedBy(xs, TaggedStart) && 0 < i < |xs| ==> TaggedStart(merged[|merged| - 1]) <= TaggedStart(xs[i]))
    && (NoMergeable(xs) ==> merged == xs[..i])
    && (AllPositive(xs) ==> AllPositive(merged))
  }

  ghost predicate AllPositive(xs: seq<Tagged>)
  {
    forall k :: 0 <= k < |xs| ==> xs[k].s.duration >= 1
  }

  /** The days a segment contributes to kind k. */
  function DaysOf(k: Kind): Tagged -> int
  {
    (t: Tagged) => if t.k == k then t.s.duration else 0
  }

  /** Some segment of xs has the kind and the start of t. */
  ghost predicate StartsOne(xs: seq<Tagged>, t: Tagged)
  {
    exists j :: 0 <= j < |xs| && xs[j].k == t.k && xs[j].s.startDate == t.s.startDate
  }

  /** What the merge loop keeps of the kinds after i input segments: each kind has as many days as
      in those segments, and each merged segment begins where an input segment of its kind does. */
  ghost predicate KindInv(xs: seq<Tagged>, i: int, merged: seq<Tagged>)
    requires 0 <= i <= |xs|
  {
    && (forall k :: SumBy(merged, DaysOf(k)) == SumBy(xs[..i], DaysOf(k)))
    && (forall m :: 0 <= m < |merged| ==> StartsOne(xs, merged[m]))
  }

  /** A segment is only ever absorbed by one of its own kind, and an absorbing segment keeps its
      start and its kind. */
  lemma MergeKindStep(xs: seq<Tagged>, i: int, merged: seq<Tagged>)
    requires 0 <= i < |xs| && KindInv(xs, i, merged)
    ensures KindInv(xs, i + 1, Pushed(merged, xs[i]))
  {
    var cur := xs[i];
    var after := Pushed(merged, cur);
    var extend := merged != [] && Mergeable(merged[|merged| - 1], cur);
    assert xs[..i + 1] == xs[..i] + [cur];
    forall k ensures SumBy(after, DaysOf(k)) == SumBy(xs[..i + 1], DaysOf(k)) {
      SumBySnoc(xs[..i], cur, DaysOf(k));
      if extend {
        var n := |merged| - 1;
        assert after[..n] == merged[..n];
        assert DaysOf(k)(after[n]) == DaysOf(k)(merged[n]) + DaysOf(k)(cur);
      } else {
        assert after == merged + [cur];
        SumBySnoc(merged, cur, DaysOf(k));
      }
    }
    forall m | 0 <= m < |after| ensures StartsOne(xs, after[m]) {
      if m < |merged| {
        assert StartsOne(xs, merged[m]);
        assert after[m].k == merged[m].k && after[m].s.startDate == merged[m].s.startDate;
      } else {
        assert after[m] == xs[i];
      }
    }
  }

  lemma MergeStep(xs: seq<Tagged>, i: int, merged: seq<Tagged>)
    requires i < |xs| && MergeInv(xs, i, merged)
    ensures MergeInv(xs, i + 1, Pushed(merged, xs[i]))
  {
    if merged == [] {
      MergeFirstCase(xs, i, merged);
    } else if Mergeable(merged[|merged| - 1], xs[i]) {
      MergeExtendCase(xs, i, merged);
    } else {
      MergeAppendCase(xs, i, merged);
    }
  }

  /** The first input segment is pushed as it is. */
  lemma MergeFirstCase(xs: seq<Tagged>, i: int, merged: seq<Tagged>)
    requires i < |xs| && MergeInv(xs, i, merged) && merged == []
    ensures MergeInv(xs, i + 1, Pushed(merged, xs[i]))
  {
    var cur := xs[i];
    var after := [cur];
    assert Pushed(merged, cur) == after;
    assert i == 0 && xs[..1] == after;
    assert SumBy(after, TaggedDuration) == cur.s.duration by {
      SumBySnoc([], cur, TaggedDuration);
      assert [] + [cur] == after;
    }
    assert NoMergeable(after) && SortedBy(after, TaggedStart);
    if SortedBy(xs, TaggedStart) && 1 < |xs| {
      assert TaggedStart(xs[0]) <= TaggedStart(xs[1]);
    }
  }

  /** An input segment the last merged one absorbs. */
  lemma MergeExtendCase(xs: seq<Tagged>, i: int, merged: seq<Tagged>)
    requires i < |xs| && MergeInv(xs, i, merged) && merged != [] && Mergeable(merged[|merged| - 1], xs[i])
    ensures MergeInv(xs, i + 1, Pushed(merged, xs[i]))
  {
    var cur := xs[i];
    var after := merged[|merged| - 1 := Grown(merged[|merged| - 1], cur)];
    assert Pushed(merged, cur) == after;
    assert xs[..i + 1] == xs[..i] + [cur];
    SumBySnoc(xs[..i], cur, TaggedDuration);
    ExtendStep(merged, cur, after);
    var last, prev := merged[|merged| - 1], xs[i - 1];
    assert NoMergeable(xs) ==> last == prev && !Mergeable(prev, cur);
    if SortedBy(xs, TaggedStart) && i + 1 < |xs| {
      assert TaggedStart(xs[i]) <= TaggedStart(xs[i + 1]);
    }
  }

  /** An input segment the last merged one cannot absorb is appended. */
  lemma MergeAppendCase(xs: seq<Tagged>, i: int, merged: seq<Tagged>)
    requires i < |xs| && MergeInv(xs, i, merged) && merged != [] && !Mergeable(merged[|merged| - 1], xs[i])
    ensures MergeInv(xs, i + 1, Pushed(merged, xs[i]))
  {
    var cur := xs[i];
    var after := merged + [cur];
    assert Pushed(merged, cur) == after;
    assert xs[..i + 1] == xs[..i] + [cur];
    SumBySnoc(xs[..i], cur, TaggedDuration);
    SumBySnoc(merged, cur, TaggedDuration);
    AppendStep(merged, cur, after);
    if SortedBy(xs, TaggedStart) && i + 1 < |xs| {
      assert TaggedStart(xs[i]) <= TaggedStart(xs[i + 1]);
    }
  }

  /** The merge loop as a fold: each input segment in turn is absorbed by the last merged one or
      appended. */
  ghost function MergeSpec(xs: seq<Tagged>): seq<Tagged>
  {
    if xs == [] then [] else Pushed(MergeSpec(xs[..|xs| - 1]), xs[|xs| - 1])
  }

  /** One more input segment: the fold over the longer prefix pushes it onto the fold over the shorter. */
  lemma MergeSpecSnoc(xs: seq<Tagged>, i: int)
    requires 0 <= i < |xs|
    ensures MergeSpec(xs[..i + 1]) == Pushed(MergeSpec(xs[..i]), xs[i])
  {
    assert xs[..i + 1][..i] == xs[..i];
  }

  /** The merge loop's shape invariants hold of the fold over every prefix. */
  lemma {:induction false} MergeSpecInv(xs: seq<Tagged>, i: int)
    requires 0 <= i <= |xs|
    ensures MergeInv(xs, i, MergeSpec(xs[..i]))
    decreases i
  {
    if i > 0 {
      MergeSpecInv(xs, i - 1);
      MergeSpecStep(xs, i - 1);
    }
  }

  /** One turn of the fold keeps the merge loop's shape invariants. */
  lemma MergeSpecStep(xs: seq<Tagged>, i: int)
    requires 0 <= i < |xs| && MergeInv(xs, i, MergeSpec(xs[..i]))
    ensures MergeInv(xs, i + 1, MergeSpec(xs[..i + 1]))
  {
    MergeStep(xs, i, MergeSpec(xs[..i]));
    MergeSpecSnoc(xs, i);
  }

  /** The merge loop's per-kind invariants hold of the fold over every prefix. */
  lemma {:induction false} MergeSpecKinds(xs: seq<Tagged>, i: int)
    requires 0 <= i <= |xs|
    ensures KindInv(xs, i, MergeSpec(xs[..i]))
    decreases i
  {
    if i > 0 {
      MergeSpecKinds(xs, i - 1);
      MergeSpecSnoc(xs, i - 1);
      MergeKindStep(xs, i - 1, MergeSpec(xs[..i - 1]));
    }
  }

  /** What the merge promises: no two neighbours left that it would join, the same days in total
      and per kind, every merged segment beginning where an input segment of its kind begins, the
      first start kept, sortedness and positive durations kept, and merged input left alone. */
  lemma MergeFacts(xs: seq<Tagged>)
    ensures var merged := MergeSpec(xs);
            && NoMergeable(merged)
            && SumBy(merged, TaggedDuration) == SumBy(xs, TaggedDuration)
            && |merged| <= |xs| && (merged == [] <==> xs == [])
            && (xs != [] ==> merged[0].s.startDate == xs[0].s.startDate)
            && (SortedBy(xs, TaggedStart) ==> SortedBy(merged, TaggedStart))
            && (NoMergeable(xs) ==> merged == xs)
            && (AllPositive(xs) ==> AllPositive(merged))
            && (forall k :: SumBy(merged, DaysOf(k)) == SumBy(xs, DaysOf(k)))
            && (forall m :: 0 <= m < |merged| ==> StartsOne(xs, merged[m]))
  {
    MergeSpecInv(xs, |xs|);
    MergeSpecKinds(xs, |xs|);
    assert xs[..|xs|] == xs;
  }

  /** The merge loop of `mapPerEmployeeRows`: a segment that the previous one can absorb is added
      to its duration, any other is appended. */
  method MergeAdjacent(xs: seq<Tagged>) returns (merged: seq<Tagged>)
    ensures NoMergeable(merged)
    ensures SumBy(merged, TaggedDuration) == SumBy(xs, TaggedDuration)
    ensures |merged| <= |xs| && (merged == [] <==> xs == [])
    ensures xs != [] ==> merged[0].s.startDate == xs[0].s.startDate
    ensures SortedBy(xs, TaggedStart) ==> SortedBy(merged, TaggedStart)
    ensures NoMergeable(xs) ==> merged == xs
    ensures AllPositive(xs) ==> AllPositive(merged)
    ensures forall k :: SumBy(merged, DaysOf(k)) == SumBy(xs, DaysOf(k))
    ensures forall m :: 0 <= m < |merged| ==> StartsOne(xs, merged[m])
  {
    merged := [];
    var i := 0;
    while i < |xs|
      invariant 0 <= i <= |xs|
      invariant merged == MergeSpec(xs[..i])
    {
      var cur := xs[i];
      ghost var before := merged;
      if merged == [] {
        merged := [cur];
      } else {
        var last := merged[|merged| - 1];
        var lastEnd := AddDays(last.s.startDate, last.s.duration);
        if cur.k == last.k && cur.s.startDate == lastEnd {
          merged := merged[|merged| - 1 := Tagged(Segment(last.s.startDate, last.s.duration + cur.s.duration), last.k)];
        } else {
          merged := merged + [cur];
        }
      }
      assert xs[..i + 1][..i] == xs[..i];
      assert merged == Pushed(before, cur);
      i := i + 1;
    }
    assert xs[..i] == xs;
    MergeFacts(xs);
  }

  /** Extending the last segment keeps its start and its kind, so nothing else changes. */
  lemma ExtendStep(before: seq<Tagged>, cur: Tagged, after: seq<Tagged>)
    requires before != [] && NoMergeable(before)
    requires after == before[|before| - 1 := Grown(before[|before| - 1], cur)]
    ensures NoMergeable(after)
    ensures SumBy(after, TaggedDuration) == SumBy(before, TaggedDuration) + cur.s.duration
    ensures after[0].s.startDate == before[0].s.startDate
    ensures SortedBy(before, TaggedStart) ==> SortedBy(after, TaggedStart)
    ensures TaggedStart(after[|after| - 1]) == TaggedStart(before[|before| - 1])
  {
    var n := |before| - 1;
    assert after == before[..n] + [after[n]];
    assert before == before[..n] + [before[n]];
    SumBySnoc(before[..n], after[n], TaggedDuration);
    SumBySnoc(before[..n], before[n], TaggedDuration);
    forall i, j | 0 <= i && j == i + 1 && j < |after| ensures !Mergeable(after[i], after[j]) {
      assert !Mergeable(before[i], before[j]);
    }
  }

  /** Appending a segment the last one cannot absorb. */
  lemma AppendStep(before: seq<Tagged>, cur: Tagged, after: seq<Tagged>)
    requires before != [] && NoMergeable(before)
    requires !Mergeable(before[|before| - 1], cur)
    requires after == before + [cur]
    ensures NoMergeable(after)
    ensures SortedBy(before, TaggedStart) && TaggedStart(before[|before| - 1]) <= TaggedStart(cur) ==> SortedBy(after, TaggedStart)
  {
    forall i, j | 0 <= i && j == i + 1 && j < |after| ensures !Mergeable(after[i], after[j]) {
      if j < |before| {
        assert !Mergeable(before[i], before[j]);
      }
    }
  }

  // ---------------------------------------------------------------------------------------------
  // Rows

  function SegmentsOf(merged: seq<Tagged>): seq<Segment>
  {
    seq(|merged|, i requires 0 <= i < |merged| => merged[i].s)
  }

  function KindsOf(merged: seq<Tagged>): seq<Kind>
  {
    seq(|merged|, i requires 0 <= i < |merged| => merged[i].k)
  }

  /** The shape of the segments of a row: parallel kinds, ascending starts, no two neighbours the
      merge loop would still join, and every segment at least a day long. */
  ghost predicate SegmentShape(segments: seq<Segment>, kinds: seq<Kind>)
  {
    && |segments| == |kinds|
    && (forall i, j :: 0 <= i < j < |segments| ==> segments[i].startDate <= segments[j].startDate)
    && (forall i, j :: 0 <= i && j == i + 1 && j < |segments| ==>
          !(kinds[i] == kinds[j] && segments[j].startDate == AddDays(segments[i].startDate, segments[i].duration)))
    && (forall i :: 0 <= i < |segments| ==> segments[i].duration >= 1)
  }

  lemma {:induction false} SegmentsSum(merged: seq<Tagged>)
    ensures SumBy(SegmentsOf(merged), SegmentDuration) == SumBy(merged, TaggedDuration)
    decreases |merged|
  {
    if merged != [] {
      var init := merged[..|merged| - 1];
      SegmentsSum(init);
      assert SegmentsOf(merged)[..|merged| - 1] == SegmentsOf(init);
    }
  }

  /** The days of kind k among a row's parallel segments and kinds. */
  function KindTotal(segments: seq<Segment>, kinds: seq<Kind>, k: Kind): int
    requires |segments| == |kinds|
  {
    if segments == [] then 0
    else KindTotal(segments[..|segments| - 1], kinds[..|kinds| - 1], k)
         + (if kinds[|kinds| - 1] == k then segments[|segments| - 1].duration else 0)
  }

  /** Splitting the merged list keeps the days of every kind. */
  lemma {:induction false} KindTotalOf(merged: seq<Tagged>, k: Kind)
    ensures KindTotal(SegmentsOf(merged), KindsOf(merged), k) == SumBy(merged, DaysOf(k))
    decreases |merged|
  {
    if merged != [] {
      var init := merged[..|merged| - 1];
      KindTotalOf(init, k);
      assert SegmentsOf(merged)[..|merged| - 1] == SegmentsOf(init);
      assert KindsOf(merged)[..|merged| - 1] == KindsOf(init);
    }
  }

  lemma ShapeOf(merged: seq<Tagged>)
    requires NoMergeable(merged) && SortedBy(merged, TaggedStart) && AllPositive(merged)
    ensures SegmentShape(SegmentsOf(merged), KindsOf(merged))
  {
    var segments, kinds := SegmentsOf(merged), KindsOf(merged);
    forall i, j | 0 <= i && j == i + 1 && j < |segments|
      ensures !(kinds[i] == kinds[j] && segments[j].startDate == AddDays(segments[i].startDate, segments[i].duration))
    {
      assert !Mergeable(merged[i], merged[j]);
    }
    forall i, j | 0 <= i < j < |segments| ensures segments[i].startDate <= segments[j].startDate {
      assert TaggedStart(merged[i]) <= TaggedStart(merged[j]);
    }
  }

  /** The pushed segments of the four lists, in push order. */
  function Pushes(available: seq<Interval>, assignedPure: seq<Interval>, leaves: seq<Interval>, conflictPure: seq<Interval>): seq<Tagged>
  {
    TagAll(available, Available) + TagAll(assignedPure, Assigned) + TagAll(leaves, Leave) + TagAll(conflictPure, Conflict)
  }

  lemma PushesFacts(available: seq<Interval>, assignedPure: seq<Interval>, leaves: seq<Interval>, conflictPure: seq<Interval>)
    ensures var t := Pushes(available, assignedPure, leaves, conflictPure);
            && AllPositive(t)
            && SumBy(t, TaggedDuration) ==
                 SumBy(available, GanttDays) + SumBy(assignedPure, GanttDays) + SumBy(leaves, GanttDays) + SumBy(conflictPure, GanttDays)
            && (t == [] <==> available == [] && assignedPure == [] && leaves == [] && conflictPure == [])
  {
    var t1, t2, t3, t4 := TagAll(available, Available), TagAll(assignedPure, Assigned), TagAll(leaves, Leave), TagAll(conflictPure, Conflict);
    TagAllDays(available, Available);
    TagAllDays(assignedPure, Assigned);
    TagAllDays(leaves, Leave);
    TagAllDays(conflictPure, Conflict);
    SumByConcat(t1, t2, TaggedDuration);
    SumByConcat(t1 + t2, t3, TaggedDuration);
    SumByConcat(t1 + t2 + t3, t4, TaggedDuration);
    assert |t1 + t2 + t3 + t4| == |available| + |assignedPure| + |leaves| + |conflictPure|;
  }

  /** The list `pushSegments` is called with for a kind. */
  function IntervalsOfKind(k: Kind, available: seq<Interval>, assignedPure: seq<Interval>,
                           leaves: seq<Interval>, conflictPure: seq<Interval>): seq<Interval>
  {
    match k
    case Available => available
    case Assigned => assignedPure
    case Leave => leaves
    case Conflict => conflictPure
  }

  /** Some interval of the list starts at the given instant. */
  ghost predicate StartsInterval(list: seq<Interval>, start: int)
  {
    exists q :: 0 <= q < |list| && list[q].start == start
  }

  /** The segments pushed for one kind last as many days as its intervals, and nothing of another kind. */
  lemma {:induction false} TagAllKind(list: seq<Interval>, kind: Kind, k: Kind)
    ensures SumBy(TagAll(list, kind), DaysOf(k)) == if k == kind then SumBy(list, GanttDays) else 0
    decreases |list|
  {
    if list != [] {
      var init := list[..|list| - 1];
      TagAllKind(init, kind, k);
      var t := TagAll(list, kind);
      assert t[..|t| - 1] == TagAll(init, kind);
    }
  }

  /** Each kind's pushed segments last as many days as that kind's intervals. */
  lemma PushesKinds(available: seq<Interval>, assignedPure: seq<Interval>, leaves: seq<Interval>, conflictPure: seq<Interval>, k: Kind)
    ensures SumBy(Pushes(available, assignedPure, leaves, conflictPure), DaysOf(k)) ==
            SumBy(IntervalsOfKind(k, available, assignedPure, leaves, conflictPure), GanttDays)
  {
    var t1, t2, t3, t4 := TagAll(available, Available), TagAll(assignedPure, Assigned), TagAll(leaves, Leave), TagAll(conflictPure, Conflict);
    TagAllKind(available, Available, k);
    TagAllKind(assignedPure, Assigned, k);
    TagAllKind(leaves, Leave, k);
    TagAllKind(conflictPure, Conflict, k);
    SumByConcat(t1, t2, DaysOf(k));
    SumByConcat(t1 + t2, t3, DaysOf(k));
    SumByConcat(t1 + t2 + t3, t4, DaysOf(k));
  }

  /** Every pushed segment starts where an interval of its own kind starts. */
  lemma PushesStarts(available: seq<Interval>, assignedPure: seq<Interval>, leaves: seq<Interval>, conflictPure: seq<Interval>, j: int)
    requires 0 <= j < |Pushes(available, assignedPure, leaves, conflictPure)|
    ensures var t := Pushes(available, assignedPure, leaves, conflictPure)[j];
            StartsInterval(IntervalsOfKind(t.k, available, assignedPure, leaves, conflictPure), t.s.startDate)
  {
    var t1, t2, t3, t4 := TagAll(available, Available), TagAll(assignedPure, Assigned), TagAll(leaves, Leave), TagAll(conflictPure, Conflict);
    var n1, n2, n3 := |t1|, |t1| + |t2|, |t1| + |t2| + |t3|;
    var t := Pushes(available, assignedPure, leaves, conflictPure)[j];
    var list, q;
    if j < n1 {
      list, q := available, j;
      assert t == t1[q];
    } else if j < n2 {
      list, q := assignedPure, j - n1;
      assert t == (t1 + t2)[j] == t2[q];
    } else if j < n3 {
      list, q := leaves, j - n2;
      assert t == (t1 + t2 + t3)[j] == t3[q];
    } else {
      list, q := conflictPure, j - n3;
      assert t == t4[q];
    }
    assert list == IntervalsOfKind(t.k, available, assignedPure, leaves, conflictPure);
    assert 0 <= q < |list| && list[q].start == t.s.startDate;
  }

  /** From the four lists to the final segments and kinds: pushed, sorted by start and merged. The
      segments last as many days as the four lists do, and there are none exactly when the lists are
      all empty. */
  method RowSegments(available: seq<Interval>, assignedPure: seq<Interval>, leaves: seq<Interval>, conflictPure: seq<Interval>)
    returns (segments: seq<Segment>, kinds: seq<Kind>)
    ensures SegmentShape(segments, kinds)
    ensures SumBy(segments, SegmentDuration) ==
              SumBy(available, GanttDays) + SumBy(assignedPure, GanttDays) + SumBy(leaves, GanttDays) + SumBy(conflictPure, GanttDays)
    ensures segments == [] <==> available == [] && assignedPure == [] && leaves == [] && conflictPure == []
    ensures |segments| == |kinds|
    ensures KindTotal(segments, kinds, Available) == SumBy(available, GanttDays)
    ensures KindTotal(segments, kinds, Assigned) == SumBy(assignedPure, GanttDays)
    ensures KindTotal(segments, kinds, Leave) == SumBy(leaves, GanttDays)
    ensures KindTotal(segments, kinds, Conflict) == SumBy(conflictPure, GanttDays)
    ensures forall i :: 0 <= i < |segments| ==>
              StartsInterval(IntervalsOfKind(kinds[i], available, assignedPure, leaves, conflictPure), segments[i].startDate)
  {
    var tagged: seq<Tagged> := [];
    tagged := PushSegments(tagged, available, Available);
    tagged := PushSegments(tagged, assignedPure, Assigned);
    tagged := PushSegments(tagged, leaves, Leave);
    tagged := PushSegments(tagged, conflictPure, Conflict);
    assert tagged == Pushes(available, assignedPure, leaves, conflictPure);
    PushesFacts(available, assignedPure, leaves, conflictPure);
    segments, kinds := SortAndMerge(tagged);
    RowKindDays(available, assignedPure, leaves, conflictPure, tagged, segments, kinds);
    RowKindStarts(available, assignedPure, leaves, conflictPure, tagged, segments, kinds);
  }

  /** The days of each kind in the final segments are the days of that kind's intervals. */
  lemma RowKindDays(available: seq<Interval>, assignedPure: seq<Interval>, leaves: seq<Interval>, conflictPure: seq<Interval>,
                    tagged: seq<Tagged>, segments: seq<Segment>, kinds: seq<Kind>)
    requires tagged == Pushes(available, assignedPure, leaves, conflictPure) && |segments| == |kinds|
    requires forall k :: KindTotal(segments, kinds, k) == SumBy(tagged, DaysOf(k))
    ensures forall k :: KindTotal(segments, kinds, k) == SumBy(IntervalsOfKind(k, available, assignedPure, leaves, conflictPure), GanttDays)
  {
    forall k ensures KindTotal(segments, kinds, k) == SumBy(IntervalsOfKind(k, available, assignedPure, leaves, conflictPure), GanttDays) {
      PushesKinds(available, assignedPure, leaves, conflictPure, k);
    }
  }

  /** Every final segment starts where an interval of its own kind starts. */
  lemma RowKindStarts(available: seq<Interval>, assignedPure: seq<Interval>, leaves: seq<Interval>, conflictPure: seq<Interval>,
                      tagged: seq<Tagged>, segments: seq<Segment>, kinds: seq<Kind>)
    requires tagged == Pushes(available, assignedPure, leaves, conflictPure) && |segments| == |kinds|
    requires forall i :: 0 <= i < |segments| ==>
               exists j :: 0 <= j < |tagged| && tagged[j].k == kinds[i] && tagged[j].s.startDate == segments[i].startDate
    ensures forall i :: 0 <= i < |segments| ==>
              StartsInterval(IntervalsOfKind(kinds[i], available, assignedPure, leaves, conflictPure), segments[i].startDate)
  {
    forall i | 0 <= i < |segments|
      ensures StartsInterval(IntervalsOfKind(kinds[i], available, assignedPure, leaves, conflictPure), segments[i].startDate)
    {
      var j :| 0 <= j < |tagged| && tagged[j].k == kinds[i] && tagged[j].s.startDate == segments[i].startDate;
      PushesStarts(available, assignedPure, leaves, conflictPure, j);
    }
  }

  /** The sort, the merge loop and the split back into `finalSegments` and `finalKinds`. */
  method SortAndMerge(tagged: seq<Tagged>) returns (segments: seq<Segment>, kinds: seq<Kind>)
    requires AllPositive(tagged)
    ensures SegmentShape(segments, kinds)
    ensures SumBy(segments, SegmentDuration) == SumBy(tagged, TaggedDuration)
    ensures segments == [] <==> tagged == []
    ensures |segments| == |kinds|
    ensures forall k :: KindTotal(segments, kinds, k) == SumBy(tagged, DaysOf(k))
    ensures forall i :: 0 <= i < |segments| ==>
              exists j :: 0 <= j < |tagged| && tagged[j].k == kinds[i] && tagged[j].s.startDate == segments[i].startDate
  {
    var sorted := SortByStart(tagged);
    var merged := MergeAdjacent(sorted);
    segments := SegmentsOf(merged);
    kinds := KindsOf(merged);
    ShapeOf(merged);
    SegmentsSum(merged);
    forall k ensures KindTotal(segments, kinds, k) == SumBy(tagged, DaysOf(k)) {
      KindTotalOf(merged, k);
    }
    forall i | 0 <= i < |segments|
      ensures exists j :: 0 <= j < |tagged| && tagged[j].k == kinds[i] && tagged[j].s.startDate == segments[i].startDate
    {
      assert StartsOne(sorted, merged[i]);
      var m :| 0 <= m < |sorted| && sorted[m].k == merged[i].k && sorted[m].s.startDate == merged[i].s.startDate;
      assert StartsOne(tagged, sorted[m]);
    }
  }

  /** The key the row's leaves and conflicts are looked up under, `g.employeeId ?? g.key`; it is
      also the row's `TaskID`. */
  function LookupKey(g: Group): (r: Key)
    ensures g.employeeId.Some? <==> r.Num?
  {
    if g.employeeId.Some? then Num(g.employeeId.value) else Str(g.key)
  }

  /** `g.employeeName || String(g.key)`. */
  function DisplayName(g: Group): string
  {
    if Truthy(g.employeeName) then g.employeeName.value else g.key
  }

  /** `map.get(k) || []`. */
  function Lookup(m: map<Key, seq<Interval>>, k: Key): seq<Interval>
  {
    if k in m then m[k] else []
  }

  /** The row of a group, for the range and the two maps. */
  ghost predicate RowOf(g: Group, row: Row, range: Interval)
  {
    && row.taskId == LookupKey(g)
    && row.taskName == DisplayName(g) && row.employeeName == DisplayName(g)
    && row.employeeId == g.employeeId && row.designation == g.designation && row.grade == g.grade
    && SegmentShape(row.segments, row.segmentKinds)
    && row.duration == SumBy(row.segments, SegmentDuration)
    && (row.segments == [] <==> !NonEmpty(range))
    && row.startDate == (if row.segments == [] then range.start else row.segments[0].startDate)
    && row.endDate == (if row.segments == [] then range.end
                       else AddDays(row.segments[|row.segments| - 1].startDate, row.segments[|row.segments| - 1].duration))
  }

  /** Anything clamped to the range and non-empty makes the range non-empty. */
  lemma SomethingInRange(xs: seq<Interval>, range: Interval)
    requires Inside(xs, range) && AllNonEmpty(xs)
    ensures xs != [] ==> NonEmpty(range)
  {
    if xs != [] {
      assert NonEmpty(xs[0]);
    }
  }

  /** One consolidated row for a group. */
  method BuildRow(g: Group, range: Interval, leaveMap: map<Key, seq<Interval>>, conflictMap: map<Key, seq<Interval>>)
    returns (row: Row)
    ensures RowOf(g, row, range)
  {
    var assignments := CollectAssigned(g.items, range);
    var lvRaw := Lookup(leaveMap, LookupKey(g));
    var cfRaw := Lookup(conflictMap, LookupKey(g));
    var available, assignedPure, leaves, conflictPure := ClassifyTime(assignments, lvRaw, cfRaw, range);
    var segments, kinds := RowSegments(available, assignedPure, leaves, conflictPure);
    if NonEmpty(range) {
      var p := range.start;
      assert Contains(range, p);
      assert Covers(available, p) || Covers(assignedPure, p) || Covers(leaves, p) || Covers(conflictPure, p);
    }
    SomethingInRange(available, range);
    SomethingInRange(assignedPure, range);
    SomethingInRange(leaves, range);
    SomethingInRange(conflictPure, range);
    var durationTotal := SumBy(segments, SegmentDuration);
    var rowStart := if |segments| > 0 then segments[0].startDate else range.start;
    var rowEnd := if |segments| > 0 then AddDays(segments[|segments| - 1].startDate, segments[|segments| - 1].duration) else range.end;
    row := Row(LookupKey(g), DisplayName(g), DisplayName(g), g.employeeId, g.designation, g.grade,
               rowStart, rowEnd, durationTotal, segments, kinds);
  }

  /** `mapPerEmployeeRows`: one row per group, in the order the groups were first met. */
  method MapPerEmployeeRows(raw: seq<PlanItem>, range: Interval,
                            leaveMap: map<Key, seq<Interval>>, conflictMap: map<Key, seq<Interval>>)
    returns (rows: seq<Row>)
    ensures |rows| == |Distinct(KeysOf(raw))|
    ensures forall i :: 0 <= i < |rows| ==>
              Members(raw, Distinct(KeysOf(raw))[i]) != [] && RowOf(GroupFor(raw, Distinct(KeysOf(raw))[i]), rows[i], range)
  {
    var order, groups := BuildGroups(raw);
    rows := [];
    var i := 0;
    while i < |order|
      invariant 0 <= i <= |order| && |rows| == i
      invariant forall k :: 0 <= k < i ==> Members(raw, order[k]) != [] && RowOf(GroupFor(raw, order[k]), rows[k], range)
    {
      assert order[i] in order;
      var row := BuildRow(groups[order[i]], range, leaveMap, conflictMap);
      rows := rows + [row];
      i := i + 1;
    }
  }

  /** The lookup key of a group agrees with the leave and conflict key of its records
      (`EmployeeId ?? Id`) exactly for an id-keyed group, or for a record whose own `Id` is the
      group's "name:" key: a group of records without an employee id is otherwise looked up under a
      key the two maps never hold for its records. */
  lemma LookupKeyMatchesMembers(raw: seq<PlanItem>, k: string, i: int)
    requires Members(raw, k) != [] && 0 <= i < |Members(raw, k)|
    ensures LookupKey(GroupFor(raw, k)) == EmployeeKey(Members(raw, k)[i]) <==>
              GroupFor(raw, k).employeeId.Some? || Members(raw, k)[i].Id == Str(k)
  {
    GroupEmployeeId(raw, k, i);
  }
}
