/** `generatePOCLeaves`: one leave window, for one employee, clamped to the visible range. The
    leave bounds (the first day of the fourth month after the range start to the last instant of
    the fifth) are inputs here rather than computed from the local calendar. */
module Leaves {
  import opened Plans
  import opened Intervals

  /** The employee the leave is shown for when one is present. */
  const PreferredEmployee: int := 96348

  /** `String(item.EmployeeId ?? '') === '96348'`: the id prints as the preferred one; an absent id
      prints as "" and never matches. */
  predicate IsPreferred(item: PlanItem)
  {
    item.EmployeeId == Some(PreferredEmployee)
  }

  /** i is the first assignment record of raw. */
  ghost predicate FirstAssignment(raw: seq<PlanItem>, i: int)
  {
    0 <= i < |raw| && IsAssignment(raw[i]) && forall k :: 0 <= k < i ==> !IsAssignment(raw[k])
  }

  function HasPreferred(raw: seq<PlanItem>): (b: bool)
    ensures b <==> exists i :: 0 <= i < |raw| && IsAssignment(raw[i]) && IsPreferred(raw[i])
  {
    if raw == [] then false
    else
      assert forall i :: 0 < i < |raw| ==> raw[i] == raw[1..][i - 1];
      (IsAssignment(raw[0]) && IsPreferred(raw[0])) || HasPreferred(raw[1..])
  }

  /** `item.EmployeeId ?? item.Id` of the first assignment record, if there is one. */
  function FirstAssignmentKey(raw: seq<PlanItem>): (r: Option<Key>)
    ensures r.None? <==> forall i :: 0 <= i < |raw| ==> !IsAssignment(raw[i])
    ensures r.Some? ==> exists i :: FirstAssignment(raw, i) && r.value == EmployeeKey(raw[i])
  {
    if raw == [] then None
    else if IsAssignment(raw[0]) then
      assert FirstAssignment(raw, 0);
      Some(EmployeeKey(raw[0]))
    else
      var r := FirstAssignmentKey(raw[1..]);
      assert forall i :: 0 < i < |raw| ==> raw[i] == raw[1..][i - 1];
      assert r.Some? ==> exists i :: FirstAssignment(raw, i) && r.value == EmployeeKey(raw[i]) by {
        if r.Some? {
          var i :| FirstAssignment(raw[1..], i) && r.value == EmployeeKey(raw[1..][i]);
          assert FirstAssignment(raw, i + 1);
        }
      }
      r
  }

  /** The employee the leave goes to: the preferred one if any assignment record names it, otherwise
      the key of the first assignment record, and nobody when there is no assignment record. */
  function LeaveTarget(raw: seq<PlanItem>): (r: Option<Key>)
    ensures r.None? <==> forall i :: 0 <= i < |raw| ==> !IsAssignment(raw[i])
    ensures (exists i :: 0 <= i < |raw| && IsAssignment(raw[i]) && IsPreferred(raw[i])) ==>
              r == Some(Num(PreferredEmployee))
  {
    if HasPreferred(raw) then Some(Num(PreferredEmployee)) else FirstAssignmentKey(raw)
  }

  /** The leave window clamped to the range. */
  function ClampedLeave(range: Interval, leave: Interval): Interval
  {
    Interval(Max(range.start, leave.start), Min(range.end, leave.end))
  }

  /** The loop that picks `targetId`: it stops at the first assignment record of the preferred
      employee, and otherwise keeps the key of the first assignment record it met. */
  method ChooseTarget(raw: seq<PlanItem>) returns (targetId: Option<Key>)
    ensures targetId == LeaveTarget(raw)
  {
    targetId := None;
    var j := 0;
    while j < |raw|
      invariant 0 <= j <= |raw|
      invariant forall i :: 0 <= i < j ==> !(IsAssignment(raw[i]) && IsPreferred(raw[i]))
      invariant targetId.None? <==> forall i :: 0 <= i < j ==> !IsAssignment(raw[i])
      invariant targetId.Some? ==> exists i :: FirstAssignment(raw, i) && i < j && targetId.value == EmployeeKey(raw[i])
    {
      var item := raw[j];
      if IsAssignment(item) {
        if IsPreferred(item) {
          targetId := Some(Num(item.EmployeeId.value));
          assert HasPreferred(raw);
          return;
        }
        if targetId.None? {
          targetId := Some(EmployeeKey(item));
          assert FirstAssignment(raw, j);
        }
      }
      j := j + 1;
    }
    ghost var first := FirstAssignmentKey(raw);
    if first.Some? {
      ghost var i :| FirstAssignment(raw, i) && first.value == EmployeeKey(raw[i]);
      ghost var i' :| FirstAssignment(raw, i') && i' < j && targetId.value == EmployeeKey(raw[i']);
      assert i == i';
    }
  }

  /** `generatePOCLeaves`: an empty map when there is no target or the clamped leave is empty;
      otherwise the target mapped to the clamped leave alone. */
  method GeneratePOCLeaves(raw: seq<PlanItem>, range: Interval, leave: Interval)
    returns (leaves: map<Key, seq<Interval>>)
    ensures LeaveTarget(raw).None? || !NonEmpty(ClampedLeave(range, leave)) ==> leaves == map[]
    ensures LeaveTarget(raw).Some? && NonEmpty(ClampedLeave(range, leave)) ==>
              leaves == map[LeaveTarget(raw).value := [ClampedLeave(range, leave)]]
    ensures forall k :: k in leaves ==> Canonical(leaves[k]) && Inside(leaves[k], range) && |leaves[k]| == 1
    ensures forall k, k' :: k in leaves && k' in leaves ==> k == k'
  {
    var targetId := ChooseTarget(raw);
    if targetId.None? {
      return map[];
    }
    var s := Max(range.start, leave.start);
    var e := Min(range.end, leave.end);
    if e <= s {
      return map[];
    }
    leaves := map[targetId.value := [Interval(s, e)]];
  }

  /** Without the preferred employee, the first assignment record's key takes the leave. */
  lemma FirstAssignmentWins(raw: seq<PlanItem>, i: int)
    requires FirstAssignment(raw, i)
    requires forall k :: 0 <= k < |raw| ==> !(IsAssignment(raw[k]) && IsPreferred(raw[k]))
    ensures LeaveTarget(raw) == Some(EmployeeKey(raw[i]))
  {
    var r := FirstAssignmentKey(raw);
    var i' :| FirstAssignment(raw, i') && r.value == EmployeeKey(raw[i']);
    assert i == i';
  }

  /** Records that are not assignments have no say in the target. */
  lemma {:induction false} SummariesIgnored(raw: seq<PlanItem>, item: PlanItem)
    requires !IsAssignment(item)
    ensures LeaveTarget([item] + raw) == LeaveTarget(raw)
  {
    var s := [item] + raw;
    assert s[1..] == raw;
  }
}
