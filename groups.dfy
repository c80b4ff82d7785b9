/** The first half of `mapPerEmployeeRows`: assignment records grouped into one group per
    employee, with the identity fields taken from the group's records. */
module Groups {
  import opened Text
  import opened Plans
  import opened Dedup

  /** The group key: `id:<EmployeeId>` when the record has an id, otherwise `name:` and the
      lower-cased name ("" when the name is absent). */
  function GroupKey(item: PlanItem): string
  {
    if item.EmployeeId.Some? then "id:" + IntDecimal(item.EmployeeId.value)
    else "name:" + Lower(if item.EmployeeName.Some? then item.EmployeeName.value else "")
  }

  /** One entry of the `groups` map. */
  datatype Group = Group(
    key: string,
    employeeId: Option<int>,
    employeeName: Option<string>,
    designation: Option<string>,
    grade: Option<string>,
    items: seq<PlanItem>)

  /** The identity fields a group keeps from its records. */
  datatype Field = Name | Designation | Grade

  function FieldOf(item: PlanItem, f: Field): Option<string>
  {
    match f
    case Name => item.EmployeeName
    case Designation => item.Designation
    case Grade => item.Grade
  }

  /** The group keys of the assignment records, one per record, in record order. */
  function KeysOf(raw: seq<PlanItem>): seq<string>
  {
    if raw == [] then []
    else
      var item := raw[|raw| - 1];
      if IsAssignment(item) then KeysOf(raw[..|raw| - 1]) + [GroupKey(item)] else KeysOf(raw[..|raw| - 1])
  }

  /** The assignment records with group key k, in record order. */
  function Members(raw: seq<PlanItem>, k: string): (r: seq<PlanItem>)
    ensures forall i :: 0 <= i < |r| ==> IsAssignment(r[i]) && GroupKey(r[i]) == k
  {
    if raw == [] then []
    else
      var item := raw[|raw| - 1];
      var init := raw[..|raw| - 1];
      if IsAssignment(item) && GroupKey(item) == k then Members(init, k) + [item] else Members(init, k)
  }

  /** `if (!g.field && item.field) g.field = item.field`: a truthy value is kept, and an empty one
      gives way to a truthy value of the next record. */
  function KeepTruthy(cur: Option<string>, next: Option<string>): Option<string>
  {
    if !Truthy(cur) && Truthy(next) then next else cur
  }

  /** The kept value of a field: the first record's, replaced by the first truthy one that comes
      later. */
  function Prefer(items: seq<PlanItem>, f: Field): Option<string>
    requires |items| > 0
  {
    if |items| == 1 then FieldOf(items[0], f)
    else KeepTruthy(Prefer(items[..|items| - 1], f), FieldOf(items[|items| - 1], f))
  }

  /** The group of the key k once every record has been read. */
  function GroupFor(raw: seq<PlanItem>, k: string): Group
    requires Members(raw, k) != []
  {
    var items := Members(raw, k);
    Group(k, items[0].EmployeeId, Prefer(items, Name), Prefer(items, Designation), Prefer(items, Grade), items)
  }

  /** A field is the first truthy value among the group's records, if there is one. */
  lemma {:induction false} PreferFirstTruthy(items: seq<PlanItem>, f: Field, i: int)
    requires 0 <= i < |items| && Truthy(FieldOf(items[i], f))
    requires forall k :: 0 <= k < i ==> !Truthy(FieldOf(items[k], f))
    ensures Prefer(items, f) == FieldOf(items[i], f)
    decreases |items|
  {
    if |items| > 1 {
      var init := items[..|items| - 1];
      if i < |init| {
        assert init[i] == items[i];
        assert forall k :: 0 <= k < i ==> init[k] == items[k];
        PreferFirstTruthy(init, f, i);
      } else {
        assert forall k :: 0 <= k < |init| ==> init[k] == items[k];
        PreferNoTruthy(init, f);
      }
    }
  }

  /** Without a truthy value the first record's value stays. */
  lemma {:induction false} PreferNoTruthy(items: seq<PlanItem>, f: Field)
    requires |items| > 0
    requires forall k :: 0 <= k < |items| ==> !Truthy(FieldOf(items[k], f))
    ensures Prefer(items, f) == FieldOf(items[0], f)
    decreases |items|
  {
    if |items| > 1 {
      var init := items[..|items| - 1];
      assert forall k :: 0 <= k < |init| ==> init[k] == items[k];
      PreferNoTruthy(init, f);
    }
  }

  /** A key is in the map exactly when some assignment record has it. */
  lemma {:induction false} KeysMembers(raw: seq<PlanItem>, k: string)
    ensures k in KeysOf(raw) <==> Members(raw, k) != []
    decreases |raw|
  {
    if raw != [] {
      KeysMembers(raw[..|raw| - 1], k);
    }
  }

  /** After the records pre: the keys in first-seen order, and every key's group. */
  ghost predicate GroupsAfter(order: seq<string>, groups: map<string, Group>, pre: seq<PlanItem>)
  {
    && order == Distinct(KeysOf(pre))
    && (forall k :: k in groups <==> k in order)
    && (forall k :: k in groups ==> Members(pre, k) != [] && groups[k] == GroupFor(pre, k))
  }

  /** The keys and one key's members after one more record. */
  lemma MembersSnoc(pre: seq<PlanItem>, item: PlanItem, k: string)
    ensures KeysOf(pre + [item]) == if IsAssignment(item) then KeysOf(pre) + [GroupKey(item)] else KeysOf(pre)
    ensures Members(pre + [item], k) ==
              if IsAssignment(item) && GroupKey(item) == k then Members(pre, k) + [item] else Members(pre, k)
  {
    assert (pre + [item])[..|pre|] == pre;
  }

  /** A new group: the key and the first record's identity fields, with no items yet. */
  function Fresh(item: PlanItem, key: string): Group
  {
    Group(key, item.EmployeeId, item.EmployeeName, item.Designation, item.Grade, [])
  }

  /** One record joins a group: the empty identity fields take the record's truthy values, and the
      record is appended to the items. */
  function Absorb(g: Group, item: PlanItem): Group
  {
    Group(g.key, g.employeeId, KeepTruthy(g.employeeName, item.EmployeeName),
          KeepTruthy(g.designation, item.Designation), KeepTruthy(g.grade, item.Grade), g.items + [item])
  }

  lemma PreferSnoc(items: seq<PlanItem>, item: PlanItem, f: Field)
    ensures Prefer(items + [item], f) ==
              if items == [] then FieldOf(item, f) else KeepTruthy(Prefer(items, f), FieldOf(item, f))
  {
    assert (items + [item])[..|items|] == items;
  }

  /** The group of the record's own key after the record, from the group before it. */
  lemma AbsorbStep(pre: seq<PlanItem>, item: PlanItem)
    requires IsAssignment(item)
    ensures Members(pre + [item], GroupKey(item)) != []
    ensures var key := GroupKey(item);
            GroupFor(pre + [item], key) ==
              Absorb(if Members(pre, key) != [] then GroupFor(pre, key) else Fresh(item, key), item)
  {
    var key := GroupKey(item);
    MembersSnoc(pre, item, key);
    AbsorbItems(Members(pre, key), item, key);
  }

  /** The group built from items and one more record, from the group built from items alone. */
  lemma AbsorbItems(items: seq<PlanItem>, item: PlanItem, key: string)
    ensures var all := items + [item];
            Group(key, all[0].EmployeeId, Prefer(all, Name), Prefer(all, Designation), Prefer(all, Grade), all) ==
              Absorb(if items != [] then Group(key, items[0].EmployeeId, Prefer(items, Name), Prefer(items, Designation),
                                               Prefer(items, Grade), items)
                     else Fresh(item, key), item)
  {
    PreferSnoc(items, item, Name);
    PreferSnoc(items, item, Designation);
    PreferSnoc(items, item, Grade);
    if items != [] {
      assert (items + [item])[0] == items[0];
    }
  }

  /** The key list after one more assignment record. */
  lemma OrderStep(order: seq<string>, groups: map<string, Group>, pre: seq<PlanItem>, item: PlanItem)
    requires GroupsAfter(order, groups, pre) && IsAssignment(item)
    ensures Distinct(KeysOf(pre + [item])) ==
              if GroupKey(item) in groups then order else order + [GroupKey(item)]
  {
    var key := GroupKey(item);
    MembersSnoc(pre, item, key);
    var ks := KeysOf(pre);
    assert (ks + [key])[..|ks|] == ks;
    KeysMembers(pre, key);
  }

  /** One turn of the grouping loop on an assignment record. */
  lemma GroupsStep(order: seq<string>, groups: map<string, Group>, pre: seq<PlanItem>, item: PlanItem,
                   order': seq<string>, groups': map<string, Group>)
    requires GroupsAfter(order, groups, pre) && IsAssignment(item)
    requires var key := GroupKey(item);
             && groups' == groups[key := Absorb(if key in groups then groups[key] else Fresh(item, key), item)]
             && order' == if key in groups then order else order + [key]
    ensures GroupsAfter(order', groups', pre + [item])
  {
    var key := GroupKey(item);
    OrderStep(order, groups, pre, item);
    AbsorbStep(pre, item);
    KeysMembers(pre, key);
    assert key in groups <==> Members(pre, key) != [];
    forall k | k in groups' ensures Members(pre + [item], k) != [] && groups'[k] == GroupFor(pre + [item], k) {
      if k != key {
        MembersSnoc(pre, item, k);
      }
    }
  }

  /** A record that is not an assignment changes nothing. */
  lemma SkipStep(order: seq<string>, groups: map<string, Group>, pre: seq<PlanItem>, item: PlanItem)
    requires GroupsAfter(order, groups, pre) && !IsAssignment(item)
    ensures GroupsAfter(order, groups, pre + [item])
  {
    MembersSnoc(pre, item, "");
    assert KeysOf(pre + [item]) == KeysOf(pre);
    forall k | k in groups ensures Members(pre + [item], k) != [] && groups[k] == GroupFor(pre + [item], k) {
      MembersSnoc(pre, item, k);
    }
  }

  /** The grouping loop of `mapPerEmployeeRows`: the keys come out in first-seen order, and each
      group holds exactly the assignment records with its key. */
  method BuildGroups(raw: seq<PlanItem>) returns (order: seq<string>, groups: map<string, Group>)
    ensures order == Distinct(KeysOf(raw))
    ensures forall k :: k in groups <==> k in order
    ensures forall k :: k in groups ==> Members(raw, k) != [] && groups[k] == GroupFor(raw, k)
  {
    order := [];
    groups := map[];
    var j := 0;
    while j < |raw|
      invariant 0 <= j <= |raw|
      invariant GroupsAfter(order, groups, raw[..j])
    {
      var item := raw[j];
      assert raw[..j + 1] == raw[..j] + [item];
      if !IsAssignment(item) {
        SkipStep(order, groups, raw[..j], item);
        j := j + 1;
        continue;
      }
      ghost var order0, groups0 := order, groups;
      var key := GroupKey(item);
      var g := if key in groups then groups[key] else Fresh(item, key);
      ghost var g0 := g;
      if !Truthy(g.employeeName) && Truthy(item.EmployeeName) { g := g.(employeeName := item.EmployeeName); }
      if !Truthy(g.designation) && Truthy(item.Designation) { g := g.(designation := item.Designation); }
      if !Truthy(g.grade) && Truthy(item.Grade) { g := g.(grade := item.Grade); }
      g := g.(items := g.items + [item]);
      assert g == Absorb(g0, item);
      if key !in groups {
        order := order + [key];
      }
      groups := groups[key := g];
      GroupsStep(order0, groups0, raw[..j], item, order, groups);
      j := j + 1;
    }
    assert raw[..j] == raw;
  }

  /** Every assignment record is a member of the group of its own key. */
  lemma {:induction false} MembersComplete(raw: seq<PlanItem>, i: int)
    requires 0 <= i < |raw| && IsAssignment(raw[i])
    ensures raw[i] in Members(raw, GroupKey(raw[i]))
    decreases |raw|
  {
    var init := raw[..|raw| - 1];
    if i < |init| {
      assert init[i] == raw[i];
      MembersComplete(init, i);
    }
  }

  /** Two keys built from ids are equal only for equal ids, and an id key never equals a name key. */
  lemma GroupKeyInjective(a: PlanItem, b: PlanItem)
    requires GroupKey(a) == GroupKey(b)
    ensures a.EmployeeId.Some? <==> b.EmployeeId.Some?
    ensures a.EmployeeId.Some? ==> a.EmployeeId == b.EmployeeId
  {
    var ka, kb := GroupKey(a), GroupKey(b);
    assert ka[0] == kb[0];
    if a.EmployeeId.Some? && b.EmployeeId.Some? {
      var x, y := a.EmployeeId.value, b.EmployeeId.value;
      assert IntDecimal(x) == ka[3..] == kb[3..] == IntDecimal(y);
      IntDecimalInjective(x, y);
    }
  }

  lemma IntDecimalInjective(x: int, y: int)
    requires IntDecimal(x) == IntDecimal(y)
    ensures x == y
  {
  }

  /** Every record of a group has the group's employee id, so `employeeId`, taken from the first
      record, speaks for the whole group. */
  lemma GroupEmployeeId(raw: seq<PlanItem>, k: string, i: int)
    requires Members(raw, k) != [] && 0 <= i < |Members(raw, k)|
    ensures Members(raw, k)[i].EmployeeId == GroupFor(raw, k).employeeId
  {
    var items := Members(raw, k);
    GroupKeyInjective(items[i], items[0]);
  }
}
