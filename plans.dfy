/** The plan record that every page reads from the shared plans data, and the keys the pages derive from it. */
module Plans {
  import opened Text
  import opened Dedup

  datatype Option<T> = None | Some(value: T)

  /** A JavaScript value used as a `Map` key or an id: a number or a string (5 and "5" are different keys). */
  datatype Key = Num(n: int) | Str(s: string)

  /** A string field as JSON can leave it: missing from the record, `null`, or a string. */
  datatype Nullable = Undefined | Null | Defined(text: string)

  /** One assignment record. Optional fields are `undefined` when absent; the date fields hold the
      `/Date(<ms>)/` wire format. */
  datatype PlanItem = PlanItem(
    Id: Key,
    Title: string,
    EmployeeName: Option<string>,
    EmployeeId: Option<int>,
    Summary: Option<bool>,
    Designation: Option<string>,
    Grade: Option<string>,
    StartDate: string,
    EndDate: string,
    RenderStartDate: string,
    RenderEndDate: string,
    ProjectCode: Nullable,
    ProjectName: Nullable,
    Department: Nullable,
    Comments: Option<string>)

  /** `item?.Summary === false`: only records that say explicitly that they are not summaries. */
  predicate IsAssignment(item: PlanItem)
  {
    item.Summary == Some(false)
  }

  /** `item.EmployeeId ?? item.Id` */
  function EmployeeKey(item: PlanItem): Key
  {
    if item.EmployeeId.Some? then Num(item.EmployeeId.value) else item.Id
  }

  /** `${x}` in a template literal: a missing field prints as "undefined", a `null` one as "null". */
  function Interpolate(o: Nullable): string
  {
    if o.Defined? then o.text else if o.Null? then "null" else "undefined"
  }

  /** `${ProjectCode} | ${ProjectName} | ${Department}`, the project-group key of three pages. */
  function ProjectGroupKey(item: PlanItem): string
  {
    Interpolate(item.ProjectCode) + " | " + Interpolate(item.ProjectName) + " | " + Interpolate(item.Department)
  }

  /** A record whose project code is `null` and one where it is missing land in different project groups. */
  lemma NullAndMissingCodesDiffer(a: PlanItem, b: PlanItem)
    requires a.ProjectCode == Null && b.ProjectCode == Undefined
    ensures ProjectGroupKey(a) != ProjectGroupKey(b)
  {
    assert ProjectGroupKey(a)[0] == 'n';
    assert ProjectGroupKey(b)[0] == 'u';
  }

  /** JavaScript truthiness of an optional string: neither undefined nor "". */
  predicate Truthy(o: Option<string>)
  {
    o.Some? && o.value != ""
  }

  /** The group key of each record, in record order. */
  function GroupKeys(raw: seq<PlanItem>): (r: seq<string>)
    ensures |r| == |raw|
  {
    if raw == [] then [] else GroupKeys(raw[..|raw| - 1]) + [ProjectGroupKey(raw[|raw| - 1])]
  }

  lemma {:induction false} GroupKeysAt(raw: seq<PlanItem>, i: int)
    requires 0 <= i < |raw|
    ensures GroupKeys(raw)[i] == ProjectGroupKey(raw[i])
    decreases |raw|
  {
    if i < |raw| - 1 {
      GroupKeysAt(raw[..|raw| - 1], i);
    }
  }

  lemma KeysSnoc(raw: seq<PlanItem>, j: int)
    requires 0 <= j < |raw|
    ensures GroupKeys(raw[..j + 1]) == GroupKeys(raw[..j]) + [ProjectGroupKey(raw[j])]
  {
    assert raw[..j + 1][..j] == raw[..j];
  }

  /** The first record of a group not met before extends the first-seen key order. */
  lemma NewKey(raw: seq<PlanItem>, j: int, keyOrder: seq<string>)
    requires 0 <= j < |raw| && keyOrder == Distinct(GroupKeys(raw[..j])) && ProjectGroupKey(raw[j]) !in keyOrder
    ensures keyOrder + [ProjectGroupKey(raw[j])] == Distinct(GroupKeys(raw[..j + 1]))
  {
    var key := ProjectGroupKey(raw[j]);
    KeysSnoc(raw, j);
    DistinctSnoc(GroupKeys(raw[..j]), key);
    assert key !in GroupKeys(raw[..j]);
  }

  /** A record of a group met before leaves the first-seen key order as it is. */
  lemma KnownKey(raw: seq<PlanItem>, j: int, keyOrder: seq<string>)
    requires 0 <= j < |raw| && keyOrder == Distinct(GroupKeys(raw[..j])) && ProjectGroupKey(raw[j]) in keyOrder
    ensures keyOrder == Distinct(GroupKeys(raw[..j + 1]))
  {
    var key := ProjectGroupKey(raw[j]);
    KeysSnoc(raw, j);
    DistinctSnoc(GroupKeys(raw[..j]), key);
    assert key in GroupKeys(raw[..j]);
  }
}
