/** The KendoReact scheduler page: one calendar event per plan record, and the `ProjectGroup`
    resource whose values are the distinct project groups of the events. */
module Scheduler {
  import opened Plans
  import opened MSDate
  import opened Dedup

  /** A scheduler event: the record's id, title and comments, its displayed dates, and its group. */
  datatype SchedulerEvent = SchedulerEvent(
    id: Key,
    title: string,
    start: Option<nat>,
    end: Option<nat>,
    description: Option<string>,
    projectGroup: string,
    designation: Option<string>,
    grade: Option<string>)

  /** One entry of the resource's `data` list. */
  datatype ResourceEntry = ResourceEntry(text: string, value: string)

  function ToEvent(item: PlanItem): SchedulerEvent
  {
    SchedulerEvent(item.Id, item.Title, ParseMSDate(item.RenderStartDate), ParseMSDate(item.RenderEndDate),
                   item.Comments, ProjectGroupKey(item), item.Designation, item.Grade)
  }

  /** `mapPlansToEvents`: `raw.map(...)`. */
  function MapPlansToEvents(raw: seq<PlanItem>): (r: seq<SchedulerEvent>)
    ensures |r| == |raw|
  {
    seq(|raw|, i requires 0 <= i < |raw| => ToEvent(raw[i]))
  }

  /** `eventData.map((e) => e.ProjectGroup)` */
  function EventGroups(events: seq<SchedulerEvent>): (r: seq<string>)
    ensures |r| == |events|
  {
    seq(|events|, i requires 0 <= i < |events| => events[i].projectGroup)
  }

  /** `Array.from(new Set(groups)).map((group) => ({ text: group, value: group }))`: a `Set` keeps
      the first-seen order of its members. */
  function ResourceData(events: seq<SchedulerEvent>): (r: seq<ResourceEntry>)
  {
    var groups := Distinct(EventGroups(events));
    seq(|groups|, i requires 0 <= i < |groups| => ResourceEntry(groups[i], groups[i]))
  }

  function Values(data: seq<ResourceEntry>): seq<string>
  {
    seq(|data|, i requires 0 <= i < |data| => data[i].value)
  }

  /** Event i is record i: its dates are the record's displayed dates, its group is the record's
      project-group key, and its description, designation and grade are the record's own. */
  lemma EventOfRecord(raw: seq<PlanItem>, i: int)
    requires 0 <= i < |raw|
    ensures MapPlansToEvents(raw)[i].id == raw[i].Id && MapPlansToEvents(raw)[i].title == raw[i].Title
    ensures MapPlansToEvents(raw)[i].start == ParseMSDate(raw[i].RenderStartDate)
    ensures MapPlansToEvents(raw)[i].end == ParseMSDate(raw[i].RenderEndDate)
    ensures MapPlansToEvents(raw)[i].projectGroup ==
            Interpolate(raw[i].ProjectCode) + " | " + Interpolate(raw[i].ProjectName) + " | " + Interpolate(raw[i].Department)
    ensures MapPlansToEvents(raw)[i].description == raw[i].Comments
    ensures MapPlansToEvents(raw)[i].designation == raw[i].Designation
    ensures MapPlansToEvents(raw)[i].grade == raw[i].Grade
  {
  }

  /** Events keep record order: mapping a concatenation maps each part in turn. */
  lemma EventsConcat(a: seq<PlanItem>, b: seq<PlanItem>)
    ensures MapPlansToEvents(a + b) == MapPlansToEvents(a) + MapPlansToEvents(b)
  {
    var l := MapPlansToEvents(a + b);
    var r := MapPlansToEvents(a) + MapPlansToEvents(b);
    forall i | 0 <= i < |l|
      ensures l[i] == r[i]
    {
      if i < |a| {
        assert (a + b)[i] == a[i];
      } else {
        assert (a + b)[i] == b[i - |a|];
      }
    }
  }

  /** The events' groups are the records' project-group keys. */
  lemma {:induction false} EventGroupsAreKeys(raw: seq<PlanItem>)
    ensures EventGroups(MapPlansToEvents(raw)) == GroupKeys(raw)
  {
    forall i | 0 <= i < |raw|
      ensures EventGroups(MapPlansToEvents(raw))[i] == GroupKeys(raw)[i]
    {
      GroupKeysAt(raw, i);
    }
  }

  /** The resource values are the distinct groups, each entry showing its value as its text. */
  lemma ResourceValues(events: seq<SchedulerEvent>, a: int)
    requires 0 <= a < |ResourceData(events)|
    ensures Values(ResourceData(events)) == Distinct(EventGroups(events))
    ensures ResourceData(events)[a].text == ResourceData(events)[a].value
  {
    assert Values(ResourceData(events)) == Distinct(EventGroups(events));
  }

  /** Every group in the resource list is the group of some event, and each event's group is in it
      exactly once. */
  lemma EveryGroupOnce(events: seq<SchedulerEvent>, i: int)
    requires 0 <= i < |events|
    ensures multiset(Values(ResourceData(events)))[events[i].projectGroup] == 1
  {
    var groups := EventGroups(events);
    assert groups[i] == events[i].projectGroup;
    assert Values(ResourceData(events)) == Distinct(groups);
    OccursOnce(Distinct(groups), groups[i]);
  }

  /** Each resource value is the group of some event. */
  lemma GroupsFromEvents(events: seq<SchedulerEvent>, a: int)
    requires 0 <= a < |ResourceData(events)|
    ensures exists i :: 0 <= i < |events| && events[i].projectGroup == ResourceData(events)[a].value
  {
    var groups := EventGroups(events);
    assert ResourceData(events)[a].value == Distinct(groups)[a];
    assert Distinct(groups)[a] in groups;
  }

  /** Resource values come in the order their groups were first met among the events. */
  lemma ResourcesFirstSeen(events: seq<SchedulerEvent>, a: int, b: int)
    requires 0 <= a < b < |ResourceData(events)|
    ensures ResourceData(events)[a].value in EventGroups(events) && ResourceData(events)[b].value in EventGroups(events)
    ensures FirstIndex(EventGroups(events), ResourceData(events)[a].value) <
            FirstIndex(EventGroups(events), ResourceData(events)[b].value)
  {
    DistinctFirstSeenOrder(EventGroups(events), a, b);
  }
}
