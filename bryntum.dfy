/** The Bryntum scheduler page: plan records become one event each, grouped under one resource per
    project group, and the event renderer marks two designations in red. */
module Bryntum {
  import opened Text
  import opened Plans
  import opened MSDate
  import opened Dedup

  // ---------------------------------------------------------------------------------------------
  // The safe resource id

  predicate IsWordChar(c: char)
  {
    ('a' <= c <= 'z') || ('A' <= c <= 'Z') || ('0' <= c <= '9') || c == '_'
  }

  predicate NoWhitespace(s: string) { forall k :: 0 <= k < |s| ==> !IsWhitespace(s[k]) }

  /** What follows a leading run of white space. */
  function DropRun(s: string): (r: string)
    ensures |r| <= |s|
  {
    if s != [] && IsWhitespace(s[0]) then DropRun(s[1..]) else s
  }

  /** `replace(/\s+/g, '_')`: every maximal run of white space becomes one underscore. */
  function CollapseWhitespace(s: string): string
    decreases |s|
  {
    if s == [] then []
    else if IsWhitespace(s[0]) then "_" + CollapseWhitespace(DropRun(s[1..]))
    else [s[0]] + CollapseWhitespace(s[1..])
  }

  /** `replace(/[^a-zA-Z0-9_]/g, '')`: every other character is deleted. */
  function KeepWordChars(s: string): string
  {
    if s == [] then []
    else if IsWordChar(s[0]) then [s[0]] + KeepWordChars(s[1..])
    else KeepWordChars(s[1..])
  }

  /** `'group_' + groupKey.replace(/\s+/g, '_').replace(/[^a-zA-Z0-9_]/g, '')`. */
  function SafeGroupId(key: string): string
  {
    "group_" + KeepWordChars(CollapseWhitespace(key))
  }

  lemma {:induction false} DropRunStops(s: string)
    ensures DropRun(s) == [] || !IsWhitespace(DropRun(s)[0])
    ensures DropRun(s) == [] ==> AllWhitespace(s)
    decreases |s|
  {
    if s != [] && IsWhitespace(s[0]) {
      DropRunStops(s[1..]);
      if DropRun(s[1..]) == [] {
        forall k | 0 <= k < |s| ensures IsWhitespace(s[k]) {
          if k > 0 { assert s[k] == s[1..][k - 1]; }
        }
      }
    }
  }

  /** The result holds no white space, and a string without white space is left alone. */
  lemma {:induction false} CollapseNoWhitespace(s: string)
    ensures NoWhitespace(CollapseWhitespace(s))
    ensures NoWhitespace(s) ==> CollapseWhitespace(s) == s
    decreases |s|
  {
    if s != [] {
      if IsWhitespace(s[0]) {
        CollapseNoWhitespace(DropRun(s[1..]));
      } else {
        assert NoWhitespace(s) ==> NoWhitespace(s[1..]) by {
          forall k | 0 <= k < |s| - 1 ensures s[1..][k] == s[k + 1] { }
        }
        CollapseNoWhitespace(s[1..]);
      }
    }
  }

  /** Only word characters are kept, and a string of word characters is left alone. */
  lemma {:induction false} KeepWordCharsFacts(s: string)
    ensures forall k :: 0 <= k < |KeepWordChars(s)| ==> IsWordChar(KeepWordChars(s)[k])
    ensures |KeepWordChars(s)| <= |s|
    ensures (forall k :: 0 <= k < |s| ==> IsWordChar(s[k])) ==> KeepWordChars(s) == s
    decreases |s|
  {
    if s != [] {
      assert forall k :: 0 <= k < |s| - 1 ==> s[1..][k] == s[k + 1];
      KeepWordCharsFacts(s[1..]);
    }
  }

  /** A safe id is "group_" followed by word characters only. */
  lemma SafeGroupIdShape(key: string)
    ensures |SafeGroupId(key)| >= 6 && SafeGroupId(key)[..6] == "group_"
    ensures forall k :: 0 <= k < |SafeGroupId(key)| ==> IsWordChar(SafeGroupId(key)[k])
  {
    var rest := KeepWordChars(CollapseWhitespace(key));
    KeepWordCharsFacts(CollapseWhitespace(key));
    assert SafeGroupId(key) == "group_" + rest;
    forall k | 0 <= k < |SafeGroupId(key)| ensures IsWordChar(SafeGroupId(key)[k]) {
      if k >= 6 { assert SafeGroupId(key)[k] == rest[k - 6]; }
    }
  }

  /** The leading run goes as a whole, whatever follows a string that is not all white space. */
  lemma {:induction false} DropRunConcat(s: string, t: string)
    requires DropRun(s) != []
    ensures DropRun(s + t) == DropRun(s) + t
    decreases |s|
  {
    if IsWhitespace(s[0]) {
      assert (s + t)[1..] == s[1..] + t;
      DropRunConcat(s[1..], t);
    } else {
      assert (s + t)[0] == s[0];
    }
  }

  /** White space in front is dropped whatever follows it. */
  lemma {:induction false} DropRunPadding(w: string, t: string)
    requires AllWhitespace(w)
    ensures DropRun(w + t) == DropRun(t)
    decreases |w|
  {
    if w == [] {
      assert w + t == t;
    } else {
      assert (w + t)[1..] == w[1..] + t;
      DropRunPadding(w[1..], t);
    }
  }

  /** A run of white space between two characters that are not white space becomes exactly one
      underscore, and the two sides are rewritten on their own. */
  lemma {:induction false} RunBecomesOneUnderscore(a: string, w: string, b: string)
    requires w != [] && AllWhitespace(w)
    requires a == [] || !IsWhitespace(a[|a| - 1])
    requires b == [] || !IsWhitespace(b[0])
    ensures CollapseWhitespace(a + w + b) == CollapseWhitespace(a) + "_" + CollapseWhitespace(b)
    decreases |a|, 1
  {
    if a == [] {
      RunAtStart(w, b);
      assert a + w + b == w + b;
    } else if IsWhitespace(a[0]) {
      RunAfterRun(a, w, b);
    } else {
      RunAfterChar(a, w, b);
    }
  }

  lemma {:induction false} RunAfterRun(a: string, w: string, b: string)
    requires w != [] && AllWhitespace(w)
    requires a != [] && IsWhitespace(a[0]) && !IsWhitespace(a[|a| - 1])
    requires b == [] || !IsWhitespace(b[0])
    ensures CollapseWhitespace(a + w + b) == CollapseWhitespace(a) + "_" + CollapseWhitespace(b)
    decreases |a|, 0
  {
    var rest := DropRun(a[1..]);
    DropRunStops(a[1..]);
    DropRunSuffix(a[1..]);
    assert |a| >= 2;
    assert a[1..][|a| - 2] == a[|a| - 1];
    assert rest != [];
    assert rest[|rest| - 1] == a[|a| - 1];
    RunBecomesOneUnderscore(rest, w, b);
    LeadingRun(a, w + b);
    Assoc(rest, w, b);
    Assoc(a, w, b);
    Assoc("_", CollapseWhitespace(rest), "_" + CollapseWhitespace(b));
    Assoc(CollapseWhitespace(rest), "_", CollapseWhitespace(b));
    Assoc("_" + CollapseWhitespace(rest), "_", CollapseWhitespace(b));
  }

  lemma {:induction false} RunAfterChar(a: string, w: string, b: string)
    requires w != [] && AllWhitespace(w)
    requires a != [] && !IsWhitespace(a[0]) && !IsWhitespace(a[|a| - 1])
    requires b == [] || !IsWhitespace(b[0])
    ensures CollapseWhitespace(a + w + b) == CollapseWhitespace(a) + "_" + CollapseWhitespace(b)
    decreases |a|, 0
  {
    assert a[1..] == [] || !IsWhitespace(a[1..][|a[1..]| - 1]);
    RunBecomesOneUnderscore(a[1..], w, b);
    LeadingChar(a, w + b);
    Assoc(a[1..], w, b);
    Assoc(a, w, b);
    Assoc([a[0]], CollapseWhitespace(a[1..]), "_" + CollapseWhitespace(b));
    Assoc(CollapseWhitespace(a[1..]), "_", CollapseWhitespace(b));
    Assoc([a[0]] + CollapseWhitespace(a[1..]), "_", CollapseWhitespace(b));
  }

  lemma RunAtStart(w: string, b: string)
    requires w != [] && AllWhitespace(w)
    requires b == [] || !IsWhitespace(b[0])
    ensures CollapseWhitespace(w + b) == "_" + CollapseWhitespace(b)
  {
    var s := w + b;
    assert IsWhitespace(s[0]);
    assert s[1..] == w[1..] + b;
    DropRunPadding(w[1..], b);
    assert DropRun(b) == b;
  }

  /** A string that starts with white space but is not all white space keeps the rewriting of what
      follows its leading run. */
  lemma LeadingRun(a: string, t: string)
    requires a != [] && IsWhitespace(a[0]) && DropRun(a[1..]) != []
    ensures CollapseWhitespace(a + t) == "_" + CollapseWhitespace(DropRun(a[1..]) + t)
  {
    var s := a + t;
    var r := a[1..];
    assert s[1..] == r + t;
    DropRunConcat(r, t);
  }

  lemma LeadingChar(a: string, t: string)
    requires a != [] && !IsWhitespace(a[0])
    ensures CollapseWhitespace(a + t) == [a[0]] + CollapseWhitespace(a[1..] + t)
    ensures CollapseWhitespace(a) == [a[0]] + CollapseWhitespace(a[1..])
  {
    assert (a + t)[0] == a[0];
    assert (a + t)[1..] == a[1..] + t;
  }

  lemma {:induction false} DropRunSuffix(s: string)
    ensures DropRun(s) == s[|s| - |DropRun(s)|..]
    decreases |s|
  {
    if s != [] && IsWhitespace(s[0]) {
      DropRunSuffix(s[1..]);
      assert s[1..][|s| - 1 - |DropRun(s)|..] == s[|s| - |DropRun(s)|..];
    }
  }

  /** A character that is not white space passes through at the end. */
  lemma {:induction false} CollapseSnoc(s: string, c: char)
    requires !IsWhitespace(c)
    ensures CollapseWhitespace(s + [c]) == CollapseWhitespace(s) + [c]
    decreases |s|
  {
    if s == [] {
      assert s + [c] == [c];
      assert [c][1..] == [];
    } else if IsWhitespace(s[0]) {
      var rest := DropRun(s[1..]);
      assert (s + [c])[1..] == s[1..] + [c];
      DropRunStops(s[1..]);
      if rest == [] {
        DropRunPadding(s[1..], [c]);
        assert DropRun([c]) == [c];
        assert [c][1..] == [];
      } else {
        DropRunConcat(s[1..], [c]);
        CollapseSnoc(rest, c);
      }
    } else {
      assert (s + [c])[1..] == s[1..] + [c];
      CollapseSnoc(s[1..], c);
    }
  }

  /** Deleting characters works piece by piece. */
  lemma {:induction false} KeepWordCharsConcat(a: string, b: string)
    ensures KeepWordChars(a + b) == KeepWordChars(a) + KeepWordChars(b)
    decreases |a|
  {
    if a == [] {
      assert a + b == b;
    } else {
      assert (a + b)[0] == a[0];
      assert (a + b)[1..] == a[1..] + b;
      KeepWordCharsConcat(a[1..], b);
    }
  }

  /** Safe ids need not be unique: a trailing character that is neither white space nor a word
      character is deleted, so a key and the key with it appended share one id. */
  lemma PunctuationCollides(key: string, c: char)
    requires !IsWhitespace(c) && !IsWordChar(c)
    ensures key + [c] != key
    ensures SafeGroupId(key + [c]) == SafeGroupId(key)
  {
    assert |key + [c]| != |key|;
    CollapseSnoc(key, c);
    KeepWordCharsConcat(CollapseWhitespace(key), [c]);
    assert [c][1..] == [];
  }

  // ---------------------------------------------------------------------------------------------
  // Resources and events

  datatype Resource = Resource(id: string, name: string)

  datatype Event = Event(
    id: Key,
    resourceId: string,
    name: string,
    startDate: Option<nat>,
    endDate: Option<nat>,
    designation: Option<string>,
    grade: Option<string>,
    comments: Option<string>)

  /** The event of one record: its id and title, its group's safe id, and its displayed dates. */
  function EventOf(item: PlanItem): Event
  {
    Event(item.Id, SafeGroupId(ProjectGroupKey(item)), item.Title,
          ParseMSDate(item.RenderStartDate), ParseMSDate(item.RenderEndDate),
          item.Designation, item.Grade, item.Comments)
  }

  /** One event per record, in record order. */
  function EventsOf(raw: seq<PlanItem>): (r: seq<Event>)
  {
    if raw == [] then [] else EventsOf(raw[..|raw| - 1]) + [EventOf(raw[|raw| - 1])]
  }

  lemma {:induction false} EventsOfAt(raw: seq<PlanItem>, i: int)
    requires 0 <= i < |raw|
    ensures |EventsOf(raw)| == |raw| && EventsOf(raw)[i] == EventOf(raw[i])
    decreases |raw|
  {
    EventsLength(raw[..|raw| - 1]);
    if i < |raw| - 1 {
      EventsOfAt(raw[..|raw| - 1], i);
    }
  }

  lemma {:induction false} EventsLength(raw: seq<PlanItem>)
    ensures |EventsOf(raw)| == |raw|
    decreases |raw|
  {
    if raw != [] {
      EventsLength(raw[..|raw| - 1]);
    }
  }

  function ResourceOf(key: string): Resource
  {
    Resource(SafeGroupId(key), key)
  }

  /** The resources in the order their groups were first met. */
  function ResourcesOf(raw: seq<PlanItem>): seq<Resource>
  {
    var keys := Distinct(GroupKeys(raw));
    seq(|keys|, i requires 0 <= i < |keys| => ResourceOf(keys[i]))
  }

  /** What `toSchedulerData` has built after j records. */
  ghost predicate Filled(raw: seq<PlanItem>, j: int, resourceMap: map<string, Resource>, keyOrder: seq<string>, events: seq<Event>)
  {
    && 0 <= j <= |raw|
    && keyOrder == Distinct(GroupKeys(raw[..j]))
    && (forall k :: k in resourceMap <==> k in keyOrder)
    && (forall k :: k in resourceMap ==> resourceMap[k] == ResourceOf(k))
    && events == EventsOf(raw[..j])
  }

  lemma EventsSnoc(raw: seq<PlanItem>, j: int)
    requires 0 <= j < |raw|
    ensures EventsOf(raw[..j + 1]) == EventsOf(raw[..j]) + [EventOf(raw[j])]
  {
    assert raw[..j + 1][..j] == raw[..j];
  }

  /** A record of a group not met before adds its resource. */
  lemma FilledNew(raw: seq<PlanItem>, j: int, key: string, resourceMap: map<string, Resource>, keyOrder: seq<string>, events: seq<Event>)
    requires j < |raw| && Filled(raw, j, resourceMap, keyOrder, events)
    requires key == ProjectGroupKey(raw[j]) && key !in resourceMap
    ensures Filled(raw, j + 1, resourceMap[key := ResourceOf(key)], keyOrder + [key], events + [EventOf(raw[j])])
  {
    EventsSnoc(raw, j);
    NewKey(raw, j, keyOrder);
    NewResource(resourceMap, keyOrder, key);
  }

  lemma NewResource(resourceMap: map<string, Resource>, keyOrder: seq<string>, key: string)
    requires forall k :: k in resourceMap <==> k in keyOrder
    requires forall k :: k in resourceMap ==> resourceMap[k] == ResourceOf(k)
    ensures forall k :: k in resourceMap[key := ResourceOf(key)] <==> k in keyOrder + [key]
    ensures forall k :: k in resourceMap[key := ResourceOf(key)] ==> resourceMap[key := ResourceOf(key)][k] == ResourceOf(k)
  {
  }

  /** A record of a group met before adds only its event. */
  lemma FilledKnown(raw: seq<PlanItem>, j: int, resourceMap: map<string, Resource>, keyOrder: seq<string>, events: seq<Event>)
    requires j < |raw| && Filled(raw, j, resourceMap, keyOrder, events)
    requires ProjectGroupKey(raw[j]) in resourceMap
    ensures Filled(raw, j + 1, resourceMap, keyOrder, events + [EventOf(raw[j])])
  {
    var key := ProjectGroupKey(raw[j]);
    EventsSnoc(raw, j);
    KeysSnoc(raw, j);
    DistinctSnoc(GroupKeys(raw[..j]), key);
    assert key in GroupKeys(raw[..j]);
  }

  /** `toSchedulerData`: one event per record in record order, and the resource map filled with the
      first record of each group. */
  method ToSchedulerData(raw: seq<PlanItem>) returns (resources: seq<Resource>, events: seq<Event>)
    ensures events == EventsOf(raw)
    ensures resources == ResourcesOf(raw)
  {
    var resourceMap: map<string, Resource> := map[];
    var keyOrder: seq<string> := [];
    events := [];
    var j := 0;
    while j < |raw|
      invariant Filled(raw, j, resourceMap, keyOrder, events)
    {
      var item := raw[j];
      var groupKey := ProjectGroupKey(item);
      var safeGroupId := SafeGroupId(groupKey);
      if groupKey !in resourceMap {
        FilledNew(raw, j, groupKey, resourceMap, keyOrder, events);
        resourceMap := resourceMap[groupKey := Resource(safeGroupId, groupKey)];
        keyOrder := keyOrder + [groupKey];
      } else {
        FilledKnown(raw, j, resourceMap, keyOrder, events);
      }
      events := events + [EventOf(item)];
      j := j + 1;
    }
    assert raw[..j] == raw;
    resources := seq(|keyOrder|, i requires 0 <= i < |keyOrder| => resourceMap[keyOrder[i]]);
  }

  /** Every event's resource id is the id stored with its group's resource. */
  lemma EventHasResource(raw: seq<PlanItem>, i: int)
    requires 0 <= i < |raw|
    ensures exists j :: 0 <= j < |ResourcesOf(raw)| && ResourcesOf(raw)[j].name == ProjectGroupKey(raw[i])
                        && ResourcesOf(raw)[j].id == EventOf(raw[i]).resourceId
  {
    var keys := Distinct(GroupKeys(raw));
    GroupKeysAt(raw, i);
    assert ProjectGroupKey(raw[i]) in keys;
    var j :| 0 <= j < |keys| && keys[j] == ProjectGroupKey(raw[i]);
    assert ResourcesOf(raw)[j] == ResourceOf(keys[j]);
  }

  /** One resource per group: resource names are distinct, and each is the key of some record. */
  lemma ResourcesDistinct(raw: seq<PlanItem>, a: int, b: int)
    requires 0 <= a < |ResourcesOf(raw)| && 0 <= b < |ResourcesOf(raw)|
    ensures a != b ==> ResourcesOf(raw)[a].name != ResourcesOf(raw)[b].name
    ensures exists i :: 0 <= i < |raw| && ProjectGroupKey(raw[i]) == ResourcesOf(raw)[a].name
  {
    var keys := Distinct(GroupKeys(raw));
    assert ResourcesOf(raw)[a].name == keys[a] && ResourcesOf(raw)[b].name == keys[b];
    assert keys[a] in GroupKeys(raw);
    var i :| 0 <= i < |raw| && GroupKeys(raw)[i] == keys[a];
    GroupKeysAt(raw, i);
  }

  /** Resources come in the order their groups were first met. */
  lemma ResourcesFirstSeen(raw: seq<PlanItem>, a: int, b: int)
    requires 0 <= a < b < |ResourcesOf(raw)|
    ensures ResourcesOf(raw)[a].name in GroupKeys(raw) && ResourcesOf(raw)[b].name in GroupKeys(raw)
    ensures FirstIndex(GroupKeys(raw), ResourcesOf(raw)[a].name) < FirstIndex(GroupKeys(raw), ResourcesOf(raw)[b].name)
  {
    DistinctFirstSeenOrder(GroupKeys(raw), a, b);
  }

  // ---------------------------------------------------------------------------------------------
  // The event renderer

  /** The red bar style. */
  const RedStyle: string := "background-color:#ef4444;border-color:#b91c1c;color:#ffffff;"

  /** `(designation ?? '').toString().trim().toLowerCase()` is one of the two red designations. */
  predicate IsRedDesignation(designation: Option<string>)
  {
    var d := Lower(Trim(if designation.Some? then designation.value else ""));
    d == "stores clerk" || d == "quantity surveyor"
  }

  /** The render data whose style the renderer sets. */
  class RenderData {
    var style: Option<string>

    constructor()
      ensures style == None
    {
      style := None;
    }
  }

  /** `eventRenderer`: a red designation gets the red style and the label "Assigned"; any other
      keeps the style and is labelled with the event's name. */
  method EventRenderer(designation: Option<string>, name: string, renderData: RenderData) returns (text: string)
    modifies renderData
    ensures IsRedDesignation(designation) ==> renderData.style == Some(RedStyle) && text == "Assigned"
    ensures !IsRedDesignation(designation) ==> renderData.style == old(renderData.style) && text == name
  {
    var desig := Lower(Trim(if designation.Some? then designation.value else ""));
    if desig == "stores clerk" || desig == "quantity surveyor" {
      renderData.style := Some(RedStyle);
      return "Assigned";
    }
    return name;
  }

  /** White space around the designation does not change the decision. */
  lemma RedIgnoresPadding(left: string, d: string, right: string)
    requires AllWhitespace(left) && AllWhitespace(right)
    ensures IsRedDesignation(Some(left + d + right)) == IsRedDesignation(Some(d))
  {
    TrimIgnoresPadding(left, d, right);
  }

  /** A missing designation is not red. */
  lemma MissingIsNotRed()
    ensures !IsRedDesignation(None)
  {
    assert Trim("") == "";
  }
}
