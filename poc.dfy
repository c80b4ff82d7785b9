/** The KendoReact proof-of-concept page: plan records grouped into one expandable tree node per
    project group, and the list of expanded node ids that the expand toggle edits. */
module Poc {
  import opened Text
  import opened Plans
  import opened MSDate
  import opened Dedup

  // ---------------------------------------------------------------------------------------------
  // The Gantt tree

  /** A leaf task: the record's id, title and details, with its planned (not its displayed) dates. */
  datatype Child = Child(
    id: Key,
    title: string,
    designation: Option<string>,
    grade: Option<string>,
    start: Option<nat>,
    end: Option<nat>,
    comments: Option<string>)

  /** A project-group node. */
  datatype GroupNode = GroupNode(id: string, title: string, isExpanded: bool, children: seq<Child>)

  function ChildOf(item: PlanItem): Child
  {
    Child(item.Id, item.Title, item.Designation, item.Grade,
          ParseMSDate(item.StartDate), ParseMSDate(item.EndDate), item.Comments)
  }

  /** The children of group k: the records with key k, in record order. */
  function ChildrenOf(raw: seq<PlanItem>, k: string): seq<Child>
  {
    if raw == [] then []
    else
      var last := raw[|raw| - 1];
      ChildrenOf(raw[..|raw| - 1], k) + (if ProjectGroupKey(last) == k then [ChildOf(last)] else [])
  }

  function GroupOf(raw: seq<PlanItem>, k: string): GroupNode
  {
    GroupNode(k, k, true, ChildrenOf(raw, k))
  }

  function Groups(raw: seq<PlanItem>, keys: seq<string>): seq<GroupNode>
  {
    seq(|keys|, i requires 0 <= i < |keys| => GroupOf(raw, keys[i]))
  }

  /** The top-level nodes, one per project group in the order the groups were first met. */
  function GroupsOf(raw: seq<PlanItem>): seq<GroupNode>
  {
    Groups(raw, Distinct(GroupKeys(raw)))
  }

  /** What `groupPlansData` has built after j records. */
  ghost predicate Grouped(raw: seq<PlanItem>, j: int, groups: map<string, GroupNode>, keyOrder: seq<string>)
  {
    && 0 <= j <= |raw|
    && keyOrder == Distinct(GroupKeys(raw[..j]))
    && (forall k :: k in groups <==> k in keyOrder)
    && (forall k :: k in groups ==> groups[k] == GroupOf(raw[..j], k))
  }

  /** The state once record j's group exists, before its child is pushed. */
  ghost predicate Opened(raw: seq<PlanItem>, j: int, key: string, groups: map<string, GroupNode>, keyOrder: seq<string>)
  {
    && 0 <= j < |raw|
    && key == ProjectGroupKey(raw[j]) && key in groups
    && keyOrder == Distinct(GroupKeys(raw[..j + 1]))
    && (forall k :: k in groups <==> k in keyOrder)
    && (forall k :: k in groups ==> groups[k] == GroupOf(raw[..j], k))
  }

  lemma {:induction false} ChildrenAbsent(raw: seq<PlanItem>, k: string)
    requires k !in GroupKeys(raw)
    ensures ChildrenOf(raw, k) == []
    decreases |raw|
  {
    if raw != [] {
      assert GroupKeys(raw) == GroupKeys(raw[..|raw| - 1]) + [ProjectGroupKey(raw[|raw| - 1])];
      ChildrenAbsent(raw[..|raw| - 1], k);
    }
  }

  lemma ChildrenSnoc(raw: seq<PlanItem>, j: int, k: string)
    requires 0 <= j < |raw|
    ensures ChildrenOf(raw[..j + 1], k) ==
            ChildrenOf(raw[..j], k) + (if ProjectGroupKey(raw[j]) == k then [ChildOf(raw[j])] else [])
  {
    assert raw[..j + 1][..j] == raw[..j];
  }

  /** A record of a group not met before creates an empty node for it. */
  lemma OpenNew(raw: seq<PlanItem>, j: int, key: string, groups: map<string, GroupNode>, keyOrder: seq<string>)
    requires j < |raw| && Grouped(raw, j, groups, keyOrder)
    requires key == ProjectGroupKey(raw[j]) && key !in groups
    ensures Opened(raw, j, key, groups[key := GroupNode(key, key, true, [])], keyOrder + [key])
  {
    NewKey(raw, j, keyOrder);
    assert key !in GroupKeys(raw[..j]);
    ChildrenAbsent(raw[..j], key);
    NewGroup(raw[..j], groups, keyOrder, key);
  }

  lemma NewGroup(p: seq<PlanItem>, groups: map<string, GroupNode>, keyOrder: seq<string>, key: string)
    requires forall k :: k in groups <==> k in keyOrder
    requires forall k :: k in groups ==> groups[k] == GroupOf(p, k)
    requires ChildrenOf(p, key) == []
    ensures forall k :: k in groups[key := GroupNode(key, key, true, [])] <==> k in keyOrder + [key]
    ensures forall k :: k in groups[key := GroupNode(key, key, true, [])] ==>
                        groups[key := GroupNode(key, key, true, [])][k] == GroupOf(p, k)
  {
  }

  /** A record of a group met before finds its node. */
  lemma OpenKnown(raw: seq<PlanItem>, j: int, key: string, groups: map<string, GroupNode>, keyOrder: seq<string>)
    requires j < |raw| && Grouped(raw, j, groups, keyOrder)
    requires key == ProjectGroupKey(raw[j]) && key in groups
    ensures Opened(raw, j, key, groups, keyOrder)
  {
    KnownKey(raw, j, keyOrder);
  }

  /** Pushing record j's child onto its node accounts for record j. */
  lemma PushChild(raw: seq<PlanItem>, j: int, key: string, groups: map<string, GroupNode>, keyOrder: seq<string>)
    requires Opened(raw, j, key, groups, keyOrder)
    ensures Grouped(raw, j + 1, groups[key := groups[key].(children := groups[key].children + [ChildOf(raw[j])])], keyOrder)
  {
    ChildrenStep(raw, j, key);
    PushGroups(raw[..j], raw[..j + 1], ChildOf(raw[j]), key, groups);
  }

  /** Appending a child to one node of the map matches the prefix that adds that child to that
      node's children only. */
  lemma PushGroups(p0: seq<PlanItem>, p1: seq<PlanItem>, child: Child, key: string, groups: map<string, GroupNode>)
    requires key in groups
    requires forall k :: k in groups ==> groups[k] == GroupOf(p0, k)
    requires forall k :: ChildrenOf(p1, k) == ChildrenOf(p0, k) + (if k == key then [child] else [])
    ensures var pushed := groups[key := groups[key].(children := groups[key].children + [child])];
            forall k :: k in pushed ==> pushed[k] == GroupOf(p1, k)
  {
  }

  /** Record j adds its child to its own group's children and to no other. */
  lemma ChildrenStep(raw: seq<PlanItem>, j: int, key: string)
    requires 0 <= j < |raw| && key == ProjectGroupKey(raw[j])
    ensures forall k :: ChildrenOf(raw[..j + 1], k) == ChildrenOf(raw[..j], k) + (if k == key then [ChildOf(raw[j])] else [])
  {
    forall k ensures ChildrenOf(raw[..j + 1], k) == ChildrenOf(raw[..j], k) + (if k == key then [ChildOf(raw[j])] else []) {
      ChildrenSnoc(raw, j, k);
    }
  }

  /** The dictionary and its key-insertion order after a record: the record's node is created if its
      key is new, then the record's child is appended to it. */
  ghost function FillStep(groups: map<string, GroupNode>, keyOrder: seq<string>, item: PlanItem): (map<string, GroupNode>, seq<string>)
  {
    var key := ProjectGroupKey(item);
    var withNode := if key in groups then groups else groups[key := GroupNode(key, key, true, [])];
    (withNode[key := withNode[key].(children := withNode[key].children + [ChildOf(item)])],
     if key in groups then keyOrder else keyOrder + [key])
  }

  /** The dictionary and key order once the records p have been read. */
  ghost function Fill(p: seq<PlanItem>): (map<string, GroupNode>, seq<string>)
  {
    if p == [] then (map[], []) else FillStep(Fill(p[..|p| - 1]).0, Fill(p[..|p| - 1]).1, p[|p| - 1])
  }

  /** Every prefix's dictionary holds one node per group met so far, with that group's children. */
  lemma {:induction false} FillGrouped(raw: seq<PlanItem>, j: int)
    requires 0 <= j <= |raw|
    ensures Grouped(raw, j, Fill(raw[..j]).0, Fill(raw[..j]).1)
    decreases j
  {
    if j > 0 {
      FillGrouped(raw, j - 1);
      var groups, keyOrder := Fill(raw[..j - 1]).0, Fill(raw[..j - 1]).1;
      var key := ProjectGroupKey(raw[j - 1]);
      assert raw[..j][..j - 1] == raw[..j - 1];
      assert Fill(raw[..j]) == FillStep(groups, keyOrder, raw[j - 1]);
      var withNode := if key in groups then groups else groups[key := GroupNode(key, key, true, [])];
      var order := if key in groups then keyOrder else keyOrder + [key];
      if key in groups {
        OpenKnown(raw, j - 1, key, groups, keyOrder);
      } else {
        OpenNew(raw, j - 1, key, groups, keyOrder);
      }
      PushChild(raw, j - 1, key, withNode, order);
    }
  }

  /** `groupPlansData`: the dictionary of group nodes is filled record by record, a node being
      created the first time its key is met; `Object.values` lists the nodes in key-insertion order,
      since no key is an array index (see `KeyNotArrayIndex`). */
  method GroupPlansData(raw: seq<PlanItem>) returns (result: seq<GroupNode>)
    ensures result == GroupsOf(raw)
  {
    var groups: map<string, GroupNode> := map[];
    var keyOrder: seq<string> := [];
    var j := 0;
    while j < |raw|
      invariant 0 <= j <= |raw|
      invariant (groups, keyOrder) == Fill(raw[..j])
    {
      var item := raw[j];
      var groupKey := ProjectGroupKey(item);
      ghost var before := (groups, keyOrder);
      if groupKey !in groups {
        groups := groups[groupKey := GroupNode(groupKey, groupKey, true, [])];
        keyOrder := keyOrder + [groupKey];
      }
      var group := groups[groupKey];
      groups := groups[groupKey := group.(children := group.children + [ChildOf(item)])];
      assert raw[..j + 1][..j] == raw[..j];
      assert (groups, keyOrder) == FillStep(before.0, before.1, item);
      j := j + 1;
    }
    assert raw[..j] == raw;
    FillListed(raw);
    result := ValuesInOrder(groups, keyOrder);
  }

  /** `Object.values` of a dictionary whose keys were inserted in the order keyOrder. */
  function ValuesInOrder(groups: map<string, GroupNode>, keyOrder: seq<string>): (r: seq<GroupNode>)
    requires forall k :: k in keyOrder ==> k in groups
    ensures |r| == |keyOrder| && forall i :: 0 <= i < |r| ==> r[i] == groups[keyOrder[i]]
  {
    seq(|keyOrder|, i requires 0 <= i < |keyOrder| => groups[keyOrder[i]])
  }

  /** The dictionary after all the records, listed in key-insertion order, is the tree's top level. */
  lemma FillListed(raw: seq<PlanItem>)
    ensures forall k :: k in Fill(raw).1 ==> k in Fill(raw).0
    ensures ValuesInOrder(Fill(raw).0, Fill(raw).1) == GroupsOf(raw)
  {
    FillGrouped(raw, |raw|);
    assert raw[..|raw|] == raw;
    GroupsListed(raw, Fill(raw).0, Fill(raw).1);
  }

  /** Once every record is read, the nodes listed in key order are the tree's top level. */
  lemma GroupsListed(raw: seq<PlanItem>, groups: map<string, GroupNode>, keyOrder: seq<string>)
    requires Grouped(raw, |raw|, groups, keyOrder)
    ensures |keyOrder| == |GroupsOf(raw)|
    ensures forall i :: 0 <= i < |keyOrder| ==> keyOrder[i] in groups && groups[keyOrder[i]] == GroupsOf(raw)[i]
  {
    assert raw[..|raw|] == raw;
  }

  // ---------------------------------------------------------------------------------------------
  // What the tree promises

  /** A group key always contains " | ", so it is never a canonical array index: JavaScript lists
      such keys of an object first, in numeric order, and insertion order would then be lost. */
  lemma KeyNotArrayIndex(item: PlanItem)
    ensures " | " <= ProjectGroupKey(item)[|Interpolate(item.ProjectCode)|..]
    ensures !AllDigits(ProjectGroupKey(item))
  {
    var c := Interpolate(item.ProjectCode);
    var key := ProjectGroupKey(item);
    assert key[|c|] == ' ';
    assert !IsDigit(key[|c|]);
  }

  /** Each node's id and title are its group key and it starts expanded; the nodes are pairwise
      different groups, each met in some record. */
  lemma GroupShape(raw: seq<PlanItem>, a: int, b: int)
    requires 0 <= a < |GroupsOf(raw)| && 0 <= b < |GroupsOf(raw)|
    ensures GroupsOf(raw)[a].id == GroupsOf(raw)[a].title && GroupsOf(raw)[a].isExpanded
    ensures a != b ==> GroupsOf(raw)[a].id != GroupsOf(raw)[b].id
    ensures exists i :: 0 <= i < |raw| && ProjectGroupKey(raw[i]) == GroupsOf(raw)[a].id
  {
    var keys := Distinct(GroupKeys(raw));
    assert GroupsOf(raw)[a].id == keys[a] && GroupsOf(raw)[b].id == keys[b];
    assert keys[a] in GroupKeys(raw);
    var i :| 0 <= i < |raw| && GroupKeys(raw)[i] == keys[a];
    GroupKeysAt(raw, i);
  }

  /** Nodes come in the order their groups were first met. */
  lemma GroupsFirstSeen(raw: seq<PlanItem>, a: int, b: int)
    requires 0 <= a < b < |GroupsOf(raw)|
    ensures GroupsOf(raw)[a].id in GroupKeys(raw) && GroupsOf(raw)[b].id in GroupKeys(raw)
    ensures FirstIndex(GroupKeys(raw), GroupsOf(raw)[a].id) < FirstIndex(GroupKeys(raw), GroupsOf(raw)[b].id)
  {
    DistinctFirstSeenOrder(GroupKeys(raw), a, b);
  }

  /** Every record's child sits in the node of its own group; the child carries the record's id and
      title, and its dates come from `StartDate` and `EndDate`, not from the displayed dates. */
  lemma {:induction false} ItemPlaced(raw: seq<PlanItem>, i: int)
    requires 0 <= i < |raw|
    ensures exists g :: 0 <= g < |GroupsOf(raw)| && GroupsOf(raw)[g].id == ProjectGroupKey(raw[i])
                        && ChildOf(raw[i]) in GroupsOf(raw)[g].children
    ensures ChildOf(raw[i]).id == raw[i].Id && ChildOf(raw[i]).title == raw[i].Title
    ensures ChildOf(raw[i]).start == ParseMSDate(raw[i].StartDate) && ChildOf(raw[i]).end == ParseMSDate(raw[i].EndDate)
  {
    var key := ProjectGroupKey(raw[i]);
    var keys := Distinct(GroupKeys(raw));
    GroupKeysAt(raw, i);
    assert key in keys;
    var g :| 0 <= g < |keys| && keys[g] == key;
    ChildInOwnGroup(raw, i);
    assert GroupsOf(raw)[g] == GroupOf(raw, key);
  }

  lemma {:induction false} ChildInOwnGroup(raw: seq<PlanItem>, i: int)
    requires 0 <= i < |raw|
    ensures ChildOf(raw[i]) in ChildrenOf(raw, ProjectGroupKey(raw[i]))
    decreases |raw|
  {
    if i < |raw| - 1 {
      ChildInOwnGroup(raw[..|raw| - 1], i);
    }
  }

  /** A node holds only children of records of its own group. */
  lemma {:induction false} ChildrenFromGroup(raw: seq<PlanItem>, k: string, c: Child)
    requires c in ChildrenOf(raw, k)
    ensures exists i :: 0 <= i < |raw| && ProjectGroupKey(raw[i]) == k && ChildOf(raw[i]) == c
    decreases |raw|
  {
    var front := raw[..|raw| - 1];
    if c in ChildrenOf(front, k) {
      ChildrenFromGroup(front, k, c);
      var i :| 0 <= i < |front| && ProjectGroupKey(front[i]) == k && ChildOf(front[i]) == c;
      assert raw[i] == front[i];
    } else {
      assert ProjectGroupKey(raw[|raw| - 1]) == k && ChildOf(raw[|raw| - 1]) == c;
    }
  }

  /** Children keep record order: the children of a concatenation are those of each part in turn. */
  lemma {:induction false} ChildrenConcat(a: seq<PlanItem>, b: seq<PlanItem>, k: string)
    ensures ChildrenOf(a + b, k) == ChildrenOf(a, k) + ChildrenOf(b, k)
    decreases |b|
  {
    if b != [] {
      var b' := b[..|b| - 1];
      assert (a + b)[..|a + b| - 1] == a + b';
      assert (a + b)[|a + b| - 1] == b[|b| - 1];
      ChildrenConcat(a, b', k);
      Assoc(ChildrenOf(a, k), ChildrenOf(b', k),
            if ProjectGroupKey(b[|b| - 1]) == k then [ChildOf(b[|b| - 1])] else []);
    } else {
      assert a + b == a;
    }
  }

  /** The number of children over a list of nodes. */
  function SumChildren(gs: seq<GroupNode>): nat
  {
    if gs == [] then 0 else SumChildren(gs[..|gs| - 1]) + |gs[|gs| - 1].children|
  }

  lemma GroupsSnoc(raw: seq<PlanItem>, keys: seq<string>, k: string)
    ensures SumChildren(Groups(raw, keys + [k])) == SumChildren(Groups(raw, keys)) + |ChildrenOf(raw, k)|
  {
    var gs := Groups(raw, keys + [k]);
    assert gs[..|gs| - 1] == Groups(raw, keys);
  }

  /** One more record adds one child to its own group's node and none to the others. */
  lemma {:induction false} SumChildrenLater(raw: seq<PlanItem>, x: PlanItem, keys: seq<string>)
    requires NoDuplicates(keys)
    ensures SumChildren(Groups(raw + [x], keys)) ==
            SumChildren(Groups(raw, keys)) + (if ProjectGroupKey(x) in keys then 1 else 0)
    decreases |keys|
  {
    if keys != [] {
      var ks := keys[..|keys| - 1];
      var k := keys[|keys| - 1];
      assert keys == ks + [k];
      assert (raw + [x])[..|raw|] == raw;
      SumChildrenLater(raw, x, ks);
      GroupsSnoc(raw + [x], ks, k);
      GroupsSnoc(raw, ks, k);
      assert ProjectGroupKey(x) in keys <==> ProjectGroupKey(x) in ks || ProjectGroupKey(x) == k;
      assert k !in ks;
    }
  }

  /** Every record becomes exactly one child: together with `ItemPlaced`, there are no more
      children than records. */
  lemma {:induction false} TotalChildren(raw: seq<PlanItem>)
    ensures SumChildren(GroupsOf(raw)) == |raw|
    decreases |raw|
  {
    if raw != [] {
      var front := raw[..|raw| - 1];
      var x := raw[|raw| - 1];
      var key := ProjectGroupKey(x);
      var d := Distinct(GroupKeys(front));
      assert raw == front + [x];
      assert GroupKeys(raw) == GroupKeys(front) + [key];
      DistinctSnoc(GroupKeys(front), key);
      TotalChildren(front);
      SumChildrenLater(front, x, d);
      if key in GroupKeys(front) {
        assert key in d;
      } else {
        assert key !in d;
        GroupsSnoc(raw, d, key);
        ChildrenAbsent(front, key);
      }
    }
  }

  // ---------------------------------------------------------------------------------------------
  // The expand toggle

  /** `s.filter((currentId) => currentId !== id)` */
  function RemoveAll(s: seq<Key>, id: Key): (r: seq<Key>)
    ensures id !in r
    ensures multiset(r) == multiset(s)[id := 0]
  {
    if s == [] then []
    else
      assert s == s[..|s| - 1] + [s[|s| - 1]];
      RemoveAll(s[..|s| - 1], id) + (if s[|s| - 1] == id then [] else [s[|s| - 1]])
  }

  /** The expanded-id list after a node's expand state changes: `value` true removes every
      occurrence of its id, otherwise the id is appended. */
  function NewExpandedState(expandedState: seq<Key>, id: Key, value: bool): (r: seq<Key>)
    ensures value ==> id !in r
    ensures !value ==> |r| == |expandedState| + 1 && r[..|expandedState|] == expandedState && r[|expandedState|] == id
    ensures forall x :: x != id ==> multiset(r)[x] == multiset(expandedState)[x]
  {
    if value then RemoveAll(expandedState, id) else expandedState + [id]
  }

  /** The other entries keep their order: filtering distributes over concatenation. */
  lemma {:induction false} RemoveAllConcat(a: seq<Key>, b: seq<Key>, id: Key)
    ensures RemoveAll(a + b, id) == RemoveAll(a, id) + RemoveAll(b, id)
    decreases |b|
  {
    if b != [] {
      var b' := b[..|b| - 1];
      assert (a + b)[..|a + b| - 1] == a + b';
      assert (a + b)[|a + b| - 1] == b[|b| - 1];
      RemoveAllConcat(a, b', id);
      Assoc(RemoveAll(a, id), RemoveAll(b', id), if b[|b| - 1] == id then [] else [b[|b| - 1]]);
    } else {
      assert a + b == a;
    }
  }

  /** A list without the id is left as it is. */
  lemma {:induction false} RemoveAllAbsent(s: seq<Key>, id: Key)
    requires id !in s
    ensures RemoveAll(s, id) == s
    decreases |s|
  {
    if s != [] {
      assert s == s[..|s| - 1] + [s[|s| - 1]];
      RemoveAllAbsent(s[..|s| - 1], id);
    }
  }

  /** Appending the id and then removing it leaves the list as removing alone would. */
  lemma ToggleBack(expandedState: seq<Key>, id: Key)
    ensures NewExpandedState(NewExpandedState(expandedState, id, false), id, true) ==
            NewExpandedState(expandedState, id, true)
  {
    RemoveAllConcat(expandedState, [id], id);
    assert RemoveAll([id], id) == [];
  }
}
