# Staff planner: a verified model of the scheduling core

The staff planner is a Next.js front end. It shows one set of plan records in four chart widgets:
- a Syncfusion Gantt chart;
- a Bryntum scheduler;
- a KendoReact Gantt proof of concept;
- a KendoReact scheduler.

Each page turns the flat list of plan records into the shape its widget wants. This project
models those transformations in Dafny and proves what they promise.

- **Gantt page** (`src/app/syncfusion/page.tsx`). This is the main core: a per-employee interval
  algebra.
  - Assignment records are grouped per employee (modules `Groups`, `Rows`).
  - Each assignment's window is clamped to the visible range.
  - Overlaps are found by a sweep over start and end points (`Conflicts`).
  - Intervals are merged and subtracted (`Intervals`).
  - A demonstration leave is chosen (`Leaves`).
  - The range is then split, point by point, into leave, conflict, assigned and available time.
  - That time becomes day-granular bar segments. The segments are sorted by start, and
    neighbours of one kind that meet end to start are joined (`Rows`).
  - Day helpers live in `Days`.
- **Bryntum page** (`Bryntum`): records become one event each, under one resource per project
  group. Each resource has a sanitised id. The event renderer colours two designations red.
- **Proof-of-concept page** (`Poc`): records are grouped into one expandable tree node per project
  group. An expand toggle edits the list of expanded ids.
- **Scheduler page** (`Scheduler`): one event per record, plus the list of distinct project groups.

Shared pieces:
- `Plans`: the record, the employee key `EmployeeId ?? Id`, and the project-group key.
- `MSDate`: the `/Date(<ms>)/` parser, which all four pages define identically (for example
  `src/app/poc/page.tsx:26-30` and `src/app/scheduler/page.tsx:7-11`).
- `Dedup`: first-seen de-duplication, the order in which a `Map` or `Set` yields its keys.
- `Sorting`: the stable sort of `Array.prototype.sort`.
- `Text`: decimal spelling, `trim`, `toLowerCase` and white space.

Modelling conventions:
- Instants are integer milliseconds.
- A calendar day is the instant divided by the length of a day.
- A `Date` that may be invalid is `Option<nat>`.
- `ProjectCode`, `ProjectName` and `Department` are printed into template literals, where a
  missing field gives "undefined" and a `null` one gives "null". They are `Plans.Nullable`, which keeps
  the two apart. The other optional fields are `Option`s, since the pages only test them with `??`,
  `===` or truthiness, where `null` and a missing field behave alike.

Loops of the source are `method`s with loop invariants. Each is proved against a recursive
specification function, and the properties are proved as lemmas about that function. State the
source mutates in place is modelled as follows:
- the `groups` maps, `resourceMap`, `children.push` and `last.s.Duration +=` are values that the
  loop reassigns;
- `renderData.style` is a field of a class.

## Model

| member | source | states |
|---|---|---|
| Text.IntDecimal | src/app/syncfusion/page.tsx:366 | `String(n)` of an integer is non-empty; it is the digits of n for n ≥ 0 and a minus sign followed by the digits of -n otherwise |
| Text.Decimal | src/app/syncfusion/page.tsx:366 | the decimal spelling of a natural number is all digits, reads back as the number, and has no leading zero |
| Text.Lower | src/app/bryntum/page.tsx:75 | lower-casing keeps the length and folds each character on its own |
| Text.TrimStart | src/app/bryntum/page.tsx:75 | the result is a suffix of the input, only white space was removed, and it does not start with white space |
| Text.TrimEnd | src/app/bryntum/page.tsx:75 | the result is a prefix of the input, only white space was removed, and it does not end with white space |
| Text.TrimIgnoresPadding | src/app/bryntum/page.tsx:75 | white space added on either side does not change what `trim` returns |
| Plans.NullAndMissingCodesDiffer | src/app/bryntum/page.tsx:41 | a `null` project code prints as "null" and a missing one as "undefined", so the two records fall into different project groups |
| Plans.GroupKeysAt | src/app/bryntum/page.tsx:41 | the i-th group key is `<ProjectCode> \| <ProjectName> \| <Department>` of record i |
| Plans.NewKey | src/app/bryntum/page.tsx:44-46 | the first record of a new group appends that group to the first-seen key order |
| Plans.KnownKey | src/app/bryntum/page.tsx:44 | a record of a group already met leaves the first-seen key order unchanged |
| Dedup.Distinct | src/app/scheduler/page.tsx:35 | a `Set` built from a sequence has no duplicates and holds exactly the sequence's members |
| Dedup.DistinctFirstSeenOrder | src/app/scheduler/page.tsx:35 | the members of the `Set` come out in the order of their first occurrence |
| Dedup.OccursOnce | src/app/scheduler/page.tsx:34-36 | every member of a sequence without duplicates occurs in it exactly once |
| Dedup.DistinctSnoc | src/app/bryntum/page.tsx:44-46 | adding one element to the input appends it to the de-duplicated list iff it is new |
| MSDate.FindFromSpec | src/app/syncfusion/page.tsx:8 | the search from position i finds the leftmost `/Date(<digits>)/` at or after i and returns its digits' value, or nothing when no match starts there or later |
| MSDate.ParseMSDateSpec | src/app/syncfusion/page.tsx:6-10 | null exactly when the string has no `/Date(<digits>)/` substring (the empty string included); otherwise the value of the digits of the first match |
| MSDate.WireRoundTrip | src/app/syncfusion/page.tsx:6-10 | `/Date(n)/` followed by anything parses back as n |
| MSDate.StopsAtNonDigit | src/app/syncfusion/page.tsx:8 | a digit run after `/Date(` that is cut off by a character other than a digit, `(` or `)`, with no `(` anywhere after it, gives null |
| MSDate.NegativeDoesNotParse | src/app/syncfusion/page.tsx:8 | a minus sign inside the parentheses gives null |
| MSDate.OffsetDoesNotParse | src/app/syncfusion/page.tsx:8 | a `+offset` after the digits gives null |
| MSDate.ParseInstant | src/app/syncfusion/page.tsx:153-155 | a date passes `!d \|\| isNaN(d.getTime())` exactly when it parses and is at most the largest valid time value, and then it is the parsed value |
| Days.StartOfDay | src/app/syncfusion/page.tsx:59 | the result is the midnight at or before the instant, less than a day before it, on the same day |
| Days.AddDays | src/app/syncfusion/page.tsx:60 | the result lies n days after the instant's day, and it is a midnight |
| Days.DaysInclusive | src/app/syncfusion/page.tsx:61-66 | at least 1; the number of days from the first instant's day to the second's, both counted, when they are in order; 1 otherwise |
| Days.DurationForGantt | src/app/syncfusion/page.tsx:68-71 | at least 1; exactly 1 when the end is on the start's day or earlier; otherwise one less than `daysInclusive`, so that adding it to the start gives the midnight of the end's day |
| Sorting.InsertBy | src/app/syncfusion/page.tsx:79 | inserting into a sorted list keeps it sorted and adds exactly the new element |
| Sorting.SortBy | src/app/syncfusion/page.tsx:79 | sorting by a key gives a permutation of the input in ascending key order |
| Sorting.SortedMembers | src/app/syncfusion/page.tsx:79 | the sorted list has exactly the members of the input |
| Sorting.SumByPermutation | src/app/syncfusion/page.tsx:462 | a sum does not depend on the order of its terms |
| Sorting.SortBySum | src/app/syncfusion/page.tsx:443 | sorting keeps every sum over the list |
| Sorting.SumByConcat | src/app/syncfusion/page.tsx:462 | the sum over a concatenation is the sum of the two sums |
| Intervals.Clamp | src/app/syncfusion/page.tsx:85-86 | the clamped interval lies in the window and contains exactly the points of both |
| Intervals.Overlapping | src/app/syncfusion/page.tsx:78 | the filter keeps exactly the segments that reach into `[es, ee)` |
| Intervals.OverlappingCovers | src/app/syncfusion/page.tsx:78 | within the base, the filtered segments cover exactly what all segments cover |
| Intervals.SubtractSchedule | src/app/syncfusion/page.tsx:77-79 | the filtered segments come sorted by start and cover the same points of the base as the input |
| Intervals.SubtractTurn | src/app/syncfusion/page.tsx:84-91 | one turn of the cursor loop keeps the pieces ascending and disjoint, behind the cursor, and exactly the uncovered part of the base before the cursor |
| Intervals.SubtractFinish | src/app/syncfusion/page.tsx:92-95 | the final push completes the pieces: canonical, inside the base, and covering exactly the uncovered points of the base |
| Intervals.Subtract | src/app/syncfusion/page.tsx:74-98 | the pieces are non-empty, ascending, pairwise disjoint and not touching, and inside the base; a point of the base is in a piece iff no segment covers it. With no segments the result is `[base]`, or `[]` for an empty base |
| Intervals.ClampAll | src/app/syncfusion/page.tsx:105 | every interval is clamped to the window, in order |
| Intervals.NonEmptyOnly | src/app/syncfusion/page.tsx:106 | the filter keeps exactly the non-empty intervals |
| Intervals.MergeSchedule | src/app/syncfusion/page.tsx:104-107 | the clamped, filtered and sorted list is non-empty, inside the window, ascending, and covers exactly the window's points covered by the input |
| Intervals.MergeStep | src/app/syncfusion/page.tsx:109-116 | one turn of the merge loop keeps the output canonical and inside the window, and covering what the processed inputs cover |
| Intervals.Merge | src/app/syncfusion/page.tsx:101-119 | the output is canonical (non-empty, each start after the previous end, so touching inputs are joined), inside the window, and covers exactly the window's points covered by the input; a canonical input inside the window comes back unchanged, so merging twice equals merging once |
| Intervals.CanonicalUnique | src/app/syncfusion/page.tsx:101-119 | two canonical lists that cover the same points are equal |
| Intervals.CanonicalHead | src/app/syncfusion/page.tsx:109-116 | a canonical list's first interval starts at its least point, and the rest covers exactly the points from the first interval's end on |
| Conflicts.PointsBalance | src/app/syncfusion/page.tsx:168-172 | the start and end events of the intervals sum to zero |
| Conflicts.PointsCount | src/app/syncfusion/page.tsx:168-172 | the events at or before p add up to the number of intervals that contain p |
| Conflicts.SortedPoints | src/app/syncfusion/page.tsx:173 | the sorted events are ordered by instant with starts before ends, and keep their total and their count at every instant |
| Conflicts.CollectPoints | src/app/syncfusion/page.tsx:168-173 | the point loop and sort give events ordered by instant with starts first, whose prefix sums count the open intervals |
| Conflicts.SweepFrameTurn | src/app/syncfusion/page.tsx:177-186 | one sweep turn keeps the emitted segments canonical and the count equal to the sum of the processed events |
| Conflicts.SweepAtTurn | src/app/syncfusion/page.tsx:177-186 | one sweep turn keeps, for every point already passed, that it is in a segment iff two or more intervals contain it |
| Conflicts.SweepEvents | src/app/syncfusion/page.tsx:174-186 | over sorted events the loop emits canonical segments covering exactly the points with a count of two or more |
| Conflicts.Sweep | src/app/syncfusion/page.tsx:168-187 | the segments of one employee are canonical and cover a point iff at least two of the employee's intervals contain it |
| Conflicts.AssignmentWindow | src/app/syncfusion/page.tsx:152-158 | a record has a window iff it is an assignment whose dates both parse as valid and whose clamp to the range is non-empty; the window then lies in the range |
| Conflicts.EmployeeIntervals | src/app/syncfusion/page.tsx:150-164 | the intervals collected for a key are non-empty and lie in the range |
| Conflicts.EmployeeIntervalsStep | src/app/syncfusion/page.tsx:159-162 | one more record adds its window to its own key's list only |
| Conflicts.EmployeeIntervalsNonEmpty | src/app/syncfusion/page.tsx:150-164 | a key has intervals iff one of its records has a window |
| Conflicts.ComputeConflictSegmentsByEmployee | src/app/syncfusion/page.tsx:149-190 | the map has an entry exactly for each employee key with a window; each entry is canonical, inside the range, and covers a point iff two or more of that employee's windows contain it |
| Conflicts.SweepInside | src/app/syncfusion/page.tsx:180-185 | conflict segments lie inside the range of the windows they come from |
| Conflicts.BackToBackNoConflict | src/app/syncfusion/page.tsx:173-186 | back-to-back intervals `[a,b)` and `[b,c)` produce no conflict segment |
| Leaves.HasPreferred | src/app/syncfusion/page.tsx:127 | true iff some assignment record has the employee id 96348 |
| Leaves.FirstAssignmentKey | src/app/syncfusion/page.tsx:128 | nothing iff there is no assignment record; otherwise `EmployeeId ?? Id` of the first assignment record |
| Leaves.LeaveTarget | src/app/syncfusion/page.tsx:124-130 | no target iff there is no assignment record; 96348 whenever an assignment record has that id |
| Leaves.ChooseTarget | src/app/syncfusion/page.tsx:124-130 | the target loop returns the leave target |
| Leaves.GeneratePOCLeaves | src/app/syncfusion/page.tsx:122-146 | empty without a target or with an empty clamped leave; otherwise exactly one entry, the target mapped to the clamped leave alone, which is canonical and inside the range |
| Leaves.FirstAssignmentWins | src/app/syncfusion/page.tsx:128 | without the preferred id, the first assignment record's key gets the leave |
| Leaves.SummariesIgnored | src/app/syncfusion/page.tsx:126 | a record that is not an assignment does not change the target |
| Groups.Members | src/app/syncfusion/page.tsx:364-381 | the members of a group are assignment records with that group's key |
| Groups.KeysMembers | src/app/syncfusion/page.tsx:363-381 | a key is in the map iff some assignment record has it |
| Groups.PreferFirstTruthy | src/app/syncfusion/page.tsx:376-378 | an identity field is the first truthy value among the group's records |
| Groups.PreferNoTruthy | src/app/syncfusion/page.tsx:367-374 | without any truthy value the field keeps the first record's value |
| Groups.GroupsStep | src/app/syncfusion/page.tsx:366-380 | one turn on an assignment record keeps the key order first-seen and every group equal to its specification |
| Groups.AbsorbItems | src/app/syncfusion/page.tsx:367-379 | the group built from some records and one more is the group built from the records alone with the new record absorbed |
| Groups.SkipStep | src/app/syncfusion/page.tsx:365 | a record that is not an assignment changes nothing |
| Groups.BuildGroups | src/app/syncfusion/page.tsx:363-381 | the keys come out in first-seen order; the map holds exactly those keys, each with its group |
| Groups.MembersComplete | src/app/syncfusion/page.tsx:379 | every assignment record is a member of its own key's group |
| Groups.GroupKeyInjective | src/app/syncfusion/page.tsx:366 | equal keys come from equal employee ids, and an id key never equals a name key |
| Groups.IntDecimalInjective | src/app/syncfusion/page.tsx:366 | different integers have different decimal spellings |
| Groups.GroupEmployeeId | src/app/syncfusion/page.tsx:366-369 | every record of a group has the group's employee id |
| Rows.RowWindow | src/app/syncfusion/page.tsx:389-394 | a row's window test agrees with the conflict sweep's on every assignment record |
| Rows.WindowsOf | src/app/syncfusion/page.tsx:387-395 | the collected windows are non-empty and lie in the range |
| Rows.CollectAssigned | src/app/syncfusion/page.tsx:387-395 | the loop collects exactly the windows of the group's records, in order |
| Rows.SameWindowsAsConflicts | src/app/syncfusion/page.tsx:387-395 | an id-keyed group reads the same windows that the conflict sweep reads for that id, provided no record without an employee id has that id as its `Id` |
| Rows.IdKey | src/app/syncfusion/page.tsx:366 | a record is keyed `id:n` iff its employee id is n |
| Rows.CutStep | src/app/syncfusion/page.tsx:406-409 | pushing one interval's parts keeps "covered by the processed intervals and not by the segments" |
| Rows.SubtractEach | src/app/syncfusion/page.tsx:405-416 | the pushed parts lie in the range and cover exactly what the intervals cover and the segments do not |
| Rows.ClassifyTime | src/app/syncfusion/page.tsx:387-420 | leave time is where a leave covers a point; conflict time is where a conflict does and no leave; assigned time is where an assignment does and neither; available time is where neither an assignment nor a leave does; all of it lies in the range; with no assignment and no leave the available time is the range itself |
| Rows.Partition | src/app/syncfusion/page.tsx:387-420 | when conflicts lie within assignments, each point of the range lies in exactly one of the four lists, chosen by the precedence leave, conflict, assigned, available; no point outside the range lies in any |
| Rows.CountedIsCovered | src/app/syncfusion/page.tsx:179-180 | a point where a conflict is counted lies in an assignment, so the sweep's conflicts meet the condition of `Partition` |
| Rows.ConflictsWithinWindows | src/app/syncfusion/page.tsx:387-400 | for a group keyed by employee id n, every point the sweep reports as a conflict for n lies in one of the group's own assignment windows, so `Partition`'s condition holds there |
| Rows.PushSegments | src/app/syncfusion/page.tsx:427-434 | `pushSegments` appends one segment of the given kind per interval, in list order |
| Rows.TagAllDays | src/app/syncfusion/page.tsx:429-430 | every pushed segment is at least one day long, so `dur <= 0` never skips one; the total is the sum of the Gantt durations |
| Rows.SortByStart | src/app/syncfusion/page.tsx:442-443 | the sort gives a permutation sorted by start date that keeps the total duration |
| Rows.MergeStep | src/app/syncfusion/page.tsx:446-456 | one turn of the merge loop keeps the merged list free of joinable neighbours, sorted, and with the duration of the processed input |
| Rows.ExtendStep | src/app/syncfusion/page.tsx:450-452 | extending the last segment keeps its start and kind, and adds the absorbed duration |
| Rows.AppendStep | src/app/syncfusion/page.tsx:453-455 | appending a segment the last one cannot absorb keeps the list free of joinable neighbours and sorted |
| Rows.MergeAdjacent | src/app/syncfusion/page.tsx:445-456 | no two neighbours are of the same kind with the second starting at `addDays(last.start, last.Duration)`; the total duration is kept, and so are the days of each kind; every merged segment starts where an input segment of the same kind starts; nothing is added; the first start is kept; sortedness is kept; an input without joinable neighbours comes back unchanged |
| Rows.MergeSpecInv | src/app/syncfusion/page.tsx:446-456 | after every prefix of the input, the merged list is free of joinable neighbours, no longer than the prefix, sorted when the input is, and has the prefix's total duration |
| Rows.MergeSpecKinds | src/app/syncfusion/page.tsx:446-456 | after every prefix of the input, the merged list has the prefix's days of each kind, and each merged segment starts where an input segment of its kind starts |
| Rows.MergeKindStep | src/app/syncfusion/page.tsx:449-455 | extending the last segment adds the absorbed days to its own kind, and appending brings an input segment's own kind and start |
| Rows.MergeFacts | src/app/syncfusion/page.tsx:445-456 | the merge fold over the whole input has every property that `MergeAdjacent` promises |
| Rows.SegmentsSum | src/app/syncfusion/page.tsx:458-462 | splitting the merged list into segments and kinds keeps the total duration |
| Rows.ShapeOf | src/app/syncfusion/page.tsx:458-459 | the final segments and kinds have equal length, ascending starts, no joinable neighbours, and durations of at least one day |
| Rows.PushesFacts | src/app/syncfusion/page.tsx:436-439 | the four pushes give positive durations totalling the four lists' Gantt durations, and nothing iff all four lists are empty |
| Rows.SortAndMerge | src/app/syncfusion/page.tsx:442-459 | sorting and merging give a well-shaped segment list with the same total duration and the same days of each kind, empty iff the input is; each final segment starts where an input segment of its kind starts |
| Rows.KindTotalOf | src/app/syncfusion/page.tsx:458-459 | splitting the merged list into segments and kinds keeps the days of each kind |
| Rows.TagAllKind | src/app/syncfusion/page.tsx:427-434 | the segments pushed for one list carry that list's Gantt days under its own kind and none under any other |
| Rows.PushesKinds | src/app/syncfusion/page.tsx:436-439 | after the four pushes, the days of each kind are the Gantt days of that kind's list |
| Rows.PushesStarts | src/app/syncfusion/page.tsx:427-439 | every pushed segment starts where an interval of its own kind's list starts |
| Rows.RowKindDays | src/app/syncfusion/page.tsx:436-459 | the days of each kind in the final segments are the Gantt days of that kind's list |
| Rows.RowKindStarts | src/app/syncfusion/page.tsx:436-459 | every final segment starts where an interval of its own kind's list starts |
| Rows.RowSegments | src/app/syncfusion/page.tsx:424-462 | the row's segments are well shaped and empty iff the four lists are; available, assigned, leave and conflict segments last as many days as the available, assigned-only, leave and conflict-only lists do, each on its own; every segment starts where an interval of its own kind starts |
| Rows.LookupKey | src/app/syncfusion/page.tsx:399-400 | the lookup key is numeric iff the group has an employee id |
| Rows.LookupKeyMatchesMembers | src/app/syncfusion/page.tsx:399-400 | a group's lookup key equals its records' leave and conflict key iff the group has an employee id or the record's `Id` is the group key itself, so groups keyed by name never receive leave or conflicts |
| Rows.BuildRow | src/app/syncfusion/page.tsx:385-478 | the row carries the group's identity fields and display name; its segments are well shaped and their durations add up to the row duration; it has segments iff the range is non-empty; without segments its dates fall back to the range bounds, with segments they run from the first start to the end of the last segment |
| Rows.MapPerEmployeeRows | src/app/syncfusion/page.tsx:346-482 | one row per group, in the order the groups were first met, each built from its group |
| Bryntum.CollapseNoWhitespace | src/app/bryntum/page.tsx:42 | after `replace(/\s+/g, '_')` no white space is left, and a string without white space is unchanged |
| Bryntum.RunBecomesOneUnderscore | src/app/bryntum/page.tsx:42 | a maximal run of white space between two other characters becomes exactly one underscore, and the two sides are rewritten on their own |
| Bryntum.CollapseSnoc | src/app/bryntum/page.tsx:42 | a trailing character that is not white space passes through the replacement |
| Bryntum.KeepWordCharsFacts | src/app/bryntum/page.tsx:42 | `replace(/[^a-zA-Z0-9_]/g, '')` keeps only word characters, never lengthens, and leaves a string of word characters alone |
| Bryntum.KeepWordCharsConcat | src/app/bryntum/page.tsx:42 | the deletion works piece by piece over a concatenation |
| Bryntum.SafeGroupIdShape | src/app/bryntum/page.tsx:42 | a safe id is `group_` followed by word characters only |
| Bryntum.PunctuationCollides | src/app/bryntum/page.tsx:42-45 | two different keys can share one safe id, since a trailing punctuation character is deleted |
| Bryntum.EventsOfAt | src/app/bryntum/page.tsx:51-60 | event i is the event of record i, and there are as many events as records |
| Bryntum.FilledNew | src/app/bryntum/page.tsx:44-46 | the first record of a new group adds that group's resource, at the end of the key order, and its event |
| Bryntum.FilledKnown | src/app/bryntum/page.tsx:44 | a record of a known group adds only its event |
| Bryntum.ToSchedulerData | src/app/bryntum/page.tsx:36-64 | one event per record, in record order; one resource per distinct group key, in first-seen order, named by the key and carrying its safe id |
| Bryntum.EventHasResource | src/app/bryntum/page.tsx:42-53 | every event's `resourceId` is the id of the resource of its record's group |
| Bryntum.ResourcesDistinct | src/app/bryntum/page.tsx:44-46 | resources have pairwise different names, each the key of some record |
| Bryntum.ResourcesFirstSeen | src/app/bryntum/page.tsx:63 | resources come in the order their groups were first met |
| Bryntum.RenderData.EventRenderer | src/app/bryntum/page.tsx:74-82 | a trimmed, lower-cased designation of `stores clerk` or `quantity surveyor` sets the red style and gives `Assigned`; any other designation leaves the style alone and gives the event's name |
| Bryntum.RedIgnoresPadding | src/app/bryntum/page.tsx:75 | white space around the designation does not change the decision |
| Bryntum.MissingIsNotRed | src/app/bryntum/page.tsx:75 | a missing designation is not red |
| Poc.OpenNew | src/app/poc/page.tsx:37-44 | a record of a new group creates an expanded node with an empty child list, at the end of the key order |
| Poc.OpenKnown | src/app/poc/page.tsx:37 | a record of a known group finds its node and leaves the key order unchanged |
| Poc.PushChild | src/app/poc/page.tsx:45-53 | pushing the record's child onto its node accounts for the record in that node only |
| Poc.PushGroups | src/app/poc/page.tsx:45 | appending a child to one node of the dictionary leaves every other node as it was |
| Poc.FillGrouped | src/app/poc/page.tsx:35-54 | after every prefix of the records, the dictionary holds one node per group met so far, in first-seen key order, each with the children of that group's records |
| Poc.ValuesInOrder | src/app/poc/page.tsx:55 | `Object.values` lists one node per inserted key, the node of the i-th key in position i |
| Poc.FillListed | src/app/poc/page.tsx:33-56 | the dictionary after all the records, listed in key-insertion order, is one node per distinct group in first-seen order |
| Poc.GroupPlansData | src/app/poc/page.tsx:33-56 | the loop and `Object.values` give one node per distinct group in first-seen order, each holding its records' children in order |
| Poc.KeyNotArrayIndex | src/app/poc/page.tsx:36 | a group key contains ` \| ` and is never all digits, so `Object.values` keeps insertion order |
| Poc.GroupShape | src/app/poc/page.tsx:38-41 | each node's id and title are its key and it starts expanded; nodes are pairwise different groups, each the key of some record |
| Poc.GroupsFirstSeen | src/app/poc/page.tsx:55 | nodes come in the order their groups were first met |
| Poc.ItemPlaced | src/app/poc/page.tsx:45-53 | every record's child sits in the node of its own group, with the record's id and title and the dates parsed from `StartDate` and `EndDate` |
| Poc.ChildInOwnGroup | src/app/poc/page.tsx:45 | a record's child is among the children collected for its own key |
| Poc.ChildrenFromGroup | src/app/poc/page.tsx:45 | a node holds only children of records of its own group |
| Poc.ChildrenConcat | src/app/poc/page.tsx:35-53 | children keep record order: the children of a concatenation are those of each part in turn |
| Poc.TotalChildren | src/app/poc/page.tsx:35-53 | the nodes hold exactly as many children as there are records, so with `ItemPlaced` each record is one child |
| Poc.RemoveAll | src/app/poc/page.tsx:124 | the filter removes every occurrence of the id and no other entry |
| Poc.NewExpandedState | src/app/poc/page.tsx:123-125 | with `value` true the id no longer occurs; otherwise the id is appended after the unchanged list; other ids keep their counts |
| Poc.RemoveAllConcat | src/app/poc/page.tsx:124 | the other entries keep their order, since the filter distributes over concatenation |
| Poc.RemoveAllAbsent | src/app/poc/page.tsx:124 | a list without the id is left as it is |
| Poc.ToggleBack | src/app/poc/page.tsx:123-125 | appending the id and then removing it gives the same list as removing alone |
| Scheduler.MapPlansToEvents | src/app/scheduler/page.tsx:14-25 | one event per record |
| Scheduler.EventOfRecord | src/app/scheduler/page.tsx:15-23 | event i has record i's id and title; its dates are the parsed `RenderStartDate` and `RenderEndDate`; its group is `<ProjectCode> \| <ProjectName> \| <Department>`; its description, designation and grade are the record's `Comments`, `Designation` and `Grade` |
| Scheduler.EventsConcat | src/app/scheduler/page.tsx:15 | events keep record order, since mapping distributes over concatenation |
| Scheduler.EventGroupsAreKeys | src/app/scheduler/page.tsx:21-35 | the events' groups are the records' project-group keys |
| Scheduler.ResourceValues | src/app/scheduler/page.tsx:34-36 | the resource values are the distinct groups, and each entry's text is its value |
| Scheduler.EveryGroupOnce | src/app/scheduler/page.tsx:34-36 | every event's group occurs exactly once among the resource values |
| Scheduler.GroupsFromEvents | src/app/scheduler/page.tsx:34-36 | every resource value is the group of some event |
| Scheduler.ResourcesFirstSeen | src/app/scheduler/page.tsx:35 | resource values come in the order their groups were first met among the events |

## Left out

- Widget rendering, props, column templates and callbacks are UI code over libraries that cannot be seen: the JSX of all four pages and `onQueryTaskbarInfo`/`setTaskbarLabel` on the Gantt page.
- The `filterBy`/`orderBy`/`mapTree`/`extendDataItem` pipeline of the proof-of-concept page is left out, because it calls into a library that cannot be seen. The expanded-id list is modelled, but not how the widget reads it.
- `getDummyPhotoUrl` is string formatting over `encodeURIComponent` for an external URL, and is left out.
- `mapFlatAssignments` is never called (the page renders `mapPerEmployeeRows`), so it is left out.
- Local calendar and time zone are not modelled. `startOfDay`, `addDays` and `daysInclusive` are modelled on UTC day numbers (`t / DAY_MS`), without daylight-saving changes.
- `generatePOCLeaves` takes its leave bounds as inputs. The month arithmetic (`new Date(y, m + 4, 1)`, `setHours`) is not modelled.
- `parseMSDate`: `Number()` of a digit string is modelled as its exact value. Rounding of very long digit strings to a double is not modelled.
- On the Bryntum, proof-of-concept and scheduler pages a parsed date is kept as its number. An invalid `Date` (a value past the largest time value) is not distinguished there. The Gantt page's validity test is modelled (`MSDate.ParseInstant`).
- The JavaScript `\s` class is modelled as a fixed set of white-space characters.
- `toLowerCase` folds only the ASCII letters.
- The parallel arrays `segments` and `kinds` of `mapPerEmployeeRows` are one sequence of pairs until the final split.
- `last.s.Duration += cur.s.Duration` updates an object that `withKinds` and `merged` share. It is modelled as replacing the last merged entry, so the aliasing is not modelled.
- Sorting.SortBy: stability is implemented (insertion after equal keys) but not stated as a contract. Only sortedness and permutation are proved.
- Rows.BuildRow: the contract states the row's shape, identity fields and dates, not which instants each segment covers. The time classification is stated on `Rows.ClassifyTime`, and its link through the day rounding of `durationForGantt` to the segments is not stated.
- Rows.Partition: takes the condition "conflicts lie within the assignments" as a precondition, as the design assumes. `Rows.ConflictsWithinWindows` shows the sweep's conflicts meet it for an id-keyed group whose id no record without an employee id uses as its `Id`; the `g.employeeId ?? g.key` lookup keeps its mismatch (`Rows.LookupKeyMatchesMembers`).
- Bryntum safe ids are not assumed unique (`Bryntum.PunctuationCollides`).
- `Comments`, `Designation` and `Grade`, when passed through to an event or a child unchanged, do not distinguish `null` from a missing field.
