# Outline to-do engine, modelled in Dafny

`main.js` is a browser to-do list. Tasks nest to any depth. Each task has an id, an
optional ISO date (`YYYY-MM-DD`), a text, its subtasks and a `collapsed` flag. This
project models the engine inside that file, without the DOM around it:

- calendar-date validation through a `Date.UTC` round trip, and the sort and group keys;
- the numbering labels: Arabic, letters and Roman numerals, chosen by depth;
- addressing a sibling array by a path of indices, and the depth-first `findTaskInfoById`;
- `enforceGroupOrderingInArray`, which groups siblings by exact date string;
- `sortAllArraysRecursively`, which stably sorts every array by date;
- the structural edits: delete, indent, outdent, add sibling, add subtask, add root,
  expand/collapse (all, the selection, and a row's caret), date changes, the inline
  text commit and drag-and-drop;
- import validation (`validateTask`, `validateImportedState`) and merge/replace import;
- the page state (`state.tasks`, `activeTaskId`, `dragCtx`) and the handlers that change it.

Data model. A task is a datatype `Tasks.Task`, and a sibling array is a `seq<Task>`.
Each in-place edit of a nested array (`splice`, `push`) is a function that returns the
outline with that array replaced (`Tasks.SetArrayAt`). The class `App.Outline` holds
the mutable page state, and its methods are the event handlers.

Identity. The keyboard handlers and delete find a task by its id, taking the first
one in depth-first pre-order, as `findTaskInfoById` and `removeTaskRecursive` do. The
row buttons, the caret and the inline editors act on the task object the row was
rendered for; the model addresses that task by its rendered position, entry `index`
of the array at `parentPath` (`Tasks.IsRow`).

Two views state what an edit keeps. `Tasks.Ids` is the pre-order sequence of ids: it
shows that nothing is lost, duplicated or reordered by accident. `Records.Bag` is the
multiset of records, one per task at any depth, each holding the task's id, date,
text, flag and the id of its parent. Sorting and grouping keep the bag. Each edit
trades exactly the records it touches (`Records.Traded`).

`uid()` is modelled as a fixed oracle `mint: nat -> string` read at a counter. Each id
minted advances the counter. `JSON.parse` output is the datatype `JsonValues.Json`.

Modules, leaves first:

| module | what it holds |
|---|---|
| `Wrappers` | `Option`, `Result` |
| `Seqs` | generic sequence facts |
| `Text` | string order, digit strings, `toLowerCase`, `trim` |
| `JsonValues` | parsed values, property lookup |
| `Dates` | the date helpers |
| `Labels` | the label helpers |
| `StableSort` | stable sort and filtering by key |
| `Grouping` | grouping helpers |
| `Tasks` | tasks, paths, lookup |
| `Ordering` | the two orderings |
| `Records` | the outline as a bag of per-task records |
| `Collapse` | expand/collapse and the caret |
| `Mutations` | the structural edits, date changes and text commits |
| `DragDrop` | drag-and-drop |
| `Import` | validation and round trips |
| `DateInvariant` | "every stored date is `null` or valid", kept by every edit |
| `App` | the page state class |

## Model

| member | source | states |
|---|---|---|
| Dates.ValidDateCharacterization | main.js:43-54 | A string passes `isValidISODateString` exactly when it has the `\d{4}-\d{2}-\d{2}` shape, the year is at least 100, the month is 1-12, and the day is 1 to the Gregorian days-in-month. |
| Dates.NormalizeDay | main.js:52-53 | `Date.UTC`'s day overflow always lands on a real calendar date, and leaves an in-range day where it is. |
| Dates.DaysInMonth | main.js:52-53 | The month lengths are 28-31, and 29 occurs exactly for February of a Gregorian leap year. |
| Dates.LeapDayAccepted | main.js:43-54 | `2024-02-29` is accepted. |
| Dates.NonexistentDayRejected | main.js:43-54 | `2024-02-30` is rejected. |
| Dates.TwoDigitYearRejected | main.js:52-53 | `0099-01-01` is rejected, because `Date.UTC` reads years 0-99 as 1900-1999. |
| Dates.NormalizeDateInput | main.js:56-59 | The result is the input exactly when it is non-empty and valid; otherwise it is "no date". |
| Dates.DateOrderIsChronological | main.js:65-71 | On ISO-shaped strings, `<` is chronological order of year, month and day. |
| Dates.NoDateSortsLast | main.js:61-63 | The no-date key `9999-12-31` sorts after every valid date, and strictly after all of them except `9999-12-31` itself. |
| Dates.GroupKeyAgreesWithSortKey | main.js:166-168 | Reading `__none__` as `9999-12-31` makes the group key agree with `dateSortKey` on every date except the literal string `__none__`. |
| Text.LexLeTotalPreorder | main.js:68-69 | String `<=` is total and transitive, and antisymmetric. |
| Text.DigitsLexOrder | main.js:46-49 | For digit strings of equal length, string order is numeric order. |
| Text.NatToString | main.js:112 | `${n}` is a digit string with value `n` and no leading zero. |
| Text.Trim | main.js:615 | `trim()` keeps the infix that starts at the first non-space. Everything outside it is space, and a non-empty result starts and ends with a non-space. |
| Labels.AlphaDigitsRoundTrip | main.js:120-129 | Reading back the letters written for `n` gives `n`. |
| Labels.AlphaValueRoundTrip | main.js:120-129 | Every non-empty string over A-Z is the label of exactly its bijective base-26 value. |
| Labels.AlphaDigitsInjective | main.js:120-129 | Distinct positions get distinct letter labels. |
| Labels.AlphaDigitsExamples | main.js:121 | 1, 26, 27, 52, 53 and 702 give A, Z, AA, AZ, BA and ZZ. |
| Labels.ToAlpha | main.js:120-129 | The `while` loop computes the bijective base-26 numeral, lower-cased when `upper` is false. |
| Labels.ToRoman | main.js:131-142 | The greedy loops over the 13-row table compute `Roman(n)`. |
| Labels.GreedyIsStandard | main.js:132-140 | The greedy table writes the standard subtractive numeral: thousands as M, then each decimal digit. |
| Labels.RomanSpec | main.js:131-142 | Positive input gives the standard subtractive numeral; input `<= 0` gives "I". |
| Labels.RomanSmallExamples | main.js:131-142 | 4, 9 and 14 give IV, IX and XIV, and 0 gives I. |
| Labels.MarkerFor | main.js:109-118 | By `depth % 4` the label is: Arabic `n`, upper letters denoting `n`, the lower-case standard Roman numeral, or lower letters. It always ends with `.`. |
| Labels.MarkerPeriodic | main.js:111 | The style repeats every four levels. |
| Tasks.SetArrayAt | main.js:148-154 | After writing an array back at a path, the path resolves to exactly that array. |
| Tasks.ArrayIdsSlice | main.js:148-154 | The ids under the array at a path form one contiguous run of the outline's pre-order, starting at `StartOf`. |
| Tasks.SetArrayAtIds | main.js:148-154 | Writing an array back at a path replaces exactly that run of the pre-order with the new array's ids. |
| Tasks.SetArrayAtFrame | main.js:148-154 | Writing an array back at a path leaves every array on a path that parts from it as it was. |
| Tasks.SetArrayAtAncestors | main.js:148-154 | Each array above the path changes in one entry only, the one on the path: its subtasks become the array one level down, and its own fields stay. |
| Tasks.SetArrayAtSame | main.js:148-154 | Writing back the array a path already holds changes nothing. |
| Tasks.SetArrayAtTwice | main.js:148-154 | Of two writes at the same path, the second overrides the first. |
| Tasks.SetArrayAtPermutes | main.js:148-154 | Writing back a rearrangement of an array keeps every id of the outline, with its multiplicity. |
| Tasks.RowOfPath | main.js:148-154 | When a non-empty path resolves, its last index names a row of the array at the path without it. |
| Tasks.GetArrayParent | main.js:756-759 | The array at a non-empty path is the subtasks of entry `last` of the array at the path without its last index. |
| Tasks.FindTaskInfoByIdSpec | main.js:250-260 | The result is null exactly when no task has the id. Otherwise `arr` is the array at `parentPath`, `arr[index]` is the task with the id, and no earlier task in pre-order has it. |
| Tasks.FindTaskInfo | main.js:250-260 | The loop with recursion computes `FindTaskInfoById`, with the caller's `parentPath` prefixed. |
| StableSort.InsertionSort | main.js:178 | The sort is a permutation of its input. |
| StableSort.SortSorted | main.js:178 | The result is non-decreasing by key. |
| StableSort.SortStable | main.js:178 | Elements with equal keys keep their relative order. |
| StableSort.SortIdentity | main.js:178 | An already sorted array is left unchanged. |
| Ordering.CompareTasksByDateIsComparator | main.js:65-71 | `compareTasksByDate` is antisymmetric and transitive; it is 0 exactly on equal keys, and `<= 0` exactly when the keys are in `<=` order. |
| Ordering.CompareTasksByDateChronological | main.js:65-71 | On valid dates the comparator is chronological, and a dated task never comes after an undated one. |
| Ordering.GroupKeysSpec | main.js:165-170 | The key list holds each group key once, sorted with `__none__` read as `9999-12-31`, and exactly the keys that occur. |
| Ordering.GroupsStep | main.js:159-163 | Each loop step pushes the task onto its group, creating the group and listing its key when it is new. |
| Ordering.CollectGroups | main.js:158-163 | The first loop builds a map and a key list that describe exactly the groups of the array, in first-appearance order. |
| Ordering.EnforceGroupOrderingInArray | main.js:156-175 | The collect, sort and rebuild loops compute `GroupOrder`. |
| Ordering.GroupOrderPermutation | main.js:156-175 | The result is a permutation of the input. |
| Ordering.GroupOrderStable | main.js:156-175 | Tasks with the same date key keep their relative order. |
| Ordering.GroupOrderGrouped | main.js:165-173 | Each group stands together, and the groups ascend by key with `__none__` read as `9999-12-31`. |
| Ordering.NoDateGroupAfterDates | main.js:166-170 | With valid dates, every undated task comes after every task dated other than `9999-12-31`. |
| Ordering.GroupOrderIdempotent | main.js:156-175 | Applying the ordering twice gives the same result as applying it once. |
| Ordering.SortAllArraysRecursively | main.js:177-180 | The sort-then-recurse loop computes `SortAll`. |
| Ordering.SortAllSorted | main.js:177-180 | Afterwards every sibling array, at every depth, is non-decreasing under `compareTasksByDate`. |
| Ordering.SortAllIds | main.js:177-180 | Sorting loses and duplicates no task at any depth. |
| Ordering.SortAllStable | main.js:178 | Top-level tasks with equal date keys keep their order. |
| Ordering.SortAllIdentity | main.js:177-180 | An outline already sorted everywhere is left unchanged. |
| Ordering.SortAllIdempotent | main.js:177-180 | Sorting twice is sorting once. |
| Records.PermutationEntries | main.js:178 | Rearranging a sibling array keeps the records of all tasks under it. |
| Records.SortAllEntries | main.js:177-180 | Sorting every array keeps every task's id, date, text, flag and parent. |
| Records.GroupOrderEntries | main.js:156-175 | Grouping keeps them too. |
| Records.SetArrayAtEntries | main.js:148-154 | Writing an array back at a path trades exactly the old array's records for the new array's; every other task keeps its fields and its parent. |
| Records.SetRowEntries | main.js:148-154 | Replacing one task of the array at a path trades that task's subtree records for the new task's. |
| Records.SetArrayAtPermutedEntries | main.js:584-594 | Writing back a rearrangement of an array keeps every record. |
| JsonValues.Prop | main.js:203-211 | A property read finds a field of that name in an object, and is `undefined` only when the object has no such field or is not an object. |
| JsonValues.LookupLast | main.js:190 | A repeated key reads as its last value, as `JSON.parse` keeps it. |
| Import.ValidateTask | main.js:200-215 | A validated task keeps a non-empty string id; otherwise it takes the oracle's id at the counter, which then advances by one. Its date is the raw date with `null`, `""` and absent read as `null`. Its text is the string text or `""`, and its flag is `!!collapsed`. Its subtasks are the `subtasks` array validated item by item with the counter carried on, or `[]` when `subtasks` is not an array. It succeeds only for objects with a valid date. |
| Import.ValidateList | main.js:211-212 | `map(validateTask)` yields one task per item, and an empty list yields `[]` and leaves the counter. |
| Import.ValidateListCons | main.js:211-212 | The first validated task is `validateTask` of the first item, and the rest is the validated rest, with the counter carried over. |
| Import.ValidateTaskOk | main.js:200-215 | `validateTask` throws exactly on a non-object, or an invalid date at any depth. |
| Import.ValidateListOk | main.js:211-212 | The map fails exactly when some item is not acceptable. |
| Import.ValidateTaskWellFormed | main.js:200-215 | With an oracle that never mints `""`, every validated task at every depth has a non-empty id and a `null` or valid date. |
| Import.ValidateListWellFormed | main.js:211-212 | The same for a validated list. |
| Import.ToJsonFields | main.js:183 | A serialised task carries each of its five fields. |
| Import.TaskRoundTrip | main.js:200-215 | Validating a serialised well-formed task gives it back and mints nothing. |
| Import.ListRoundTrip | main.js:211-212 | The same for a list of tasks. |
| Import.StateRoundTrip | main.js:182-197 | Loading what `save()` stored gives the outline back, sorted; an already sorted outline comes back unchanged. |
| Collapse.SetAllCollapsedSpec | main.js:230-235 | Afterwards every task with subtasks has the flag, and nothing but those flags changed. |
| Collapse.SetAllCollapsedUnique | main.js:230-235 | Those two properties determine the result. |
| Collapse.SetAllCollapsedLastWins | main.js:237-247 | Expand-all after collapse-all, or the reverse, equals the last one alone. |
| Collapse.SameButFlagsIds | main.js:230-235 | Flags take no part in the pre-order of ids. |
| Collapse.SetAllCollapsedLoop | main.js:230-235 | The loop with recursion computes `SetAllCollapsed`. |
| Collapse.SetActiveCollapsedSpec | main.js:773-789 | Nothing changes when the selection is not found or has no subtasks. Otherwise the outline differs only in flags and keeps its pre-order; the located array differs only at the located entry, which takes the flag; and as records exactly that task's flag is traded for the new one. |
| Collapse.ToggleCaretSpec | main.js:292-298 | The caret changes only flags and keeps the pre-order. A childless row is left alone; otherwise, as records, exactly the clicked task's flag is traded for its negation. |
| Collapse.ToggleCaretTwice | main.js:292-298 | Clicking the caret twice gives the outline back. |
| Mutations.RemoveTaskSpec | main.js:509-520 | The result is true exactly when the id occurs; false leaves the outline unchanged. On success, the first occurrence in pre-order is cut out together with its whole subtree, every other id stays in order, and as records exactly that subtree's are gone. |
| Mutations.RemoveAt | main.js:511-512 | Splicing the located task out of its array cuts its subtree's run out of the pre-order. |
| Mutations.RemoveTaskRecursive | main.js:509-520 | The loop with recursion computes `RemoveTask`. |
| Mutations.IndentIn | main.js:737-742 | The task leaves its array and becomes the last child of the previous sibling, which is expanded; the rest of the array is unchanged. |
| Mutations.IndentInIds | main.js:737-742 | Indenting does not change the pre-order of the array. |
| Mutations.IndentSpec | main.js:730-746 | Indent keeps the whole pre-order of ids. It is a no-op when the id is absent or the task is first. Otherwise the array at the path becomes `IndentIn`, and the previous sibling's subtasks gain the task at the end. |
| Mutations.OutdentIn | main.js:756-765 | The parent loses child `i`, and the child is inserted right after the parent; everything else is unchanged. |
| Mutations.OutdentInIds | main.js:756-765 | That move keeps every id of the grandparent array, with its multiplicity. |
| Mutations.OutdentInMultiset | main.js:756-765 | The grandparent array trades the parent for the reduced parent plus the task. |
| Mutations.OutdentGrand | main.js:762-767 | After grouping, the grandparent array is a grouped permutation of the edited array, and within every date group the order is the edited array's, where the task sits right after its former parent. |
| Mutations.OutdentSpec | main.js:748-771 | Outdent keeps every id with its multiplicity. It is a no-op when the id is absent or at the root; otherwise the grandparent array is replaced as `OutdentMoves` describes: the parent has lost the task, the task is a sibling, the array is grouped, and each date group keeps the order of the task placed right after its former parent. |
| Mutations.InsertIds | main.js:720 | Inserting a blank task anywhere in an array adds exactly its id. |
| Mutations.InsertedAfter | main.js:719-723 | After inserting and grouping, the new task sits right after the selected task within their date group. Other groups are unchanged, and the array is grouped. |
| Mutations.AddSiblingAfterSpec | main.js:714-728 | A no-op when the id is absent. Otherwise the outline gains exactly the new id, which is placed as `InsertedAfter` says. |
| Mutations.ChildAdded | main.js:337-338 | Appending a blank child adds exactly its id. |
| Mutations.AddSubtaskSpec | main.js:335-342 | The outline gains exactly the new id and comes out sorted at every depth. As records, the clicked task is now expanded, a blank undated child with the new id sits under it, and every other task keeps its fields and its parent. |
| Mutations.AppendGrouped | main.js:618-619 | After appending and grouping, the new task is the last of its date group, the other groups are unchanged, and the array is grouped. |
| Mutations.AddRootSpec | main.js:612-619 | Blank trimmed text changes nothing. Otherwise a task with the trimmed text and a valid or null date joins the end of its date group. |
| Mutations.SetDate | main.js:411-421 | The date picker and the inline date editor report an error exactly for a non-empty invalid value. |
| Mutations.RedateSpec | main.js:417-421 | A date change keeps every id. The root array comes out grouped, and every array below it sorted. As records, the clicked task now has the new date, and every task keeps its other fields and its parent. |
| Mutations.RetextSpec | main.js:443-447 | A text commit keeps every task in place. The row now has the new text, the rest of its array is unchanged, and as records exactly that task's text is traded. |
| Mutations.RetextLastWins | main.js:443-447 | Of two text commits on the same row, the last one wins. |
| DragDrop.IndexOfId | main.js:580-581 | `findIndex` returns the first index with the id, and -1 exactly when there is none. |
| DragDrop.MoveNextToSpec | main.js:584-592 | The moved task lands right before (top) or after (bottom) the target, accounting for the shift when `fromIdx < toIdx`. The others keep their order, and the array is a permutation. |
| DragDrop.MovedFilter | main.js:584-592 | The move is invisible to every date group but the dragged task's. |
| DragDrop.MovedAdjacent | main.js:584-594 | After grouping, the dragged task is still right next to the target within their group. |
| DragDrop.DropArraySpec | main.js:579-594 | It is a no-op exactly when an id is not found. Otherwise the result is a grouped permutation, other groups are untouched, and the dragged task is adjacent to the target within its group. |
| DragDrop.DropSpec | main.js:566-609 | A drop is refused exactly when the parent path or the date group differs; dropping on itself is a no-op. A completed move keeps every id, permutes the target's array, and keeps every task's record. |
| DragDrop.DragStartWrites | main.js:383-393 | One `dragstart` on the row at a path gives one `dragCtx` write per enclosing `li`, innermost first, and the first names the row itself. |
| DragDrop.DragStartBubbles | main.js:524-533 | One `dragstart` runs the listener of the row and then of every enclosing row; the last write leaves `dragCtx` naming the row's root-level ancestor, at the root path. |
| DragDrop.NestedDropRefused | main.js:566-573 | Hence, as written, every drop on a nested row is refused. |
| DragDrop.DragChildRecordsParent | main.js:524-533 | Dragging the only child of a root task records the parent, not the child. |
| DragDrop.SiblingDropAllowed | main.js:522-573 | With one listener per drag, a nested row may be dropped on any sibling in its date group. |
| DateInvariant.DatesOkSortAll | main.js:177-180 | Sorting keeps every stored date null or valid. |
| DateInvariant.DatesOkGroupOrder | main.js:156-175 | So does grouping. |
| DateInvariant.DatesOkRemove | main.js:509-520 | So does delete. |
| DateInvariant.DatesOkIndent | main.js:730-746 | So does indent. |
| DateInvariant.DatesOkOutdent | main.js:748-771 | So does outdent. |
| DateInvariant.DatesOkAddSibling | main.js:714-728 | So does add sibling. |
| DateInvariant.DatesOkAddSubtask | main.js:335-342 | So does add subtask. |
| DateInvariant.DatesOkAddRoot | main.js:612-619 | So does root add. |
| DateInvariant.DatesOkSetDate | main.js:411-421 | So does the date picker. |
| DateInvariant.DatesOkDateToggle | main.js:348-362 | So does "Remove Date". |
| DateInvariant.DatesOkToggleCaret | main.js:292-298 | So does the caret. |
| DateInvariant.DatesOkRetext | main.js:443-447 | So does a text commit. |
| DateInvariant.DatesOkSetAllCollapsed | main.js:230-235 | So does expand/collapse all. |
| DateInvariant.DatesOkSetActiveCollapsed | main.js:773-789 | So does expand/collapse of the selection. |
| DateInvariant.DatesOkDrop | main.js:579-594 | So does drop. |
| DateInvariant.DatesOkImported | main.js:217-223 | An imported outline satisfies the invariant. |
| App.MergeImportSpec | main.js:652-654 | Merge keeps every existing and every imported task. Each date group lists the existing tasks before the imported ones, and the groups are in date order. |
| App.Outline.constructor | main.js:186-197 | On start, nothing stored gives an empty list; a valid stored value gives its tasks, grouped; corrupted data gives an empty list and the warning. |
| App.Outline.Select | main.js:283-285 | Clicking a row selects it and changes nothing else. |
| App.Outline.SetAll | main.js:237-247 | The buttons set every parent's flag and change nothing else. |
| App.Outline.DeleteTask | main.js:502-507 | Delete removes the task and clears the selection if it was that task; a missing id shows "Task not found." and changes nothing. |
| App.Outline.AddSubtaskTo | main.js:335-342 | "Add Subtask" on a row adds one child with the oracle's id at the counter, which advances. The outline comes out sorted; as records, the clicked task is expanded and gains that blank child, and nothing else changes. |
| App.Outline.SubmitRoot | main.js:612-627 | Blank text adds nothing and mints nothing; otherwise the root add is applied with one minted id. |
| App.Outline.PickDate | main.js:411-426 | An invalid picked date shows "Invalid date." and changes nothing. Otherwise the outline is re-sorted and grouped, and as records the clicked task has exactly the normalised date and nothing else changes. |
| App.Outline.ClickCaret | main.js:292-298 | The caret flips the clicked task's flag when it has subtasks, and changes nothing else. |
| App.Outline.CommitText | main.js:443-447 | The inline editor's commit sets the clicked task's text and changes nothing else. |
| App.Outline.ToggleDate | main.js:348-362 | "Remove Date" on a dated row clears exactly that task's date and keeps every task; on an undated row ("Set Date") nothing changes until a date is picked. |
| App.Outline.AddSiblingAfterActive | main.js:714-728 | Without a found selection nothing changes; otherwise the new sibling is added and becomes the selection. |
| App.Outline.IndentActive | main.js:730-746 | Indent of the selection keeps the pre-order of ids. |
| App.Outline.OutdentActive | main.js:748-771 | Outdent of the selection keeps every id. |
| App.Outline.SetActive | main.js:773-789 | Collapse/expand of the selection changes only flags and keeps the pre-order of ids. |
| App.Outline.DragStart | main.js:524-533 | The dragged row's own listener: `dragCtx` records that row's id, parent path and date key. |
| App.Outline.DragEnd | main.js:535-540 | `dragCtx` is cleared. |
| App.Outline.DropOn | main.js:566-598 | The target row's own listener. Without a drag nothing changes. A refused drop shows its message; otherwise the drop's outcome is stored. Every id and every task's record is kept. |
| App.Outline.ImportFile | main.js:643-666 | A failed import shows "Import failed: ..." and changes nothing. Merge appends and groups; replace swaps the list. |

Every `App.Outline` method with `requires Valid()` also ensures `Valid()`: every
stored date, at any depth, is null or a valid calendar date.

`App.Outline.PickDate` also models the inline date editor's commit (main.js:474-488),
whose code is the same as the picker's. A click inside a row also fires the row's
`mousedown`, which selects the task (main.js:283-285); that is the separate event
`App.Outline.Select`.

## Findings

| source | as written | input that shows it | evidently intended | confidence | as-written member | corrected member |
|---|---|---|---|---|---|---|
| main.js:523-533 | Every `li` gets the drag listeners and child `li`s nest inside their parent's; no listener stops propagation, so `dragstart` on a nested row bubbles and each enclosing row's listener overwrites `dragCtx`, ending with the root-level ancestor at path `[]`. A later drop on any nested row is then refused. | Root task `p` with one child `a`: dragging `a` leaves `dragCtx` = (`p`, `[]`, its key). | Dragging a nested row records that row, so it can be moved among its siblings of the same date group (main.js:522). | high (not executed) | DragDrop.DragStartBubbles | App.Outline.DragStart |

## Left out

- Rendering and the DOM are not modelled: `render`, `renderTaskItem`, `levelClassForDepth`, and the editor and date-picker widgets themselves (focus, caret placement, Escape). What their commits do to the outline is modelled.
- The row handlers take the row's rendered position (`parentPath`, `index`) as input and require that it still names a task (`Tasks.IsRow`). This holds for every row the page renders, because every change re-renders.
- `formatDateForDisplay` (main.js:90-97) reads the wall clock and is not modelled.
- Keyboard routing (main.js:669-712) is out; the handlers it calls are modelled.
- `localStorage`, `save`, `download`, export (main.js:630-639) and `file.text()` are I/O. The model takes the parsed value as a `Json` input. `JSON.stringify` appears only as `Import.ToJson`, for the round trip.
- `deepClone` on merge is the identity under value semantics.
- `uid()` (main.js:30-32) uses `Date.now()` and `Math.random()`. It is the oracle `mint`, assumed never to return `""`; ids need not be fresh.
- `showError`'s timers are out; its message is recorded in `status`.
- The `dragover`/`dragleave` feedback and the `getBoundingClientRect` midpoint test (main.js:542-564) are out. "top"/"bottom" is an input.
- In-place update and aliasing are not modelled. The source mutates nested arrays shared between `state.tasks` and `task.subtasks`; the model rebuilds the outline along the path instead. This gives the same result because each array has exactly one owner.
- `localeCompare` on date keys is modelled as plain lexicographic order, and so is `<`. The keys are digits and `-`, plus `__none__` read as `9999-12-31`.
- `Number.isInteger` (main.js:50) always holds for digit strings, so it is not modelled.
- Ids are not proved unique. The source never ensures it: import keeps duplicate ids. The lemmas instead keep the multiset and order of ids. The handlers that look up by id take the first occurrence in pre-order, as `findTaskInfoById` and `removeTaskRecursive` do.
- A record names its parent by id, so with duplicate ids the bag of records does not say which of two same-id tasks is the parent.
- The code groups by the exact date string, not by a due-status bucket, and has no copy-subtree operation. The model follows the code.
- Indent does not re-apply the ordering. A date change sorts every array but groups only the root array (main.js:420-421, 483-484). The model follows the code.
- Mutations.AddSubtaskSpec: does not state where the new child lands, because the full re-sort decides that; the records say it sits under the clicked task.
- Mutations.RedateSpec: does not state the task's new position, because the re-sort decides that; the records say it has the new date.
- Ordering.SortAllStable: states stability for the top-level array only; the deeper arrays are sorted by the same function.
- DragDrop.DropSpec: states that a move permutes the target array and keeps every id; it does not restate that the arrays off the path are unchanged.
- App.Outline.DropOn: requires that the target's path resolves, which holds for every task the page renders.
- App.Outline.DragStart and App.Outline.DropOn: each models one row's own listener. In the program both events bubble through every enclosing row's listener (see Findings). A nested row's `dragstart` therefore leaves `dragCtx` on its root-level ancestor. A `drop` on a nested row shows "Drop not allowed…" at that row and at each enclosing nested row, and the root ancestor's listener may then reorder the root array. As written, a nested row cannot be dragged on its own. `DragDrop.DragStartWrites` models the bubbling of `dragstart`; the bubbling of `drop` is not modelled.
