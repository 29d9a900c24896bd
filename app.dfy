/**
 * The page state of the outline (`state.tasks`, `activeTaskId`, `dragCtx`)
 * and the handlers that change it. `uid()` is a fixed oracle `mint` read at
 * a counter; `showError` records its message in `status`.
 */
module App {
  import opened Wrappers
  import opened Text
  import opened StableSort
  import opened Grouping
  import opened JsonValues
  import opened Dates
  import opened Tasks
  import opened Ordering
  import opened Records
  import opened Import
  import opened Mutations
  import opened Collapse
  import opened DragDrop
  import opened DateInvariant

  const CorruptedMessage: string := "Stored data was corrupted; started with a fresh list."
  const NotFoundMessage: string := "Task not found."
  const DropRefusedMessage: string := "Drop not allowed (different date group or different parent)."
  const ImportFailedPrefix: string := "Import failed: "

  /**
   * Merging an import appends the imported roots and groups the result: no
   * task is lost or duplicated, each date group lists the existing tasks
   * before the imported ones, and the groups come out in date order.
   */
  lemma MergeImportSpec(tasks: seq<Task>, imported: seq<Task>)
    ensures multiset(GroupOrder(tasks + imported)) == multiset(tasks) + multiset(imported)
    ensures forall k :: (FilterKey(GroupOrder(tasks + imported), GroupKeyOf, k)
      == FilterKey(tasks, GroupKeyOf, k) + FilterKey(imported, GroupKeyOf, k))
    ensures Contiguous(GroupOrder(tasks + imported), GroupKeyOf)
    ensures RankSorted(GroupOrder(tasks + imported), GroupKeyOf, GroupSortKey)
  {
    GroupOrderPermutation(tasks + imported);
    GroupOrderGrouped(tasks + imported);
    forall k
      ensures FilterKey(GroupOrder(tasks + imported), GroupKeyOf, k)
        == FilterKey(tasks, GroupKeyOf, k) + FilterKey(imported, GroupKeyOf, k)
    {
      GroupOrderStable(tasks + imported, k);
      FilterKeyAppend(tasks, imported, GroupKeyOf, k);
    }
  }

  class Outline {
    /** `uid()`: the id handed out at each step of `counter`. */
    const mint: nat -> string
    var counter: nat
    var tasks: seq<Task>
    var activeTaskId: Option<string>
    var dragCtx: Option<DragCtx>
    /** The last message shown by `showError`. */
    var status: Option<string>

    /** Every stored date is `null` or a valid calendar date; minted ids are non-empty. */
    ghost predicate Valid()
      reads this
    {
      AllDatesOk(tasks) && forall n :: mint(n) != ""
    }

    /**
     * Page start: `load()` from storage (nothing stored, or the parsed stored
     * value), then group the root array.
     */
    constructor (mint: nat -> string, stored: Option<Json>)
      requires forall n :: mint(n) != ""
      ensures Valid() && this.mint == mint
      ensures activeTaskId == None && dragCtx == None
      ensures match stored
        case None => tasks == [] && counter == 0 && status == None
        case Some(v) =>
          match ValidateImportedState(v, mint, 0)
          case Ok((ts, n)) => tasks == GroupOrder(ts) && counter == n && status == None
          case Err(_) => tasks == [] && counter == 0 && status == Some(CorruptedMessage)
    {
      this.mint := mint;
      activeTaskId := None;
      dragCtx := None;
      tasks, counter, status := [], 0, None;
      if stored.Some? {
        match ValidateImportedState(stored.value, mint, 0)
        case Ok((ts, n)) =>
          DatesOkImported(stored.value, mint, 0);
          DatesOkGroupOrder(ts);
          var grouped := EnforceGroupOrderingInArray(ts);
          tasks, counter := grouped, n;
        case Err(_) =>
          status := Some(CorruptedMessage);
      }
    }

    /** Clicking a task row selects it. */
    method Select(id: string)
      modifies this
      ensures activeTaskId == Some(id)
      ensures tasks == old(tasks) && counter == old(counter)
      ensures dragCtx == old(dragCtx) && status == old(status)
    {
      activeTaskId := Some(id);
    }

    /** The "Expand all" and "Collapse all" buttons. */
    method SetAll(c: bool)
      requires Valid()
      modifies this
      ensures Valid()
      ensures tasks == SetAllCollapsed(old(tasks), c)
      ensures AllCollapsedAs(tasks, c) && SameButFlags(old(tasks), tasks)
      ensures unchanged(this`activeTaskId, this`dragCtx, this`status, this`counter)
    {
      SetAllCollapsedSpec(tasks, c);
      DatesOkSetAllCollapsed(tasks, c);
      tasks := SetAllCollapsedLoop(tasks, c);
    }

    /** `deleteTask`: remove the first task with this id and clear the selection if it was that task. */
    method DeleteTask(taskId: string)
      requires Valid()
      modifies this
      ensures Valid()
      ensures tasks == RemoveTask(old(tasks), taskId).1
      ensures taskId in Ids(old(tasks)) ==>
        status == old(status) &&
        activeTaskId == (if old(activeTaskId) == Some(taskId) then None else old(activeTaskId))
      ensures taskId !in Ids(old(tasks)) ==>
        status == Some(NotFoundMessage) && tasks == old(tasks) && activeTaskId == old(activeTaskId)
      ensures unchanged(this`dragCtx, this`counter)
    {
      RemoveTaskSpec(tasks, taskId);
      DatesOkRemove(tasks, taskId);
      var removed, r := RemoveTaskRecursive(tasks, taskId);
      tasks := r;
      if removed {
        if activeTaskId == Some(taskId) {
          activeTaskId := None;
        }
      } else {
        status := Some(NotFoundMessage);
      }
    }

    /**
     * The "Add Subtask" button of the row at `index` of the array at
     * `parentPath`: that task gets a new blank child and is expanded.
     */
    method AddSubtaskTo(parentPath: seq<nat>, index: nat)
      requires Valid() && IsRow(tasks, parentPath, index)
      modifies this
      ensures Valid()
      ensures tasks == AddSubtask(old(tasks), parentPath, index, mint(old(counter)))
      ensures multiset(Ids(tasks)) == multiset(Ids(old(tasks))) + multiset{mint(old(counter))} && AllSorted(tasks)
      ensures var e := RowEntry(old(tasks), parentPath, index);
        Traded(old(tasks), tasks, e, multiset{e.(collapsed := false), Entry(mint(old(counter)), None, "", false, Some(e.id))})
      ensures counter == old(counter) + 1
      ensures unchanged(this`activeTaskId, this`dragCtx, this`status)
    {
      var newId := mint(counter);
      ghost var before := tasks;
      tasks, counter := AddSubtask(tasks, parentPath, index, newId), counter + 1;
      AddSubtaskSpec(before, parentPath, index, newId);
      DatesOkAddSubtask(before, parentPath, index, newId);
    }

    /** The caret of the row at `index` of the array at `parentPath`. */
    method ClickCaret(parentPath: seq<nat>, index: nat)
      requires Valid() && IsRow(tasks, parentPath, index)
      modifies this
      ensures Valid()
      ensures tasks == ToggleCaret(old(tasks), parentPath, index)
      ensures Ids(tasks) == Ids(old(tasks)) && SameButFlags(old(tasks), tasks)
      ensures var e := RowEntry(old(tasks), parentPath, index);
        if |GetArrayByParentPath(old(tasks), parentPath).value[index].subtasks| == 0 then tasks == old(tasks)
        else Traded(old(tasks), tasks, e, multiset{e.(collapsed := !e.collapsed)})
      ensures unchanged(this`activeTaskId, this`dragCtx, this`status, this`counter)
    {
      ghost var before := tasks;
      tasks := ToggleCaret(tasks, parentPath, index);
      ToggleCaretSpec(before, parentPath, index);
      DatesOkToggleCaret(before, parentPath, index);
    }

    /** The inline text editor of the row at `index` of the array at `parentPath`, committed. */
    method CommitText(parentPath: seq<nat>, index: nat, text: string)
      requires Valid() && IsRow(tasks, parentPath, index)
      modifies this
      ensures Valid()
      ensures tasks == Retext(old(tasks), parentPath, index, text)
      ensures Ids(tasks) == Ids(old(tasks))
      ensures var e := RowEntry(old(tasks), parentPath, index);
        Traded(old(tasks), tasks, e, multiset{e.(text := text)})
      ensures unchanged(this`activeTaskId, this`dragCtx, this`status, this`counter)
    {
      ghost var before := tasks;
      tasks := Retext(tasks, parentPath, index, text);
      RetextSpec(before, parentPath, index, text);
      DatesOkRetext(before, parentPath, index, text);
    }

    /** The add-root form: blank text adds nothing; otherwise a new root task joins its date group. */
    method SubmitRoot(dateInput: string, textInput: string)
      requires Valid()
      modifies this
      ensures Valid()
      ensures Trim(textInput) == "" ==> tasks == old(tasks) && counter == old(counter)
      ensures Trim(textInput) != "" ==>
        tasks == AddRoot(old(tasks), dateInput, textInput, mint(old(counter)))
        && counter == old(counter) + 1
      ensures unchanged(this`activeTaskId, this`dragCtx, this`status)
    {
      DatesOkAddRoot(tasks, dateInput, textInput, mint(counter));
      if Trim(textInput) != "" {
        tasks := AddRoot(tasks, dateInput, textInput, mint(counter));
        counter := counter + 1;
      }
    }

    /**
     * A date picked for, or typed into, the row at `index` of the array at
     * `parentPath`: an invalid value is reported and changes nothing;
     * otherwise that task takes the date and the outline is re-ordered.
     */
    method PickDate(parentPath: seq<nat>, index: nat, value: string)
      requires Valid() && IsRow(tasks, parentPath, index)
      modifies this
      ensures Valid()
      ensures value != "" && !IsValidDateText(value) ==>
        tasks == old(tasks) && status == Some("Invalid date.")
      ensures value == "" || IsValidDateText(value) ==>
        && tasks == Redate(old(tasks), parentPath, index, NormalizeDateInput(value))
        && status == old(status)
        && var e := RowEntry(old(tasks), parentPath, index);
           Traded(old(tasks), tasks, e, multiset{e.(date := NormalizeDateInput(value))})
      ensures unchanged(this`activeTaskId, this`dragCtx, this`counter)
    {
      match SetDate(tasks, parentPath, index, value)
      case Err(m) =>
        status := Some(m);
      case Ok(r) =>
        RedateSpec(tasks, parentPath, index, NormalizeDateInput(value));
        DatesOkSetDate(tasks, parentPath, index, value);
        tasks := r;
    }

    /**
     * The "Remove Date" / "Set Date" button of the row at `index` of the array
     * at `parentPath`: a dated task loses its date; for an undated one the
     * picker opens and nothing changes yet.
     */
    method ToggleDate(parentPath: seq<nat>, index: nat)
      requires Valid() && IsRow(tasks, parentPath, index)
      modifies this
      ensures Valid()
      ensures tasks == DateToggle(old(tasks), parentPath, index)
      ensures multiset(Ids(tasks)) == multiset(Ids(old(tasks)))
      ensures var e := RowEntry(old(tasks), parentPath, index);
        if HasDate(e.date) then Traded(old(tasks), tasks, e, multiset{e.(date := None)})
        else tasks == old(tasks)
      ensures unchanged(this`activeTaskId, this`dragCtx, this`status, this`counter)
    {
      RedateSpec(tasks, parentPath, index, None);
      DatesOkDateToggle(tasks, parentPath, index);
      tasks := DateToggle(tasks, parentPath, index);
    }

    /** `addSiblingAfterActive`: the new sibling becomes the selection. */
    method AddSiblingAfterActive()
      requires Valid()
      modifies this
      ensures Valid()
      ensures old(activeTaskId).None? || FindTaskInfoById(old(tasks), old(activeTaskId).value).None? ==>
        unchanged(this)
      ensures old(activeTaskId).Some? && FindTaskInfoById(old(tasks), old(activeTaskId).value).Some? ==>
        && tasks == AddSiblingAfter(old(tasks), old(activeTaskId).value, mint(old(counter)))
        && activeTaskId == Some(mint(old(counter)))
        && counter == old(counter) + 1
      ensures unchanged(this`dragCtx, this`status)
    {
      if activeTaskId.Some? {
        var id := activeTaskId.value;
        if FindTaskInfoById(tasks, id).Some? {
          var newId := mint(counter);
          DatesOkAddSibling(tasks, id, newId);
          tasks := AddSiblingAfter(tasks, id, newId);
          counter := counter + 1;
          activeTaskId := Some(newId);
        }
      }
    }

    /** `indentActive` (Tab). */
    method IndentActive()
      requires Valid()
      modifies this
      ensures Valid()
      ensures tasks == (if old(activeTaskId).Some? then Indent(old(tasks), old(activeTaskId).value) else old(tasks))
      ensures Ids(tasks) == Ids(old(tasks))
      ensures unchanged(this`activeTaskId, this`dragCtx, this`status, this`counter)
    {
      if activeTaskId.Some? {
        IndentSpec(tasks, activeTaskId.value);
        DatesOkIndent(tasks, activeTaskId.value);
        tasks := Indent(tasks, activeTaskId.value);
      }
    }

    /** `outdentActive` (Shift+Tab). */
    method OutdentActive()
      requires Valid()
      modifies this
      ensures Valid()
      ensures tasks == (if old(activeTaskId).Some? then Outdent(old(tasks), old(activeTaskId).value) else old(tasks))
      ensures multiset(Ids(tasks)) == multiset(Ids(old(tasks)))
      ensures unchanged(this`activeTaskId, this`dragCtx, this`status, this`counter)
    {
      if activeTaskId.Some? {
        OutdentSpec(tasks, activeTaskId.value);
        DatesOkOutdent(tasks, activeTaskId.value);
        tasks := Outdent(tasks, activeTaskId.value);
      }
    }

    /** `collapseActive` (ArrowLeft, `c` true) and `expandActive` (ArrowRight, `c` false). */
    method SetActive(c: bool)
      requires Valid()
      modifies this
      ensures Valid()
      ensures tasks == (if old(activeTaskId).Some? then SetActiveCollapsed(old(tasks), old(activeTaskId).value, c) else old(tasks))
      ensures Ids(tasks) == Ids(old(tasks)) && SameButFlags(old(tasks), tasks)
      ensures unchanged(this`activeTaskId, this`dragCtx, this`status, this`counter)
    {
      SameButFlagsRefl(tasks);
      if activeTaskId.Some? {
        SetActiveCollapsedSpec(tasks, activeTaskId.value, c);
        DatesOkSetActiveCollapsed(tasks, activeTaskId.value, c);
        tasks := SetActiveCollapsed(tasks, activeTaskId.value, c);
      }
    }

    /** `dragstart`, as the listener of the row showing `task` at `parentPath` handles it. */
    method DragStart(task: Task, parentPath: seq<nat>)
      modifies this
      ensures dragCtx == Some(DragCtx(task.id, parentPath, DateKeyForGrouping(task.date)))
      ensures unchanged(this`tasks, this`activeTaskId, this`status, this`counter)
    {
      dragCtx := Some(DragCtx(task.id, parentPath, DateKeyForGrouping(task.date)));
    }

    /** `dragend`. */
    method DragEnd()
      modifies this
      ensures dragCtx == None
      ensures unchanged(this`tasks, this`activeTaskId, this`status, this`counter)
    {
      dragCtx := None;
    }

    /** `drop` on the task shown at `targetPath`, in its top or bottom half. */
    method DropOn(target: Task, targetPath: seq<nat>, top: bool)
      requires Valid() && GetArrayByParentPath(tasks, targetPath).Some?
      modifies this
      ensures Valid()
      ensures old(dragCtx).None? ==> unchanged(this)
      ensures old(dragCtx).Some? ==>
        match Drop(old(tasks), old(dragCtx), target, targetPath, top)
        case Refused => tasks == old(tasks) && status == Some(DropRefusedMessage)
        case Unchanged => tasks == old(tasks) && status == old(status)
        case Moved(ts) => tasks == ts && status == old(status)
      ensures multiset(Ids(tasks)) == multiset(Ids(old(tasks))) && Bag(tasks) == Bag(old(tasks))
      ensures unchanged(this`activeTaskId, this`dragCtx, this`counter)
    {
      if dragCtx.Some? {
        DropSpec(tasks, dragCtx, target, targetPath, top);
        match Drop(tasks, dragCtx, target, targetPath, top)
        case Refused =>
          status := Some(DropRefusedMessage);
        case Unchanged =>
        case Moved(ts) =>
          DatesOkDrop(tasks, dragCtx, target, targetPath, top);
          tasks := ts;
      }
    }

    /** The import input: merge appends and groups, replace swaps the whole list; errors change nothing. */
    method ImportFile(parsed: Json, merge: bool)
      requires Valid()
      modifies this
      ensures Valid()
      ensures match ValidateImportedState(parsed, mint, old(counter))
        case Err(m) =>
          tasks == old(tasks) && counter == old(counter) && status == Some(ImportFailedPrefix + m)
        case Ok((ts, n)) =>
          && tasks == (if merge then GroupOrder(old(tasks) + ts) else ts)
          && counter == n && status == old(status)
      ensures unchanged(this`activeTaskId, this`dragCtx)
    {
      match ValidateImportedState(parsed, mint, counter)
      case Err(m) =>
        status := Some(ImportFailedPrefix + m);
      case Ok((ts, n)) =>
        DatesOkImported(parsed, mint, counter);
        if merge {
          DatesOkAppend(tasks, ts);
          DatesOkGroupOrder(tasks + ts);
          var grouped := EnforceGroupOrderingInArray(tasks + ts);
          tasks := grouped;
        } else {
          tasks := ts;
        }
        counter := n;
    }
  }
}
