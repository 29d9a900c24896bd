/**
 * The invariant every edit of the outline keeps: each stored date, at every
 * depth, is `null` or a valid calendar date. Dates only enter through the
 * validator, the date picker (which rejects invalid input) and
 * `normalizeDateInput`, and every structural edit only moves tasks around.
 */
module DateInvariant {
  import opened Wrappers
  import opened Text
  import opened StableSort
  import opened Dates
  import opened JsonValues
  import opened Tasks
  import opened Ordering
  import opened Mutations
  import opened Collapse
  import opened DragDrop
  import opened Import

  predicate AllDatesOk(ts: seq<Task>)
  {
    forall i :: 0 <= i < |ts| ==> DateOk(ts[i]) && AllDatesOk(ts[i].subtasks)
  }

  // ----- Building blocks -----

  lemma {:induction false} DatesOkGet(tasks: seq<Task>, path: seq<nat>)
    requires AllDatesOk(tasks) && GetArrayByParentPath(tasks, path).Some?
    ensures AllDatesOk(GetArrayByParentPath(tasks, path).value)
  {
    if path != [] {
      DatesOkGet(tasks[path[0]].subtasks, path[1..]);
    }
  }

  lemma {:induction false} DatesOkSet(tasks: seq<Task>, path: seq<nat>, arr: seq<Task>)
    requires AllDatesOk(tasks) && AllDatesOk(arr) && GetArrayByParentPath(tasks, path).Some?
    ensures AllDatesOk(SetArrayAt(tasks, path, arr))
  {
    if path != [] {
      DatesOkSet(tasks[path[0]].subtasks, path[1..], arr);
    }
  }

  /** A sequence made of tasks that satisfy the invariant satisfies it. */
  lemma DatesOkSub(a: seq<Task>, b: seq<Task>)
    requires AllDatesOk(a) && forall x :: x in b ==> x in a
    ensures AllDatesOk(b)
  {
    forall i | 0 <= i < |b|
      ensures DateOk(b[i]) && AllDatesOk(b[i].subtasks)
    {
      assert b[i] in b;
      var j :| 0 <= j < |a| && a[j] == b[i];
    }
  }

  /** Any rearrangement of tasks that satisfy the invariant satisfies it. */
  lemma DatesOkPerm(a: seq<Task>, b: seq<Task>)
    requires AllDatesOk(a) && multiset(b) == multiset(a)
    ensures AllDatesOk(b)
  {
    forall x | x in b
      ensures x in a
    {
      assert x in multiset(b);
    }
    DatesOkSub(a, b);
  }

  lemma DatesOkAppend(a: seq<Task>, b: seq<Task>)
    requires AllDatesOk(a) && AllDatesOk(b)
    ensures AllDatesOk(a + b)
  {
    assert forall i :: |a| <= i < |a + b| ==> (a + b)[i] == b[i - |a|];
  }

  lemma {:induction false} DatesOkSortAll(ts: seq<Task>)
    requires AllDatesOk(ts)
    ensures AllDatesOk(SortAll(ts))
    decreases |Ids(ts)|
  {
    var sorted := InsertionSort(ts, SortKeyOf);
    DatesOkPerm(ts, sorted);
    SortPreservesSize(ts);
    SortEachPointwise(sorted);
    forall i | 0 <= i < |sorted|
      ensures AllDatesOk(SortAll(sorted[i].subtasks))
    {
      ChildSmaller(sorted, i);
      DatesOkSortAll(sorted[i].subtasks);
    }
  }

  lemma DatesOkGroupOrder(ts: seq<Task>)
    requires AllDatesOk(ts)
    ensures AllDatesOk(GroupOrder(ts))
  {
    GroupOrderPermutation(ts);
    DatesOkPerm(ts, GroupOrder(ts));
  }

  // ----- Every edit keeps the invariant -----

  lemma DatesOkRemove(tasks: seq<Task>, id: string)
    requires AllDatesOk(tasks)
    ensures AllDatesOk(RemoveTask(tasks, id).1)
  {
    FindTaskInfoByIdSpec(tasks, id);
    match FindTaskInfoById(tasks, id)
    case None =>
    case Some(info) =>
      DatesOkGet(tasks, info.parentPath);
      var rest := info.arr[..info.index] + info.arr[info.index + 1..];
      assert forall x :: x in rest ==> x in info.arr;
      DatesOkSub(info.arr, rest);
      DatesOkSet(tasks, info.parentPath, rest);
  }

  lemma DatesOkIndent(tasks: seq<Task>, id: string)
    requires AllDatesOk(tasks)
    ensures AllDatesOk(Indent(tasks, id))
  {
    FindTaskInfoByIdSpec(tasks, id);
    match FindTaskInfoById(tasks, id)
    case None =>
    case Some(info) =>
      if info.index != 0 {
        var arr, i := info.arr, info.index;
        DatesOkGet(tasks, info.parentPath);
        var r := IndentIn(arr, i);
        assert AllDatesOk(r[i - 1].subtasks) by {
          DatesOkAppend(arr[i - 1].subtasks, [arr[i]]);
        }
        assert forall j :: 0 <= j < |r| && j != i - 1 ==> r[j] in arr;
        DatesOkSet(tasks, info.parentPath, r);
      }
  }

  lemma DatesOkOutdent(tasks: seq<Task>, id: string)
    requires AllDatesOk(tasks)
    ensures AllDatesOk(Outdent(tasks, id))
  {
    FindTaskInfoByIdSpec(tasks, id);
    match FindTaskInfoById(tasks, id)
    case None =>
    case Some(info) =>
      if info.parentPath != [] {
        GetArrayParent(tasks, info.parentPath);
        var gp := GrandPath(info);
        var grand := GetArrayByParentPath(tasks, gp).value;
        DatesOkGet(tasks, gp);
        DatesOkOutdentIn(grand, ParentIndex(info), info.index);
        DatesOkSet(tasks, gp, GroupOrder(OutdentIn(grand, ParentIndex(info), info.index)));
      }
  }

  lemma DatesOkOutdentIn(grand: seq<Task>, p: nat, i: nat)
    requires AllDatesOk(grand) && p < |grand| && i < |grand[p].subtasks|
    ensures AllDatesOk(GroupOrder(OutdentIn(grand, p, i)))
  {
    var sub := grand[p].subtasks;
    assert AllDatesOk(sub[..i] + sub[i + 1..]) by {
      assert forall x :: x in sub[..i] + sub[i + 1..] ==> x in sub;
      DatesOkSub(sub, sub[..i] + sub[i + 1..]);
    }
    var r := OutdentIn(grand, p, i);
    assert forall j :: 0 <= j < |r| && j != p && j != p + 1 ==> r[j] in grand;
    DatesOkGroupOrder(r);
  }

  lemma DatesOkAddSibling(tasks: seq<Task>, id: string, newId: string)
    requires AllDatesOk(tasks)
    ensures AllDatesOk(AddSiblingAfter(tasks, id, newId))
  {
    FindTaskInfoByIdSpec(tasks, id);
    match FindTaskInfoById(tasks, id)
    case None =>
    case Some(info) =>
      var arr, i := info.arr, info.index;
      DatesOkGet(tasks, info.parentPath);
      var r := arr[..i + 1] + [MakeNewTask(newId, info.task.date, "")] + arr[i + 1..];
      assert forall j :: 0 <= j < |r| && j != i + 1 ==> r[j] in arr;
      DatesOkGroupOrder(r);
      DatesOkSet(tasks, info.parentPath, GroupOrder(r));
  }

  lemma DatesOkAddSubtask(tasks: seq<Task>, parentPath: seq<nat>, index: nat, newId: string)
    requires AllDatesOk(tasks) && IsRow(tasks, parentPath, index)
    ensures AllDatesOk(AddSubtask(tasks, parentPath, index, newId))
  {
    var arr := GetArrayByParentPath(tasks, parentPath).value;
    var t := arr[index];
    DatesOkGet(tasks, parentPath);
    DatesOkAppend(t.subtasks, [MakeNewTask(newId, None, "")]);
    var arr' := arr[index := WithChild(t, newId)];
    DatesOkSet(tasks, parentPath, arr');
    DatesOkSortAll(SetArrayAt(tasks, parentPath, arr'));
  }

  lemma DatesOkAddRoot(tasks: seq<Task>, dateInput: string, textInput: string, newId: string)
    requires AllDatesOk(tasks)
    ensures AllDatesOk(AddRoot(tasks, dateInput, textInput, newId))
  {
    var t := MakeNewTask(newId, NormalizeDateInput(dateInput), Trim(textInput));
    DatesOkAppend(tasks, [t]);
    DatesOkGroupOrder(tasks + [t]);
  }

  lemma DatesOkRedate(tasks: seq<Task>, parentPath: seq<nat>, index: nat, date: Option<string>)
    requires AllDatesOk(tasks) && IsRow(tasks, parentPath, index)
    requires date.None? || IsValidDateText(date.value)
    ensures AllDatesOk(Redate(tasks, parentPath, index, date))
  {
    var arr := GetArrayByParentPath(tasks, parentPath).value;
    DatesOkGet(tasks, parentPath);
    var arr' := arr[index := arr[index].(date := date)];
    DatesOkSet(tasks, parentPath, arr');
    var sorted := SortAll(SetArrayAt(tasks, parentPath, arr'));
    DatesOkSortAll(SetArrayAt(tasks, parentPath, arr'));
    DatesOkGroupOrder(sorted);
  }

  lemma DatesOkSetDate(tasks: seq<Task>, parentPath: seq<nat>, index: nat, value: string)
    requires AllDatesOk(tasks) && IsRow(tasks, parentPath, index)
    requires SetDate(tasks, parentPath, index, value).Ok?
    ensures AllDatesOk(SetDate(tasks, parentPath, index, value).value)
  {
    DatesOkRedate(tasks, parentPath, index, NormalizeDateInput(value));
  }

  lemma DatesOkDateToggle(tasks: seq<Task>, parentPath: seq<nat>, index: nat)
    requires AllDatesOk(tasks) && IsRow(tasks, parentPath, index)
    ensures AllDatesOk(DateToggle(tasks, parentPath, index))
  {
    DatesOkRedate(tasks, parentPath, index, None);
  }

  lemma {:induction false} DatesOkFlags(a: seq<Task>, b: seq<Task>)
    requires AllDatesOk(a) && SameButFlags(a, b)
    ensures AllDatesOk(b)
    decreases a
  {
    forall i | 0 <= i < |b|
      ensures AllDatesOk(b[i].subtasks)
    {
      DatesOkFlags(a[i].subtasks, b[i].subtasks);
    }
  }

  lemma DatesOkSetAllCollapsed(tasks: seq<Task>, c: bool)
    requires AllDatesOk(tasks)
    ensures AllDatesOk(SetAllCollapsed(tasks, c))
  {
    SetAllCollapsedSpec(tasks, c);
    DatesOkFlags(tasks, SetAllCollapsed(tasks, c));
  }

  lemma DatesOkSetActiveCollapsed(tasks: seq<Task>, id: string, c: bool)
    requires AllDatesOk(tasks)
    ensures AllDatesOk(SetActiveCollapsed(tasks, id, c))
  {
    FindTaskInfoByIdSpec(tasks, id);
    match FindTaskInfoById(tasks, id)
    case None =>
    case Some(info) =>
      if |info.task.subtasks| != 0 {
        DatesOkGet(tasks, info.parentPath);
        DatesOkSet(tasks, info.parentPath, info.arr[info.index := info.task.(collapsed := c)]);
      }
  }

  lemma DatesOkToggleCaret(tasks: seq<Task>, parentPath: seq<nat>, index: nat)
    requires AllDatesOk(tasks) && IsRow(tasks, parentPath, index)
    ensures AllDatesOk(ToggleCaret(tasks, parentPath, index))
  {
    ToggleCaretSpec(tasks, parentPath, index);
    DatesOkFlags(tasks, ToggleCaret(tasks, parentPath, index));
  }

  lemma DatesOkRetext(tasks: seq<Task>, parentPath: seq<nat>, index: nat, text: string)
    requires AllDatesOk(tasks) && IsRow(tasks, parentPath, index)
    ensures AllDatesOk(Retext(tasks, parentPath, index, text))
  {
    var arr := GetArrayByParentPath(tasks, parentPath).value;
    DatesOkGet(tasks, parentPath);
    DatesOkSet(tasks, parentPath, arr[index := arr[index].(text := text)]);
  }

  lemma DatesOkDrop(tasks: seq<Task>, ctx: Option<DragCtx>, target: Task, targetPath: seq<nat>, top: bool)
    requires AllDatesOk(tasks) && GetArrayByParentPath(tasks, targetPath).Some?
    requires Drop(tasks, ctx, target, targetPath, top).Moved?
    ensures AllDatesOk(Drop(tasks, ctx, target, targetPath, top).tasks)
  {
    var arr := GetArrayByParentPath(tasks, targetPath).value;
    DropArraySpec(arr, ctx.value.draggedId, target.id, top);
    var after := DropArray(arr, ctx.value.draggedId, target.id, top).value;
    DatesOkGet(tasks, targetPath);
    DatesOkPerm(arr, after);
    DatesOkSet(tasks, targetPath, after);
  }

  /** What the validator produces satisfies the invariant. */
  lemma {:induction false} DatesOkWellFormed(ts: seq<Task>)
    requires WellFormed(ts)
    ensures AllDatesOk(ts)
  {
    forall i | 0 <= i < |ts|
      ensures AllDatesOk(ts[i].subtasks)
    {
      DatesOkWellFormed(ts[i].subtasks);
    }
  }

  lemma DatesOkImported(v: Json, mint: nat -> string, next: nat)
    requires forall n :: mint(n) != ""
    requires ValidateImportedState(v, mint, next).Ok?
    ensures AllDatesOk(ValidateImportedState(v, mint, next).value.0)
  {
    var items := match Prop(v, "tasks") case Some(JArr(items)) => items case _ => [];
    ValidateListWellFormed(items, mint, next);
    var ts := ValidateList(items, mint, next).value.0;
    DatesOkWellFormed(ts);
    DatesOkSortAll(ts);
  }
}
