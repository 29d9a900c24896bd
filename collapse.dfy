/**
 * Expand/collapse: `setAllCollapsed` over the whole outline, and collapsing or
 * expanding the selected task. Only a task with subtasks has its `collapsed`
 * flag written.
 */
module Collapse {
  import opened Wrappers
  import opened Tasks
  import opened Records

  /** `setAllCollapsed(tasks, c)`. */
  function SetAllCollapsed(ts: seq<Task>, c: bool): (r: seq<Task>)
    ensures |r| == |ts|
    decreases ts
  {
    if ts == [] then [] else [CollapseOne(ts[0], c)] + SetAllCollapsed(ts[1..], c)
  }

  /** One loop iteration of `setAllCollapsed`: the flag if there are children, then the children. */
  function CollapseOne(t: Task, c: bool): Task
    decreases t
  {
    t.(collapsed := if |t.subtasks| > 0 then c else t.collapsed,
       subtasks := SetAllCollapsed(t.subtasks, c))
  }

  lemma {:induction false} SetAllCollapsedPointwise(ts: seq<Task>, c: bool)
    ensures forall i :: 0 <= i < |ts| ==> SetAllCollapsed(ts, c)[i] == CollapseOne(ts[i], c)
  {
    if ts != [] {
      SetAllCollapsedPointwise(ts[1..], c);
      var r := SetAllCollapsed(ts, c);
      forall i | 1 <= i < |ts|
        ensures r[i] == CollapseOne(ts[i], c)
      {
        assert r[i] == SetAllCollapsed(ts[1..], c)[i - 1];
        assert ts[1..][i - 1] == ts[i];
      }
    }
  }

  /** Every task with children, at every depth, has `collapsed == c`. */
  predicate AllCollapsedAs(ts: seq<Task>, c: bool)
  {
    forall i :: 0 <= i < |ts| ==>
      (|ts[i].subtasks| > 0 ==> ts[i].collapsed == c) && AllCollapsedAs(ts[i].subtasks, c)
  }

  /**
   * `a` and `b` are the same outline except for the `collapsed` flags of tasks
   * that have children.
   */
  predicate SameButFlags(a: seq<Task>, b: seq<Task>)
  {
    && |a| == |b|
    && forall i :: 0 <= i < |a| ==>
      && a[i].id == b[i].id && a[i].date == b[i].date && a[i].text == b[i].text
      && (|a[i].subtasks| == 0 ==> a[i].collapsed == b[i].collapsed)
      && SameButFlags(a[i].subtasks, b[i].subtasks)
  }

  /** After `setAllCollapsed(tasks, c)` every parent has flag `c`, and nothing else changed. */
  lemma {:induction false} SetAllCollapsedSpec(ts: seq<Task>, c: bool)
    ensures AllCollapsedAs(SetAllCollapsed(ts, c), c)
    ensures SameButFlags(ts, SetAllCollapsed(ts, c))
    decreases ts
  {
    var r := SetAllCollapsed(ts, c);
    SetAllCollapsedPointwise(ts, c);
    forall i | 0 <= i < |ts|
      ensures AllCollapsedAs(r[i].subtasks, c) && SameButFlags(ts[i].subtasks, r[i].subtasks)
    {
      SetAllCollapsedSpec(ts[i].subtasks, c);
    }
  }

  /** Those two properties determine the result: any outline that has them is `setAllCollapsed`'s. */
  lemma {:induction false} SetAllCollapsedUnique(ts: seq<Task>, r: seq<Task>, c: bool)
    requires SameButFlags(ts, r) && AllCollapsedAs(r, c)
    ensures r == SetAllCollapsed(ts, c)
    decreases ts
  {
    SetAllCollapsedPointwise(ts, c);
    var s := SetAllCollapsed(ts, c);
    forall i | 0 <= i < |ts|
      ensures r[i] == s[i]
    {
      SetAllCollapsedUnique(ts[i].subtasks, r[i].subtasks, c);
    }
  }

  lemma {:induction false} SameButFlagsTrans(a: seq<Task>, b: seq<Task>, d: seq<Task>)
    requires SameButFlags(a, b) && SameButFlags(b, d)
    ensures SameButFlags(a, d)
    decreases a
  {
    forall i | 0 <= i < |a|
      ensures SameButFlags(a[i].subtasks, d[i].subtasks)
    {
      SameButFlagsTrans(a[i].subtasks, b[i].subtasks, d[i].subtasks);
    }
  }

  /** Expand-all after collapse-all (or the reverse) is the same as the last one alone. */
  lemma SetAllCollapsedLastWins(ts: seq<Task>, a: bool, b: bool)
    ensures SetAllCollapsed(SetAllCollapsed(ts, a), b) == SetAllCollapsed(ts, b)
  {
    var once := SetAllCollapsed(ts, a);
    SetAllCollapsedSpec(ts, a);
    SetAllCollapsedSpec(once, b);
    SameButFlagsTrans(ts, once, SetAllCollapsed(once, b));
    SetAllCollapsedUnique(ts, SetAllCollapsed(once, b), b);
  }

  /** Flags do not take part in the pre-order of ids. */
  lemma {:induction false} SameButFlagsIds(a: seq<Task>, b: seq<Task>)
    requires SameButFlags(a, b)
    ensures Ids(a) == Ids(b)
    decreases a
  {
    if a != [] {
      IdsCons(a);
      IdsCons(b);
      SameButFlagsIds(a[0].subtasks, b[0].subtasks);
      assert SameButFlags(a[1..], b[1..]) by {
        forall i | 0 <= i < |a[1..]|
          ensures a[1..][i] == a[i + 1] && b[1..][i] == b[i + 1]
        {
        }
      }
      SameButFlagsIds(a[1..], b[1..]);
    }
  }

  /** The loop of `setAllCollapsed`, recursing into each task's subtasks. */
  method SetAllCollapsedLoop(ts: seq<Task>, c: bool) returns (r: seq<Task>)
    ensures r == SetAllCollapsed(ts, c)
    decreases ts
  {
    SetAllCollapsedPointwise(ts, c);
    r := [];
    var i := 0;
    while i < |ts|
      invariant i <= |ts| && |r| == i
      invariant forall j :: 0 <= j < i ==> r[j] == CollapseOne(ts[j], c)
    {
      var t := ts[i];
      var sub := SetAllCollapsedLoop(t.subtasks, c);
      var flag := if |t.subtasks| > 0 then c else t.collapsed;
      r := r + [t.(collapsed := flag, subtasks := sub)];
      i := i + 1;
    }
  }

  /**
   * `collapseActive()` / `expandActive()`: set the flag of the selected task,
   * but only when it is found and has subtasks.
   */
  function SetActiveCollapsed(tasks: seq<Task>, id: string, c: bool): seq<Task>
  {
    match FindTaskInfoById(tasks, id)
    case None => tasks
    case Some(info) =>
      if |info.task.subtasks| == 0 then tasks
      else
        FindTaskInfoByIdSpec(tasks, id);
        SetArrayAt(tasks, info.parentPath, info.arr[info.index := info.task.(collapsed := c)])
  }

  lemma {:induction false} SameButFlagsRefl(a: seq<Task>)
    ensures SameButFlags(a, a)
    decreases a
  {
    forall i | 0 <= i < |a|
      ensures SameButFlags(a[i].subtasks, a[i].subtasks)
    {
      SameButFlagsRefl(a[i].subtasks);
    }
  }

  /** Writing back an array that differs only in flags changes only flags. */
  lemma {:induction false} SetArrayAtFlags(tasks: seq<Task>, path: seq<nat>, arr: seq<Task>)
    requires GetArrayByParentPath(tasks, path).Some? && SameButFlags(GetArrayByParentPath(tasks, path).value, arr)
    ensures SameButFlags(tasks, SetArrayAt(tasks, path, arr))
  {
    if path != [] {
      var i := path[0];
      var sub' := SetArrayAt(tasks[i].subtasks, path[1..], arr);
      SetArrayAtFlags(tasks[i].subtasks, path[1..], arr);
      SameButFlagsRefl(tasks);
      var r := SetArrayAt(tasks, path, arr);
      assert r == tasks[i := tasks[i].(subtasks := sub')];
      forall j | 0 <= j < |tasks|
        ensures SameButFlags(tasks[j].subtasks, r[j].subtasks)
      {
        if j != i {
          assert r[j] == tasks[j];
        }
      }
    }
  }

  /** Setting the flag of one task with children is a flags-only change of its array. */
  lemma FlagOnly(arr: seq<Task>, i: nat, c: bool)
    requires i < |arr| && |arr[i].subtasks| > 0
    ensures SameButFlags(arr, arr[i := arr[i].(collapsed := c)])
  {
    SameButFlagsRefl(arr);
    var r := arr[i := arr[i].(collapsed := c)];
    forall j | 0 <= j < |arr|
      ensures SameButFlags(arr[j].subtasks, r[j].subtasks)
    {
      assert r[j].subtasks == arr[j].subtasks;
    }
  }

  /**
   * Only the flag of the located task changes: the outline is the same but
   * for flags, in the located array only that task's entry differs, and as
   * records exactly that task's flag is traded for `c`.
   */
  lemma SetActiveCollapsedSpec(tasks: seq<Task>, id: string, c: bool)
    ensures Ids(SetActiveCollapsed(tasks, id, c)) == Ids(tasks)
    ensures SameButFlags(tasks, SetActiveCollapsed(tasks, id, c))
    ensures match FindTaskInfoById(tasks, id)
      case None => SetActiveCollapsed(tasks, id, c) == tasks
      case Some(info) =>
        Locates(tasks, info) &&
        if |info.task.subtasks| == 0 then SetActiveCollapsed(tasks, id, c) == tasks
        else
          var after := GetArrayByParentPath(SetActiveCollapsed(tasks, id, c), info.parentPath);
          && after.Some? && |after.value| == |info.arr|
          && after.value[info.index].collapsed == c
          && (forall j :: 0 <= j < |info.arr| ==>
               after.value[j] == if j == info.index then info.task.(collapsed := c) else info.arr[j])
          && var e := EntryOf(info.task, ArrayParent(tasks, info.parentPath, None));
             Bag(SetActiveCollapsed(tasks, id, c)) + multiset{e} == Bag(tasks) + multiset{e.(collapsed := c)}
  {
    FindTaskInfoByIdSpec(tasks, id);
    match FindTaskInfoById(tasks, id)
    case Some(info) =>
      if |info.task.subtasks| != 0 {
        var arr' := info.arr[info.index := info.task.(collapsed := c)];
        SameIdsReplace(info.arr, info.index, info.task.(collapsed := c));
        SetArrayAtSameIds(tasks, info.parentPath, arr');
        FlagOnly(info.arr, info.index, c);
        SetArrayAtFlags(tasks, info.parentPath, arr');
        FlagRecords(tasks, info, c);
      } else {
        SameButFlagsRefl(tasks);
      }
    case None =>
      SameButFlagsRefl(tasks);
  }

  /** Setting the located task's flag trades its record for one with the new flag. */
  lemma FlagRecords(tasks: seq<Task>, info: TaskInfo, c: bool)
    requires Locates(tasks, info)
    ensures var e := EntryOf(info.task, ArrayParent(tasks, info.parentPath, None));
      Bag(SetArrayAt(tasks, info.parentPath, info.arr[info.index := info.task.(collapsed := c)])) + multiset{e}
      == Bag(tasks) + multiset{e.(collapsed := c)}
  {
    var t, q := info.task, ArrayParent(tasks, info.parentPath, None);
    SetRowEntries(tasks, info.parentPath, info.index, t.(collapsed := c));
    SetRowOwn(Bag(SetArrayAt(tasks, info.parentPath, info.arr[info.index := t.(collapsed := c)])), Bag(tasks),
      EntryOf(t, q), EntryOf(t, q).(collapsed := c), multiset(Entries(t.subtasks, Some(t.id))));
  }

  /**
   * The caret of the row at `index` of the array at `parentPath`: a task with
   * subtasks has its flag flipped; on a childless task the click does nothing.
   */
  function ToggleCaret(tasks: seq<Task>, parentPath: seq<nat>, index: nat): seq<Task>
    requires IsRow(tasks, parentPath, index)
  {
    var arr := GetArrayByParentPath(tasks, parentPath).value;
    if |arr[index].subtasks| == 0 then tasks
    else SetArrayAt(tasks, parentPath, arr[index := arr[index].(collapsed := !arr[index].collapsed)])
  }

  /**
   * The caret changes only flags, keeps the pre-order, and as records trades
   * exactly the clicked task's flag for its negation.
   */
  lemma ToggleCaretSpec(tasks: seq<Task>, parentPath: seq<nat>, index: nat)
    requires IsRow(tasks, parentPath, index)
    ensures Ids(ToggleCaret(tasks, parentPath, index)) == Ids(tasks)
    ensures SameButFlags(tasks, ToggleCaret(tasks, parentPath, index))
    ensures var e := RowEntry(tasks, parentPath, index);
      if |GetArrayByParentPath(tasks, parentPath).value[index].subtasks| == 0 then ToggleCaret(tasks, parentPath, index) == tasks
      else Traded(tasks, ToggleCaret(tasks, parentPath, index), e, multiset{e.(collapsed := !e.collapsed)})
  {
    var arr := GetArrayByParentPath(tasks, parentPath).value;
    var t, q := arr[index], ArrayParent(tasks, parentPath, None);
    if |t.subtasks| == 0 {
      SameButFlagsRefl(tasks);
    } else {
      var arr' := arr[index := t.(collapsed := !t.collapsed)];
      SameIdsReplace(arr, index, t.(collapsed := !t.collapsed));
      SetArrayAtSameIds(tasks, parentPath, arr');
      FlagOnly(arr, index, !t.collapsed);
      SetArrayAtFlags(tasks, parentPath, arr');
      SetRowEntries(tasks, parentPath, index, t.(collapsed := !t.collapsed));
      SetRowOwn(Bag(SetArrayAt(tasks, parentPath, arr')), Bag(tasks),
        EntryOf(t, q), EntryOf(t, q).(collapsed := !t.collapsed), multiset(Entries(t.subtasks, Some(t.id))));
    }
  }

  /** Clicking the caret twice gives the outline back. */
  lemma ToggleCaretTwice(tasks: seq<Task>, parentPath: seq<nat>, index: nat)
    requires IsRow(tasks, parentPath, index)
    ensures IsRow(ToggleCaret(tasks, parentPath, index), parentPath, index)
    ensures ToggleCaret(ToggleCaret(tasks, parentPath, index), parentPath, index) == tasks
  {
    var arr := GetArrayByParentPath(tasks, parentPath).value;
    var t := arr[index];
    if |t.subtasks| != 0 {
      var arr' := arr[index := t.(collapsed := !t.collapsed)];
      assert arr'[index := arr'[index].(collapsed := !arr'[index].collapsed)] == arr;
      SetArrayAtTwice(tasks, parentPath, arr', arr);
      SetArrayAtSame(tasks, parentPath);
    }
  }
}
