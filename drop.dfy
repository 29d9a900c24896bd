/**
 * Drag-and-drop reordering, restricted to the same parent array and the same
 * date group. The "top"/"bottom" half of the target is an input: it comes
 * from pointer geometry.
 */
module DragDrop {
  import opened Wrappers
  import opened Dates
  import opened StableSort
  import opened Grouping
  import opened Tasks
  import opened Ordering
  import opened Records
  import opened Seqs

  /** `dragCtx`, recorded when a drag starts. */
  datatype DragCtx = DragCtx(draggedId: string, parentPath: seq<nat>, dateKey: string)

  /** The outcome of a drop: refused (with an error shown), ignored, or a new outline. */
  datatype DropOutcome = Refused | Unchanged | Moved(tasks: seq<Task>)

  /** `isDropAllowed(targetTask, targetParentPath)`. */
  predicate IsDropAllowed(ctx: Option<DragCtx>, target: Task, targetPath: seq<nat>)
  {
    ctx.Some? && ctx.value.parentPath == targetPath && GroupKeyOf(target) == ctx.value.dateKey
  }

  /** `arr.findIndex(t => t.id === id)`, with `None` for `-1`. */
  function IndexOfId(arr: seq<Task>, id: string): (r: Option<nat>)
    ensures r.Some? ==> r.value < |arr| && arr[r.value].id == id
    ensures r.Some? ==> forall j :: 0 <= j < r.value ==> arr[j].id != id
    ensures r.None? ==> forall j :: 0 <= j < |arr| ==> arr[j].id != id
  {
    if arr == [] then None
    else if arr[0].id == id then Some(0)
    else
      var r := IndexOfId(arr[1..], id);
      assert forall j :: 1 <= j < |arr| ==> arr[j] == arr[1..][j - 1];
      if r.Some? then Some(r.value + 1) else None
  }

  /** Where the dragged task is put back once it has been spliced out. */
  function InsertIndex(from: nat, to: nat, top: bool): nat
  {
    if top then (if from < to then to - 1 else to)
    else (if from < to then to else to + 1)
  }

  /** Splice the element at `from` out and back in at `InsertIndex`. */
  function MoveNextTo<T>(arr: seq<T>, from: nat, to: nat, top: bool): seq<T>
    requires from < |arr| && to < |arr| && from != to
  {
    var rest := arr[..from] + arr[from + 1..];
    var at := InsertIndex(from, to, top);
    rest[..at] + [arr[from]] + rest[at..]
  }

  /**
   * The move puts the dragged element immediately before the target (top) or
   * after it (bottom); taking the dragged element out again gives the array
   * with it removed, so the others keep their order.
   */
  lemma MoveNextToSpec<T>(arr: seq<T>, from: nat, to: nat, top: bool)
    requires from < |arr| && to < |arr| && from != to
    ensures var r, at := MoveNextTo(arr, from, to, top), InsertIndex(from, to, top);
      && |r| == |arr| && at < |r| && r[at] == arr[from]
      && r[..at] + r[at + 1..] == arr[..from] + arr[from + 1..]
      && (top ==> at + 1 < |r| && r[at + 1] == arr[to])
      && (!top ==> 0 < at && r[at - 1] == arr[to])
      && multiset(r) == multiset(arr)
  {
    MovePlaced(arr, from, to, top);
    MoveNeighbour(arr, from, to, top);
    MovePermutes(arr, from, to, top);
  }

  lemma MovePlaced<T>(arr: seq<T>, from: nat, to: nat, top: bool)
    requires from < |arr| && to < |arr| && from != to
    ensures var r, at := MoveNextTo(arr, from, to, top), InsertIndex(from, to, top);
      && |r| == |arr| && at < |r| && r[at] == arr[from]
      && r[..at] + r[at + 1..] == arr[..from] + arr[from + 1..]
  {
    MoveParts(arr[..from] + arr[from + 1..], InsertIndex(from, to, top), arr[from]);
  }

  lemma MoveNeighbour<T>(arr: seq<T>, from: nat, to: nat, top: bool)
    requires from < |arr| && to < |arr| && from != to
    ensures var r, at := MoveNextTo(arr, from, to, top), InsertIndex(from, to, top);
      && (top ==> at + 1 < |r| && r[at + 1] == arr[to])
      && (!top ==> 0 < at && r[at - 1] == arr[to])
  {
    var rest := arr[..from] + arr[from + 1..];
    var target := if from < to then to - 1 else to;
    assert rest[target] == arr[to] by {
      RemovedIndex(arr, from, target);
    }
    MoveParts(rest, InsertIndex(from, to, top), arr[from]);
  }

  lemma MovePermutes<T>(arr: seq<T>, from: nat, to: nat, top: bool)
    requires from < |arr| && to < |arr| && from != to
    ensures multiset(MoveNextTo(arr, from, to, top)) == multiset(arr)
  {
    MoveParts(arr[..from] + arr[from + 1..], InsertIndex(from, to, top), arr[from]);
    Split3(arr, from);
  }

  /** The elements after a removed position move down by one. */
  lemma RemovedIndex<T>(arr: seq<T>, from: nat, j: nat)
    requires from < |arr| && j < |arr| - 1
    ensures (arr[..from] + arr[from + 1..])[j] == if j < from then arr[j] else arr[j + 1]
  {
  }

  lemma MoveParts<T>(rest: seq<T>, at: nat, x: T)
    requires at <= |rest|
    ensures var r := rest[..at] + [x] + rest[at..];
      && |r| == |rest| + 1 && r[at] == x && r[..at] + r[at + 1..] == rest
      && (at < |rest| ==> r[at + 1] == rest[at])
      && (0 < at ==> r[at - 1] == rest[at - 1])
      && multiset(r) == multiset(rest) + multiset{x}
  {
    var r := rest[..at] + [x] + rest[at..];
    assert r[..at] == rest[..at] && r[at + 1..] == rest[at..];
    SplitAt(rest, at);
  }

  /**
   * The array half of the drop handler: locate both tasks by id, move, and
   * group. `None` when either id is missing from the array.
   */
  function DropArray(arr: seq<Task>, draggedId: string, targetId: string, top: bool): Option<seq<Task>>
    requires draggedId != targetId
  {
    var from, to := IndexOfId(arr, draggedId), IndexOfId(arr, targetId);
    if from.None? || to.None? then None
    else Some(GroupOrder(MoveNextTo(arr, from.value, to.value, top)))
  }

  /** The drop handler, for the target task shown at `targetPath`. */
  function Drop(tasks: seq<Task>, ctx: Option<DragCtx>, target: Task, targetPath: seq<nat>, top: bool): DropOutcome
    requires GetArrayByParentPath(tasks, targetPath).Some?
  {
    if !IsDropAllowed(ctx, target, targetPath) then Refused
    else if ctx.value.draggedId == target.id then Unchanged
    else
      match DropArray(GetArrayByParentPath(tasks, targetPath).value, ctx.value.draggedId, target.id, top)
      case None => Unchanged
      case Some(after) => Moved(SetArrayAt(tasks, targetPath, after))
  }

  /** A pair `x, y` adjacent in a sequence stays adjacent among the elements of their key. */
  lemma FilterPair<T>(p: seq<T>, x: T, y: T, q: seq<T>, key: T -> string, k: string)
    requires key(x) == k && key(y) == k
    ensures FilterKey(p + [x, y] + q, key, k) == FilterKey(p, key, k) + [x, y] + FilterKey(q, key, k)
  {
    FilterKeyAppend(p + [x, y], q, key, k);
    FilterKeyAppend(p, [x, y], key, k);
    FilterKeyAll([x, y], key, k);
  }

  /** `x` is directly followed by `y` among the elements with key `k`. */
  predicate AdjacentInGroup(s: seq<Task>, x: Task, y: Task, k: string)
  {
    var g := FilterKey(s, GroupKeyOf, k);
    exists i :: 0 <= i < |g| - 1 && g[i] == x && g[i + 1] == y
  }

  /**
   * A drop that finds both tasks gives a grouped permutation of the array.
   * Every other date group is untouched, and when the dragged task is in the
   * target's group it sits right before (top) or after (bottom) the target
   * within that group.
   */
  lemma DropArraySpec(arr: seq<Task>, draggedId: string, targetId: string, top: bool)
    requires draggedId != targetId
    ensures DropArray(arr, draggedId, targetId, top).None? <==>
      IndexOfId(arr, draggedId).None? || IndexOfId(arr, targetId).None?
    ensures DropArray(arr, draggedId, targetId, top).Some? ==>
      var after := DropArray(arr, draggedId, targetId, top).value;
      var moved, target := arr[IndexOfId(arr, draggedId).value], arr[IndexOfId(arr, targetId).value];
      && multiset(after) == multiset(arr)
      && Contiguous(after, GroupKeyOf) && RankSorted(after, GroupKeyOf, GroupSortKey)
      && (forall k :: k != GroupKeyOf(moved) ==> FilterKey(after, GroupKeyOf, k) == FilterKey(arr, GroupKeyOf, k))
      && (GroupKeyOf(moved) == GroupKeyOf(target) ==>
            if top then AdjacentInGroup(after, moved, target, GroupKeyOf(target))
            else AdjacentInGroup(after, target, moved, GroupKeyOf(target)))
  {
    var from, to := IndexOfId(arr, draggedId), IndexOfId(arr, targetId);
    if from.Some? && to.Some? {
      var f, t := from.value, to.value;
      var r := MoveNextTo(arr, f, t, top);
      MoveNextToSpec(arr, f, t, top);
      GroupOrderPermutation(r);
      GroupOrderGrouped(r);
      forall k | k != GroupKeyOf(arr[f])
        ensures FilterKey(GroupOrder(r), GroupKeyOf, k) == FilterKey(arr, GroupKeyOf, k)
      {
        GroupOrderStable(r, k);
        MovedFilter(arr, f, t, top, GroupKeyOf, k);
      }
      if GroupKeyOf(arr[f]) == GroupKeyOf(arr[t]) {
        MovedAdjacent(arr, f, t, top);
      }
    }
  }

  /** Filtering by a key other than the dragged element's sees no change. */
  lemma MovedFilter<T>(arr: seq<T>, f: nat, t: nat, top: bool, key: T -> string, k: string)
    requires f < |arr| && t < |arr| && f != t && k != key(arr[f])
    ensures FilterKey(MoveNextTo(arr, f, t, top), key, k) == FilterKey(arr, key, k)
  {
    var rest := arr[..f] + arr[f + 1..];
    var at := InsertIndex(f, t, top);
    var x := arr[f];
    assert FilterKey(MoveNextTo(arr, f, t, top), key, k) == FilterKey(rest, key, k) by {
      FilterSkip(rest[..at], x, rest[at..], key, k);
      SplitAt(rest, at);
    }
    assert FilterKey(arr, key, k) == FilterKey(rest, key, k) by {
      Split3(arr, f);
      FilterSkip(arr[..f], x, arr[f + 1..], key, k);
    }
  }

  /** An element of another key is invisible to the filter. */
  lemma FilterSkip<T>(p: seq<T>, x: T, q: seq<T>, key: T -> string, k: string)
    requires key(x) != k
    ensures FilterKey(p + [x] + q, key, k) == FilterKey(p + q, key, k)
  {
    FilterKeyNone([x], key, k);
    FilterKeyAppend(p + [x], q, key, k);
    FilterKeyAppend(p, [x], key, k);
    FilterKeyAppend(p, q, key, k);
    assert FilterKey(p, key, k) + [] == FilterKey(p, key, k);
  }

  /** With equal keys, the moved element is next to the target among the elements of that key. */
  lemma MovedPair<T>(arr: seq<T>, f: nat, t: nat, top: bool, key: T -> string)
    requires f < |arr| && t < |arr| && f != t && key(arr[f]) == key(arr[t])
    ensures var g := FilterKey(MoveNextTo(arr, f, t, top), key, key(arr[t]));
      exists i :: 0 <= i < |g| - 1 && g[i] == (if top then arr[f] else arr[t]) && g[i + 1] == (if top then arr[t] else arr[f])
  {
    var r, at := MoveNextTo(arr, f, t, top), InsertIndex(f, t, top);
    var k := key(arr[t]);
    MoveNextToSpec(arr, f, t, top);
    var i := if top then at else at - 1;
    var x, y := r[i], r[i + 1];
    SplitPair(r, i);
    FilterPair(r[..i], x, y, r[i + 2..], key, k);
    PairAt(FilterKey(r[..i], key, k), x, y, FilterKey(r[i + 2..], key, k));
  }

  /** Grouping keeps the pair adjacent within their group. */
  lemma MovedAdjacent(arr: seq<Task>, f: nat, t: nat, top: bool)
    requires f < |arr| && t < |arr| && f != t && GroupKeyOf(arr[f]) == GroupKeyOf(arr[t])
    ensures top ==> AdjacentInGroup(GroupOrder(MoveNextTo(arr, f, t, top)), arr[f], arr[t], GroupKeyOf(arr[t]))
    ensures !top ==> AdjacentInGroup(GroupOrder(MoveNextTo(arr, f, t, top)), arr[t], arr[f], GroupKeyOf(arr[t]))
  {
    MovedPair(arr, f, t, top, GroupKeyOf);
    GroupOrderStable(MoveNextTo(arr, f, t, top), GroupKeyOf(arr[t]));
  }

  /**
   * Only a drop the rules allow can change anything; a refused or ignored
   * drop leaves the outline as it was. A completed move keeps every task
   * exactly once, and rewrites only the target's array.
   */
  lemma DropSpec(tasks: seq<Task>, ctx: Option<DragCtx>, target: Task, targetPath: seq<nat>, top: bool)
    requires GetArrayByParentPath(tasks, targetPath).Some?
    ensures Drop(tasks, ctx, target, targetPath, top).Refused? <==> !IsDropAllowed(ctx, target, targetPath)
    ensures IsDropAllowed(ctx, target, targetPath) && ctx.value.draggedId == target.id ==>
      Drop(tasks, ctx, target, targetPath, top).Unchanged?
    ensures Drop(tasks, ctx, target, targetPath, top).Moved? ==>
      var r := Drop(tasks, ctx, target, targetPath, top).tasks;
      && multiset(Ids(r)) == multiset(Ids(tasks))
      && GetArrayByParentPath(r, targetPath).Some?
      && multiset(GetArrayByParentPath(r, targetPath).value) == multiset(GetArrayByParentPath(tasks, targetPath).value)
      && Bag(r) == Bag(tasks)
  {
    var d := Drop(tasks, ctx, target, targetPath, top);
    if d.Moved? {
      var arr := GetArrayByParentPath(tasks, targetPath).value;
      DropArraySpec(arr, ctx.value.draggedId, target.id, top);
      var after := DropArray(arr, ctx.value.draggedId, target.id, top).value;
      PermutationIds(after, arr);
      SetArrayAtPermutes(tasks, targetPath, after);
      SetArrayAtPermutedEntries(tasks, targetPath, after);
    }
  }

  /**
   * What the `dragstart` listener of one row writes. `rowPath` is the row's
   * parent path followed by its index.
   */
  function CtxOfRow(tasks: seq<Task>, rowPath: seq<nat>): DragCtx
    requires rowPath != [] && GetArrayByParentPath(tasks, rowPath).Some?
  {
    RowOfPath(tasks, rowPath);
    var parentPath := rowPath[..|rowPath| - 1];
    var t := GetArrayByParentPath(tasks, parentPath).value[rowPath[|rowPath| - 1]];
    DragCtx(t.id, parentPath, DateKeyForGrouping(t.date))
  }

  /**
   * The `dragCtx` writes of one `dragstart` on the row at `rowPath`, in the
   * order the listeners run: the row's own `li` first, then, as the event
   * bubbles, the `li` of each enclosing task, none of which stops it.
   */
  function DragStartWrites(tasks: seq<Task>, rowPath: seq<nat>): (w: seq<DragCtx>)
    requires rowPath != [] && GetArrayByParentPath(tasks, rowPath).Some?
    ensures |w| == |rowPath| && w[0] == CtxOfRow(tasks, rowPath)
    decreases |rowPath|
  {
    RowOfPath(tasks, rowPath);
    if |rowPath| == 1 then [CtxOfRow(tasks, rowPath)]
    else [CtxOfRow(tasks, rowPath)] + DragStartWrites(tasks, rowPath[..|rowPath| - 1])
  }

  /**
   * The last write wins: once the event has bubbled, `dragCtx` names the
   * row's root-level ancestor, at the root path, whatever row was dragged.
   */
  lemma {:induction false} DragStartBubbles(tasks: seq<Task>, rowPath: seq<nat>)
    requires rowPath != [] && GetArrayByParentPath(tasks, rowPath).Some?
    ensures var w := DragStartWrites(tasks, rowPath);
      w[|w| - 1] == DragCtx(tasks[rowPath[0]].id, [], DateKeyForGrouping(tasks[rowPath[0]].date))
    decreases |rowPath|
  {
    RowOfPath(tasks, rowPath);
    if |rowPath| == 1 {
      assert rowPath[..0] == [];
    } else {
      var up := rowPath[..|rowPath| - 1];
      DragStartBubbles(tasks, up);
      assert up[0] == rowPath[0];
    }
  }

  /** So every drop on a nested row is refused, whichever row the drag started on. */
  lemma NestedDropRefused(tasks: seq<Task>, rowPath: seq<nat>, target: Task, targetPath: seq<nat>)
    requires rowPath != [] && GetArrayByParentPath(tasks, rowPath).Some? && targetPath != []
    ensures var w := DragStartWrites(tasks, rowPath);
      !IsDropAllowed(Some(w[|w| - 1]), target, targetPath)
  {
    DragStartBubbles(tasks, rowPath);
  }

  /**
   * A task with one child: the child's own listener records the child, but
   * the parent's listener runs last and records the parent instead.
   */
  lemma DragChildRecordsParent()
    ensures var tasks := [Task("p", None, "", [Task("a", None, "", [], false)], false)];
      && GetArrayByParentPath(tasks, [0, 0]).Some?
      && var w := DragStartWrites(tasks, [0, 0]);
         && w[0] == DragCtx("a", [0], NoDateGroupKey)
         && w[|w| - 1] == DragCtx("p", [], NoDateGroupKey)
  {
    var child := Task("a", None, "", [], false);
    var tasks := [Task("p", None, "", [child], false)];
    assert [0, 0][1..] == [0] && [0][1..] == [] && [0, 0][..1] == [0];
    assert GetArrayByParentPath(tasks, [0, 0]) == GetArrayByParentPath([child], [0]) == Some([]);
    assert GetArrayByParentPath(tasks, [0]) == Some([child]);
    DragStartBubbles(tasks, [0, 0]);
  }

  /**
   * With one listener per drag, as the restriction to the same parent and
   * date group intends, a nested row can be dropped on any sibling in its
   * date group.
   */
  lemma SiblingDropAllowed(tasks: seq<Task>, rowPath: seq<nat>, target: Task)
    requires rowPath != [] && GetArrayByParentPath(tasks, rowPath).Some?
    requires GroupKeyOf(target) == CtxOfRow(tasks, rowPath).dateKey
    ensures IsDropAllowed(Some(CtxOfRow(tasks, rowPath)), target, rowPath[..|rowPath| - 1])
  {
  }
}
