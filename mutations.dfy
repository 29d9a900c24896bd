/**
 * The structural edits of the outline: delete, indent, outdent, the add
 * operations, expand/collapse, date changes and drag-and-drop reordering.
 * Each in-place edit of a sibling array is a function returning the outline
 * with that array replaced (`SetArrayAt`); the lemmas say what happens to the
 * depth-first order of ids, so that nothing is lost or duplicated.
 */
module Mutations {
  import opened Wrappers
  import opened Text
  import opened Dates
  import opened StableSort
  import opened Grouping
  import opened Tasks
  import opened Ordering
  import opened Records
  import opened Seqs

  // ----- Sequence helpers -----

  /** Cutting `m` out of the middle of the run `x[s..s+w] == a + m + b`. */
  lemma CutMiddle<T>(x: seq<T>, s: nat, w: nat, a: seq<T>, m: seq<T>, b: seq<T>)
    requires s + w <= |x| && x[s..s + w] == a + m + b
    ensures s + |a| + |m| <= |x|
    ensures x[s + |a|..s + |a| + |m|] == m
    ensures Splice(x, s, w, a + b) == x[..s + |a|] + x[s + |a| + |m|..]
  {
    CutFront(x, s, w, a, m, b);
    CutBack(x, s, w, a, m, b);
    CutRunItself(x, s, w, a, m, b);
    Assoc(x[..s], a, b);
    Assoc(x[..s] + a, b, x[s + w..]);
  }

  lemma CutFront<T>(x: seq<T>, s: nat, w: nat, a: seq<T>, m: seq<T>, b: seq<T>)
    requires s + w <= |x| && x[s..s + w] == a + m + b
    ensures x[..s + |a|] == x[..s] + a
  {
    assert x[s..s + w][..|a|] == a;
  }

  lemma CutBack<T>(x: seq<T>, s: nat, w: nat, a: seq<T>, m: seq<T>, b: seq<T>)
    requires s + w <= |x| && x[s..s + w] == a + m + b
    ensures x[s + |a| + |m|..] == b + x[s + w..]
  {
    assert x[s..s + w][|a| + |m|..] == b;
  }

  lemma CutRunItself<T>(x: seq<T>, s: nat, w: nat, a: seq<T>, m: seq<T>, b: seq<T>)
    requires s + w <= |x| && x[s..s + w] == a + m + b
    ensures x[s + |a|..s + |a| + |m|] == m
  {
    var run := x[s..s + w];
    assert |run| == |a| + |m| + |b|;
    assert run[|a|..|a| + |m|] == m;
    forall j | 0 <= j < |m|
      ensures x[s + |a|..s + |a| + |m|][j] == m[j]
    {
      assert run[|a| + j] == m[j];
    }
  }

  /** `y` is `x` with the run `m`, found at position `k`, cut out. */
  ghost predicate IsCut<T>(x: seq<T>, k: nat, m: seq<T>, y: seq<T>)
  {
    k + |m| <= |x| && x[k..k + |m|] == m && y == x[..k] + x[k + |m|..]
  }

  /** `CutMiddle` with the run's position named. */
  lemma CutRun<T>(x: seq<T>, s: nat, w: nat, a: seq<T>, m: seq<T>, b: seq<T>, y: seq<T>, k: nat)
    requires s + w <= |x| && x[s..s + w] == a + m + b
    requires k == s + |a|
    requires y == Splice(x, s, w, a + b)
    ensures IsCut(x, k, m, y)
  {
    CutMiddle(x, s, w, a, m, b);
  }

  /** One step down a path: the children of entry `j` of the array reached. */
  lemma {:induction false} GetArrayChild(tasks: seq<Task>, path: seq<nat>, j: nat)
    requires GetArrayByParentPath(tasks, path).Some? && j < |GetArrayByParentPath(tasks, path).value|
    ensures GetArrayByParentPath(tasks, path + [j]) == Some(GetArrayByParentPath(tasks, path).value[j].subtasks)
  {
    if path != [] {
      assert (path + [j])[0] == path[0] && (path + [j])[1..] == path[1..] + [j];
      GetArrayChild(tasks[path[0]].subtasks, path[1..], j);
    } else {
      assert [j][1..] == [];
    }
  }

  // ----- Delete (`removeTaskRecursive`) -----

  /** `removeTaskRecursive(tasks, id)`: whether a task was removed, and the outline after. */
  function RemoveTask(tasks: seq<Task>, id: string): (bool, seq<Task>)
  {
    match FindTaskInfoById(tasks, id)
    case None => (false, tasks)
    case Some(info) =>
      FindTaskInfoByIdSpec(tasks, id);
      (true, SetArrayAt(tasks, info.parentPath, info.arr[..info.index] + info.arr[info.index + 1..]))
  }

  /**
   * A task is removed exactly when the id occurs. The first occurrence in
   * depth-first order goes, together with its whole subtree; every other id
   * stays, in the same order.
   */
  lemma RemoveTaskSpec(tasks: seq<Task>, id: string)
    ensures RemoveTask(tasks, id).0 <==> id in Ids(tasks)
    ensures !RemoveTask(tasks, id).0 ==> RemoveTask(tasks, id).1 == tasks
    ensures RemoveTask(tasks, id).0 ==>
      var t := FindTaskInfoById(tasks, id).value.task;
      exists k: nat :: IsCut(Ids(tasks), k, [id] + Ids(t.subtasks), Ids(RemoveTask(tasks, id).1)) && id !in Ids(tasks)[..k]
    ensures RemoveTask(tasks, id).0 ==>
      var info := FindTaskInfoById(tasks, id).value;
      Locates(tasks, info)
      && Bag(RemoveTask(tasks, id).1) + Subtree(info.task, ArrayParent(tasks, info.parentPath, None)) == Bag(tasks)
  {
    FindTaskInfoByIdSpec(tasks, id);
    if id in Ids(tasks) {
      var info := FindTaskInfoById(tasks, id).value;
      RemoveAt(tasks, info);
      RemoveAtEntries(tasks, info);
      var k := PreIndex(tasks, info);
      assert id !in Ids(tasks)[..k];
    }
  }

  /** Splicing the located task out of its array cuts its subtree's run out of the pre-order. */
  lemma RemoveAt(tasks: seq<Task>, info: TaskInfo)
    requires Locates(tasks, info)
    ensures IsCut(Ids(tasks), PreIndex(tasks, info), [info.task.id] + Ids(info.task.subtasks),
      Ids(SetArrayAt(tasks, info.parentPath, info.arr[..info.index] + info.arr[info.index + 1..])))
  {
    var arr, i, t, pp := info.arr, info.index, info.task, info.parentPath;
    var rest := arr[..i] + arr[i + 1..];
    var x, s, w := Ids(tasks), StartOf(tasks, pp), Width(tasks, pp);
    var a, m, b := Ids(arr[..i]), [t.id] + Ids(t.subtasks), Ids(arr[i + 1..]);
    RemovedIds(arr, i);
    ArrayIdsSlice(tasks, pp);
    var y := Ids(SetArrayAt(tasks, pp, rest));
    SetArrayAtIds(tasks, pp, rest);
    CutRun(x, s, w, a, m, b, y, PreIndex(tasks, info));
  }

  /** The pre-order of a sibling array around entry `i`, with and without that entry's subtree. */
  lemma RemovedIds(arr: seq<Task>, i: nat)
    requires i < |arr|
    ensures Ids(arr) == Ids(arr[..i]) + ([arr[i].id] + Ids(arr[i].subtasks)) + Ids(arr[i + 1..])
    ensures Ids(arr[..i] + arr[i + 1..]) == Ids(arr[..i]) + Ids(arr[i + 1..])
  {
    IdsSplitWhole(arr, i);
    Assoc(Ids(arr[..i]), [arr[i].id], Ids(arr[i].subtasks));
    IdsAppend(arr[..i], arr[i + 1..]);
  }

  /** Splicing the located task out removes exactly the records of its subtree. */
  lemma RemoveAtEntries(tasks: seq<Task>, info: TaskInfo)
    requires Locates(tasks, info)
    ensures Bag(SetArrayAt(tasks, info.parentPath, info.arr[..info.index] + info.arr[info.index + 1..]))
      + Subtree(info.task, ArrayParent(tasks, info.parentPath, None)) == Bag(tasks)
  {
    var q := ArrayParent(tasks, info.parentPath, None);
    var rest := info.arr[..info.index] + info.arr[info.index + 1..];
    SetArrayAtEntries(tasks, info.parentPath, rest, None);
    EntriesRemoveAt(info.arr, info.index, q);
    Shed(Bag(SetArrayAt(tasks, info.parentPath, rest)), multiset(Entries(info.arr, q)), Bag(tasks),
      multiset(Entries(rest, q)), Subtree(info.task, q));
  }

  /** The loop-and-recursion of `removeTaskRecursive`, proved to compute `RemoveTask`. */
  method RemoveTaskRecursive(arr: seq<Task>, id: string) returns (removed: bool, r: seq<Task>)
    ensures (removed, r) == RemoveTask(arr, id)
    decreases arr
  {
    var i := 0;
    while i < |arr|
      invariant i <= |arr|
      invariant FindFrom(arr, id, 0) == FindFrom(arr, id, i)
    {
      if arr[i].id == id {
        return true, arr[..i] + arr[i + 1..];
      }
      var below, sub := RemoveTaskRecursive(arr[i].subtasks, id);
      if below {
        FindTaskInfoByIdSpec(arr[i].subtasks, id);
        return true, arr[i := arr[i].(subtasks := sub)];
      }
      i := i + 1;
    }
    return false, arr;
  }

  // ----- Indent (`indentActive`) -----

  /** The task at `i` becomes the last child of its previous sibling, which is expanded. */
  function IndentIn(arr: seq<Task>, i: nat): (r: seq<Task>)
    requires 0 < i < |arr|
    ensures |r| == |arr| - 1 && r[..i - 1] == arr[..i - 1] && r[i..] == arr[i + 1..]
    ensures r[i - 1].subtasks == arr[i - 1].subtasks + [arr[i]] && !r[i - 1].collapsed
  {
    var prev := arr[i - 1];
    arr[..i - 1] + [prev.(subtasks := prev.subtasks + [arr[i]], collapsed := false)] + arr[i + 1..]
  }

  /** Indenting does not change the depth-first order of the sibling array. */
  lemma IndentInIds(arr: seq<Task>, i: nat)
    requires 0 < i < |arr|
    ensures Ids(IndentIn(arr, i)) == Ids(arr)
  {
    var r, prev, t := IndentIn(arr, i), arr[i - 1], arr[i];
    IdsSplitWhole(arr, i - 1);
    IdsSplitWhole(r, i - 1);
    IdsFrom(arr, i);
    IdsAppend(prev.subtasks, [t]);
    IdsCons([t]);
    assert arr[i - 1 + 1..] == arr[i..];
    assert [t][1..] == [];
    var a, c, d, b := Ids(arr[..i - 1]), Ids(prev.subtasks), [t.id] + Ids(t.subtasks), Ids(arr[i + 1..]);
    assert Ids(arr) == a + [prev.id] + c + (d + b);
    assert Ids([t]) == d by {
      assert Ids([t][1..]) == [];
    }
    assert Ids(r[i - 1].subtasks) == c + d;
    assert r[i - 1].id == prev.id;
    assert Ids(r[..i - 1]) == a;
    assert Ids(r[i - 1 + 1..]) == b;
    assert Ids(r) == a + [prev.id] + (c + d) + b;
    Assoc4(a + [prev.id], c, d, b);
  }

  lemma Assoc4<T>(a: seq<T>, b: seq<T>, c: seq<T>, d: seq<T>)
    ensures a + b + (c + d) == a + (b + c) + d
  {
  }

  /** `indentActive()` for the task with id `id`: no change when it is absent or first among its siblings. */
  function Indent(tasks: seq<Task>, id: string): seq<Task>
  {
    match FindTaskInfoById(tasks, id)
    case None => tasks
    case Some(info) =>
      if info.index == 0 then tasks
      else
        FindTaskInfoByIdSpec(tasks, id);
        SetArrayAt(tasks, info.parentPath, IndentIn(info.arr, info.index))
  }

  /**
   * Indent keeps the whole depth-first order of ids, so no task is lost or
   * duplicated; the moved task becomes the last child of the sibling before
   * it, and that sibling is expanded.
   */
  lemma IndentSpec(tasks: seq<Task>, id: string)
    ensures Ids(Indent(tasks, id)) == Ids(tasks)
    ensures match FindTaskInfoById(tasks, id)
      case None => Indent(tasks, id) == tasks
      case Some(info) =>
        Locates(tasks, info) &&
        if info.index == 0 then Indent(tasks, id) == tasks
        else
          && GetArrayByParentPath(Indent(tasks, id), info.parentPath) == Some(IndentIn(info.arr, info.index))
          && GetArrayByParentPath(Indent(tasks, id), info.parentPath + [info.index - 1])
             == Some(info.arr[info.index - 1].subtasks + [info.task])
  {
    FindTaskInfoByIdSpec(tasks, id);
    match FindTaskInfoById(tasks, id)
    case None =>
    case Some(info) =>
      if info.index != 0 {
        var pp, arr' := info.parentPath, IndentIn(info.arr, info.index);
        IndentInIds(info.arr, info.index);
        SetArrayAtSameIds(tasks, pp, arr');
        GetArrayChild(SetArrayAt(tasks, pp, arr'), pp, info.index - 1);
      }
  }

  // ----- Outdent (`outdentActive`) -----

  /**
   * The grandparent array with child `i` of entry `p` taken out of that
   * entry's subtasks and inserted right after it.
   */
  function OutdentIn(grand: seq<Task>, p: nat, i: nat): (r: seq<Task>)
    requires p < |grand| && i < |grand[p].subtasks|
    ensures |r| == |grand| + 1
    ensures r[..p] == grand[..p] && r[p + 2..] == grand[p + 1..]
    ensures r[p] == grand[p].(subtasks := grand[p].subtasks[..i] + grand[p].subtasks[i + 1..])
    ensures r[p + 1] == grand[p].subtasks[i]
  {
    var parent := grand[p];
    var rest := parent.subtasks[..i] + parent.subtasks[i + 1..];
    grand[..p] + [parent.(subtasks := rest), parent.subtasks[i]] + grand[p + 1..]
  }

  /** Outdenting moves a subtree but keeps every id of the grandparent array, with its multiplicity. */
  lemma OutdentInIds(grand: seq<Task>, p: nat, i: nat)
    requires p < |grand| && i < |grand[p].subtasks|
    ensures multiset(Ids(OutdentIn(grand, p, i))) == multiset(Ids(grand))
  {
    var r, parent := OutdentIn(grand, p, i), grand[p];
    var sub, t := parent.subtasks, parent.subtasks[i];
    var a, s1, m, s2, b := Ids(grand[..p]), Ids(sub[..i]), [t.id] + Ids(t.subtasks), Ids(sub[i + 1..]), Ids(grand[p + 1..]);
    assert Ids(grand) == a + [parent.id] + Ids(sub) + b by {
      IdsSplitWhole(grand, p);
    }
    assert Ids(sub) == s1 + m + s2 by {
      IdsSplitWhole(sub, i);
      Assoc(s1, [t.id], Ids(t.subtasks));
    }
    assert Ids(r[p].subtasks) == s1 + s2 by {
      IdsAppend(sub[..i], sub[i + 1..]);
    }
    assert Ids(r[p + 1..]) == m + b by {
      IdsFrom(r, p + 1);
    }
    assert Ids(r) == a + [parent.id] + Ids(r[p].subtasks) + Ids(r[p + 1..]) by {
      IdsSplitWhole(r, p);
    }
    MultisetMoveRun(a + [parent.id], s1, m, s2, b);
  }

  /** Moving a run to just after its neighbours keeps the multiset. */
  lemma MultisetMoveRun<T>(a: seq<T>, s1: seq<T>, m: seq<T>, s2: seq<T>, b: seq<T>)
    ensures multiset(a + (s1 + s2) + (m + b)) == multiset(a + (s1 + m + s2) + b)
  {
  }

  /**
   * `outdentActive()`: no change when the task is absent or at the root;
   * otherwise the task moves next to its former parent, and the grandparent
   * array is group-ordered.
   */
  function Outdent(tasks: seq<Task>, id: string): seq<Task>
  {
    match FindTaskInfoById(tasks, id)
    case None => tasks
    case Some(info) =>
      if info.parentPath == [] then tasks
      else
        FindTaskInfoByIdSpec(tasks, id);
        OutdentAt(tasks, info)
  }

  /** The grandparent path, the parent's index in it, and the grandparent array of a nested task. */
  function GrandPath(info: TaskInfo): seq<nat>
    requires info.parentPath != []
  {
    info.parentPath[..|info.parentPath| - 1]
  }

  function ParentIndex(info: TaskInfo): nat
    requires info.parentPath != []
  {
    info.parentPath[|info.parentPath| - 1]
  }

  function OutdentAt(tasks: seq<Task>, info: TaskInfo): seq<Task>
    requires Locates(tasks, info) && info.parentPath != []
  {
    GetArrayParent(tasks, info.parentPath);
    var grand := GetArrayByParentPath(tasks, GrandPath(info)).value;
    SetArrayAt(tasks, GrandPath(info), GroupOrder(OutdentIn(grand, ParentIndex(info), info.index)))
  }

  /**
   * Outdent keeps every id with its multiplicity; the grandparent array ends
   * up a group-ordered permutation of itself in which the former parent has
   * lost the task and the task has joined as a sibling.
   */
  lemma OutdentSpec(tasks: seq<Task>, id: string)
    ensures multiset(Ids(Outdent(tasks, id))) == multiset(Ids(tasks))
    ensures match FindTaskInfoById(tasks, id)
      case None => Outdent(tasks, id) == tasks
      case Some(info) =>
        Locates(tasks, info) &&
        if info.parentPath == [] then Outdent(tasks, id) == tasks
        else OutdentMoves(tasks, info, Outdent(tasks, id))
  {
    FindTaskInfoByIdSpec(tasks, id);
    match FindTaskInfoById(tasks, id)
    case None =>
    case Some(info) =>
      if info.parentPath != [] {
        OutdentAtSpec(tasks, info);
      }
  }

  /** What outdenting the located task does: the grandparent array, before and after. */
  ghost predicate OutdentMoves(tasks: seq<Task>, info: TaskInfo, r: seq<Task>)
    requires info.parentPath != []
  {
    var gp := GrandPath(info);
    && GetArrayByParentPath(tasks, gp).Some?
    && GetArrayByParentPath(r, gp).Some?
    && GrandMoves(GetArrayByParentPath(tasks, gp).value, GetArrayByParentPath(r, gp).value, ParentIndex(info), info.index)
  }

  /**
   * `after` is a group-ordered permutation of `grand` in which entry `p` has
   * lost its child `i` and that child has joined as a sibling; within each
   * date group the order is that of `OutdentIn`, which puts the child right
   * after its former parent.
   */
  ghost predicate GrandMoves(grand: seq<Task>, after: seq<Task>, p: nat, i: nat)
  {
    && p < |grand| && i < |grand[p].subtasks|
    && multiset(after) == multiset(grand) - multiset{grand[p]}
         + multiset{grand[p].(subtasks := grand[p].subtasks[..i] + grand[p].subtasks[i + 1..]), grand[p].subtasks[i]}
    && Contiguous(after, GroupKeyOf)
    && RankSorted(after, GroupKeyOf, GroupSortKey)
    && forall k :: FilterKey(after, GroupKeyOf, k) == FilterKey(OutdentIn(grand, p, i), GroupKeyOf, k)
  }

  lemma OutdentAtSpec(tasks: seq<Task>, info: TaskInfo)
    requires Locates(tasks, info) && info.parentPath != []
    ensures multiset(Ids(OutdentAt(tasks, info))) == multiset(Ids(tasks))
    ensures OutdentMoves(tasks, info, OutdentAt(tasks, info))
  {
    GetArrayParent(tasks, info.parentPath);
    var gp, p := GrandPath(info), ParentIndex(info);
    var grand := GetArrayByParentPath(tasks, gp).value;
    OutdentAtIds(tasks, gp, grand, p, info.index);
    OutdentAtMoves(tasks, info);
  }

  lemma OutdentAtMoves(tasks: seq<Task>, info: TaskInfo)
    requires Locates(tasks, info) && info.parentPath != []
    ensures OutdentMoves(tasks, info, OutdentAt(tasks, info))
  {
    GetArrayParent(tasks, info.parentPath);
    var gp, p := GrandPath(info), ParentIndex(info);
    var grand := GetArrayByParentPath(tasks, gp).value;
    var after := GroupOrder(OutdentIn(grand, p, info.index));
    assert GetArrayByParentPath(OutdentAt(tasks, info), gp) == Some(after);
    OutdentGrand(grand, p, info.index);
  }

  /** The grandparent array after an outdent. */
  lemma OutdentGrand(grand: seq<Task>, p: nat, i: nat)
    requires p < |grand| && i < |grand[p].subtasks|
    ensures GrandMoves(grand, GroupOrder(OutdentIn(grand, p, i)), p, i)
  {
    var moved := OutdentIn(grand, p, i);
    GroupOrderPermutation(moved);
    GroupOrderGrouped(moved);
    OutdentInMultiset(grand, p, i);
    forall k
      ensures FilterKey(GroupOrder(moved), GroupKeyOf, k) == FilterKey(moved, GroupKeyOf, k)
    {
      GroupOrderStable(moved, k);
    }
  }

  lemma OutdentAtIds(tasks: seq<Task>, gp: seq<nat>, grand: seq<Task>, p: nat, i: nat)
    requires GetArrayByParentPath(tasks, gp) == Some(grand)
    requires p < |grand| && i < |grand[p].subtasks|
    ensures multiset(Ids(SetArrayAt(tasks, gp, GroupOrder(OutdentIn(grand, p, i))))) == multiset(Ids(tasks))
  {
    var moved := OutdentIn(grand, p, i);
    OutdentInIds(grand, p, i);
    GroupOrderPermutation(moved);
    PermutationIds(GroupOrder(moved), moved);
    SetArrayAtPermutes(tasks, gp, GroupOrder(moved));
  }

  lemma OutdentInMultiset(grand: seq<Task>, p: nat, i: nat)
    requires p < |grand| && i < |grand[p].subtasks|
    ensures multiset(OutdentIn(grand, p, i)) == multiset(grand) - multiset{grand[p]}
      + multiset{grand[p].(subtasks := grand[p].subtasks[..i] + grand[p].subtasks[i + 1..]), grand[p].subtasks[i]}
  {
    var r := OutdentIn(grand, p, i);
    assert grand == grand[..p] + [grand[p]] + grand[p + 1..];
    assert r == grand[..p] + [r[p], r[p + 1]] + grand[p + 1..];
  }

  // ----- Adding tasks -----

  /** A task without subtasks contributes just its own id. */
  lemma LeafIds(t: Task)
    requires t.subtasks == []
    ensures Ids([t]) == [t.id]
  {
    IdsCons([t]);
    assert [t][1..] == [];
  }

  /** A new task inserted into a sibling array (anywhere) adds just its id. */
  lemma InsertIds(arr: seq<Task>, at: nat, t: Task)
    requires at <= |arr| && t.subtasks == []
    ensures multiset(Ids(arr[..at] + [t] + arr[at..])) == multiset(Ids(arr)) + multiset{t.id}
  {
    var a, b := Ids(arr[..at]), Ids(arr[at..]);
    assert Ids(arr[..at] + [t]) == a + [t.id] by {
      LeafIds(t);
      IdsAppend(arr[..at], [t]);
    }
    assert Ids(arr[..at] + [t] + arr[at..]) == a + [t.id] + b by {
      IdsAppend(arr[..at] + [t], arr[at..]);
    }
    assert Ids(arr) == a + b by {
      IdsAppend(arr[..at], arr[at..]);
      SplitAt(arr, at);
    }
    MultisetInsert(a, t.id, b);
  }

  lemma MultisetInsert<T>(a: seq<T>, x: T, b: seq<T>)
    ensures multiset(a + [x] + b) == multiset(a + b) + multiset{x}
  {
  }

  /** Filtering a sequence with one element inserted. */
  lemma FilterInsert(p: seq<Task>, t: Task, q: seq<Task>, k: string)
    ensures FilterKey(p + [t] + q, GroupKeyOf, k) ==
      FilterKey(p, GroupKeyOf, k) + (if GroupKeyOf(t) == k then [t] else []) + FilterKey(q, GroupKeyOf, k)
  {
    FilterKeyAppend(p + [t], q, GroupKeyOf, k);
    FilterKeyAppend(p, [t], GroupKeyOf, k);
  }

  /** `addSiblingAfterActive()`: a blank task with the same date goes right after the selected one. */
  function AddSiblingAfter(tasks: seq<Task>, id: string, newId: string): seq<Task>
  {
    match FindTaskInfoById(tasks, id)
    case None => tasks
    case Some(info) =>
      FindTaskInfoByIdSpec(tasks, id);
      var arr, i := info.arr, info.index;
      var blank := MakeNewTask(newId, info.task.date, "");
      SetArrayAt(tasks, info.parentPath, GroupOrder(arr[..i + 1] + [blank] + arr[i + 1..]))
  }

  /**
   * The new task joins the selected task's date group immediately after it,
   * every other group keeps its members and order, the array stays grouped,
   * and the outline gains exactly the new id.
   */
  lemma AddSiblingAfterSpec(tasks: seq<Task>, id: string, newId: string)
    ensures match FindTaskInfoById(tasks, id)
      case None => AddSiblingAfter(tasks, id, newId) == tasks
      case Some(info) =>
        && Locates(tasks, info)
        && multiset(Ids(AddSiblingAfter(tasks, id, newId))) == multiset(Ids(tasks)) + multiset{newId}
        && GetArrayByParentPath(AddSiblingAfter(tasks, id, newId), info.parentPath).Some?
        && var after, arr, i := GetArrayByParentPath(AddSiblingAfter(tasks, id, newId), info.parentPath).value, info.arr, info.index;
        && var k := GroupKeyOf(info.task);
        && FilterKey(after, GroupKeyOf, k) ==
             FilterKey(arr[..i + 1], GroupKeyOf, k) + [MakeNewTask(newId, info.task.date, "")] + FilterKey(arr[i + 1..], GroupKeyOf, k)
        && (forall k' :: k' != k ==> FilterKey(after, GroupKeyOf, k') == FilterKey(arr, GroupKeyOf, k'))
        && Contiguous(after, GroupKeyOf) && RankSorted(after, GroupKeyOf, GroupSortKey)
  {
    FindTaskInfoByIdSpec(tasks, id);
    match FindTaskInfoById(tasks, id)
    case None =>
    case Some(info) =>
      InsertedAfter(info.arr, info.index, MakeNewTask(newId, info.task.date, ""));
      var inserted := info.arr[..info.index + 1] + [MakeNewTask(newId, info.task.date, "")] + info.arr[info.index + 1..];
      SetArrayAtAdds(tasks, info.parentPath, GroupOrder(inserted), multiset{newId});
  }

  /** The array-level facts about inserting a task with the same date after entry `i` and grouping. */
  lemma InsertedAfter(arr: seq<Task>, i: nat, t: Task)
    requires i < |arr| && t.subtasks == [] && t.date == arr[i].date
    ensures var after := GroupOrder(arr[..i + 1] + [t] + arr[i + 1..]);
      && multiset(Ids(after)) == multiset(Ids(arr)) + multiset{t.id}
      && FilterKey(after, GroupKeyOf, GroupKeyOf(arr[i])) ==
           FilterKey(arr[..i + 1], GroupKeyOf, GroupKeyOf(arr[i])) + [t] + FilterKey(arr[i + 1..], GroupKeyOf, GroupKeyOf(arr[i]))
      && (forall k' :: k' != GroupKeyOf(arr[i]) ==> FilterKey(after, GroupKeyOf, k') == FilterKey(arr, GroupKeyOf, k'))
      && Contiguous(after, GroupKeyOf) && RankSorted(after, GroupKeyOf, GroupSortKey)
  {
    var inserted := arr[..i + 1] + [t] + arr[i + 1..];
    InsertIds(arr, i + 1, t);
    GroupOrderPermutation(inserted);
    PermutationIds(GroupOrder(inserted), inserted);
    GroupOrderGrouped(inserted);
    InsertedFilters(arr[..i + 1], t, arr[i + 1..]);
    SplitAt(arr, i + 1);
  }

  /** Grouping after inserting `t` between `p` and `q`: only `t`'s own group gains a member. */
  lemma InsertedFilters(p: seq<Task>, t: Task, q: seq<Task>)
    ensures var after := GroupOrder(p + [t] + q);
      && FilterKey(after, GroupKeyOf, GroupKeyOf(t)) ==
           FilterKey(p, GroupKeyOf, GroupKeyOf(t)) + [t] + FilterKey(q, GroupKeyOf, GroupKeyOf(t))
      && forall k :: k != GroupKeyOf(t) ==> FilterKey(after, GroupKeyOf, k) == FilterKey(p + q, GroupKeyOf, k)
  {
    forall k
      ensures FilterKey(GroupOrder(p + [t] + q), GroupKeyOf, k) ==
        FilterKey(p, GroupKeyOf, k) + (if GroupKeyOf(t) == k then [t] else []) + FilterKey(q, GroupKeyOf, k)
    {
      GroupOrderStable(p + [t] + q, k);
      FilterInsert(p, t, q, k);
    }
    forall k
      ensures FilterKey(p + q, GroupKeyOf, k) == FilterKey(p, GroupKeyOf, k) + FilterKey(q, GroupKeyOf, k)
    {
      FilterKeyAppend(p, q, GroupKeyOf, k);
    }
  }

  /** A task with a blank, undated child appended and its subtasks expanded. */
  function WithChild(t: Task, newId: string): Task
  {
    t.(subtasks := t.subtasks + [MakeNewTask(newId, None, "")], collapsed := false)
  }

  /**
   * The "Add Subtask" button of the row at `index` of the array at
   * `parentPath`: that task gets a blank, undated child and is expanded,
   * then every array is re-sorted.
   */
  function AddSubtask(tasks: seq<Task>, parentPath: seq<nat>, index: nat, newId: string): seq<Task>
    requires IsRow(tasks, parentPath, index)
  {
    var arr := GetArrayByParentPath(tasks, parentPath).value;
    SortAll(SetArrayAt(tasks, parentPath, arr[index := WithChild(arr[index], newId)]))
  }

  /**
   * The outline gains exactly the new id and comes out sorted at every depth.
   * As records, the clicked task is now expanded, the new blank task sits
   * under it, and every other task keeps its fields and its parent.
   */
  lemma AddSubtaskSpec(tasks: seq<Task>, parentPath: seq<nat>, index: nat, newId: string)
    requires IsRow(tasks, parentPath, index)
    ensures var r := AddSubtask(tasks, parentPath, index, newId);
      && multiset(Ids(r)) == multiset(Ids(tasks)) + multiset{newId}
      && AllSorted(r)
    ensures var e := RowEntry(tasks, parentPath, index);
      Traded(tasks, AddSubtask(tasks, parentPath, index, newId), e,
        multiset{e.(collapsed := false), Entry(newId, None, "", false, Some(e.id))})
  {
    var arr := GetArrayByParentPath(tasks, parentPath).value;
    var t, q := arr[index], ArrayParent(tasks, parentPath, None);
    var arr' := arr[index := WithChild(t, newId)];
    var grown := SetArrayAt(tasks, parentPath, arr');
    ChildAdded(arr, index, MakeNewTask(newId, None, ""));
    SetArrayAtAdds(tasks, parentPath, arr', multiset{newId});
    SortAllIds(grown);
    SortAllSorted(grown);
    SortAllEntries(grown, None);
    SetRowEntries(tasks, parentPath, index, WithChild(t, newId));
    WithChildEntries(t, newId, q);
    Relay(Bag(grown), Bag(tasks), Subtree(t, q), Subtree(WithChild(t, newId), q), multiset{EntryOf(t, q)},
      multiset{EntryOf(t, q).(collapsed := false), Entry(newId, None, "", false, Some(t.id))});
  }

  /** The records of a task's subtree once a blank child is appended and the task expanded. */
  lemma WithChildEntries(t: Task, newId: string, q: Option<string>)
    ensures Subtree(WithChild(t, newId), q) + multiset{EntryOf(t, q)}
      == Subtree(t, q) + multiset{EntryOf(t, q).(collapsed := false), Entry(newId, None, "", false, Some(t.id))}
  {
    var c := MakeNewTask(newId, None, "");
    var e, x, y := Entry(newId, None, "", false, Some(t.id)), EntryOf(t, q), EntryOf(t, q).(collapsed := false);
    var kids := Entries(t.subtasks, Some(t.id));
    assert Entries([c], Some(t.id)) == [e] by {
      assert [c][1..] == [];
    }
    assert Entries(WithChild(t, newId).subtasks, Some(t.id)) == kids + [e] by {
      EntriesAppend(t.subtasks, [c], Some(t.id));
    }
    assert EntryOf(WithChild(t, newId), q) == y;
    AddOne(multiset(kids), x, y, e);
  }

  lemma AddOne<T>(k: multiset<T>, x: T, y: T, e: T)
    ensures multiset{y} + (k + multiset{e}) + multiset{x} == multiset{x} + k + multiset{y, e}
  {
  }

  /** Appending a childless task to entry `i`'s subtasks adds just its id. */
  lemma ChildAdded(arr: seq<Task>, i: nat, t: Task)
    requires i < |arr| && t.subtasks == []
    ensures var p := arr[i].(subtasks := arr[i].subtasks + [t], collapsed := false);
      multiset(Ids(arr[i := p])) == multiset(Ids(arr)) + multiset{t.id}
  {
    var p := arr[i].(subtasks := arr[i].subtasks + [t], collapsed := false);
    var a, c, b := Ids(arr[..i]) + [arr[i].id], Ids(arr[i].subtasks), Ids(arr[i + 1..]);
    assert Ids(arr) == a + c + b by {
      IdsSplitWhole(arr, i);
    }
    assert Ids(p.subtasks) == c + [t.id] by {
      IdsAppend(arr[i].subtasks, [t]);
      LeafIds(t);
    }
    assert Ids(arr[i := p]) == a + Ids(p.subtasks) + b by {
      IdsSplitWhole(arr[i := p], i);
      UpdateAround(arr, i, p);
    }
    Assoc(a, c, [t.id]);
    MultisetInsert(a + c, t.id, b);
  }

  /** The root "add" form: trimmed text, normalised date; nothing happens when the text is blank. */
  function AddRoot(tasks: seq<Task>, dateInput: string, textInput: string, newId: string): seq<Task>
  {
    var text := Trim(textInput);
    if text == "" then tasks
    else GroupOrder(tasks + [MakeNewTask(newId, NormalizeDateInput(dateInput), text)])
  }

  /**
   * Blank text changes nothing. Otherwise the new task, with a valid date or
   * none, becomes the last member of its date group; other groups are as
   * they were, and the root array stays grouped.
   */
  lemma AddRootSpec(tasks: seq<Task>, dateInput: string, textInput: string, newId: string)
    ensures Trim(textInput) == "" ==> AddRoot(tasks, dateInput, textInput, newId) == tasks
    ensures Trim(textInput) != "" ==>
      var t := MakeNewTask(newId, NormalizeDateInput(dateInput), Trim(textInput));
      var r := AddRoot(tasks, dateInput, textInput, newId);
      && DateOk(t)
      && multiset(r) == multiset(tasks) + multiset{t}
      && FilterKey(r, GroupKeyOf, GroupKeyOf(t)) == FilterKey(tasks, GroupKeyOf, GroupKeyOf(t)) + [t]
      && (forall k :: k != GroupKeyOf(t) ==> FilterKey(r, GroupKeyOf, k) == FilterKey(tasks, GroupKeyOf, k))
      && Contiguous(r, GroupKeyOf) && RankSorted(r, GroupKeyOf, GroupSortKey)
  {
    if Trim(textInput) != "" {
      var t := MakeNewTask(newId, NormalizeDateInput(dateInput), Trim(textInput));
      AppendGrouped(tasks, t);
    }
  }

  /** Grouping after appending `t`: it becomes the last of its group, other groups are unchanged. */
  lemma AppendGrouped(tasks: seq<Task>, t: Task)
    ensures var r := GroupOrder(tasks + [t]);
      && multiset(r) == multiset(tasks) + multiset{t}
      && FilterKey(r, GroupKeyOf, GroupKeyOf(t)) == FilterKey(tasks, GroupKeyOf, GroupKeyOf(t)) + [t]
      && (forall k :: k != GroupKeyOf(t) ==> FilterKey(r, GroupKeyOf, k) == FilterKey(tasks, GroupKeyOf, k))
      && Contiguous(r, GroupKeyOf) && RankSorted(r, GroupKeyOf, GroupSortKey)
  {
    GroupOrderPermutation(tasks + [t]);
    GroupOrderGrouped(tasks + [t]);
    AppendOwnGroup(tasks, t);
    AppendOtherGroups(tasks, t);
  }

  lemma AppendOwnGroup(tasks: seq<Task>, t: Task)
    ensures FilterKey(GroupOrder(tasks + [t]), GroupKeyOf, GroupKeyOf(t)) == FilterKey(tasks, GroupKeyOf, GroupKeyOf(t)) + [t]
  {
    GroupOrderStable(tasks + [t], GroupKeyOf(t));
    FilterKeySnoc(tasks, t, GroupKeyOf, GroupKeyOf(t));
  }

  lemma AppendOtherGroups(tasks: seq<Task>, t: Task)
    ensures forall k :: k != GroupKeyOf(t) ==> FilterKey(GroupOrder(tasks + [t]), GroupKeyOf, k) == FilterKey(tasks, GroupKeyOf, k)
  {
    forall k | k != GroupKeyOf(t)
      ensures FilterKey(GroupOrder(tasks + [t]), GroupKeyOf, k) == FilterKey(tasks, GroupKeyOf, k)
    {
      GroupOrderStable(tasks + [t], k);
      FilterKeySnoc(tasks, t, GroupKeyOf, k);
    }
  }

  // ----- Changing a date -----

  /**
   * The date change handlers, on the row at `index` of the array at
   * `parentPath`: write the new date, sort every array, then group the root
   * array only.
   */
  function Redate(tasks: seq<Task>, parentPath: seq<nat>, index: nat, date: Option<string>): seq<Task>
    requires IsRow(tasks, parentPath, index)
  {
    var arr := GetArrayByParentPath(tasks, parentPath).value;
    GroupOrder(SortAll(SetArrayAt(tasks, parentPath, arr[index := arr[index].(date := date)])))
  }

  /** The date picker and the inline date editor: a non-empty invalid value is an error and changes nothing. */
  function SetDate(tasks: seq<Task>, parentPath: seq<nat>, index: nat, value: string): (r: Result<seq<Task>>)
    requires IsRow(tasks, parentPath, index)
    ensures r.Err? <==> value != "" && !IsValidDateText(value)
  {
    if value != "" && !IsValidDateText(value) then Err("Invalid date.")
    else Ok(Redate(tasks, parentPath, index, NormalizeDateInput(value)))
  }

  /**
   * The "Remove Date" / "Set Date" button: a dated task loses its date; on an
   * undated task the button only opens the picker, which changes nothing until
   * `SetDate`.
   */
  function DateToggle(tasks: seq<Task>, parentPath: seq<nat>, index: nat): seq<Task>
    requires IsRow(tasks, parentPath, index)
  {
    if HasDate(GetArrayByParentPath(tasks, parentPath).value[index].date) then Redate(tasks, parentPath, index, None)
    else tasks
  }

  /**
   * A date change keeps every task; the root array comes out grouped and
   * every array below it sorted (the root itself is not re-sorted after
   * grouping). As records, the clicked task now has the new date, and every
   * task keeps its other fields and its parent.
   */
  lemma RedateSpec(tasks: seq<Task>, parentPath: seq<nat>, index: nat, date: Option<string>)
    requires IsRow(tasks, parentPath, index)
    ensures var r := Redate(tasks, parentPath, index, date);
      && multiset(Ids(r)) == multiset(Ids(tasks))
      && Contiguous(r, GroupKeyOf) && RankSorted(r, GroupKeyOf, GroupSortKey)
      && forall t :: t in r ==> AllSorted(t.subtasks)
    ensures var e := RowEntry(tasks, parentPath, index);
      Traded(tasks, Redate(tasks, parentPath, index, date), e, multiset{e.(date := date)})
  {
    RedateShape(tasks, parentPath, index, date);
    RedateRecords(tasks, parentPath, index, date);
  }

  lemma RedateShape(tasks: seq<Task>, parentPath: seq<nat>, index: nat, date: Option<string>)
    requires IsRow(tasks, parentPath, index)
    ensures var r := Redate(tasks, parentPath, index, date);
      && multiset(Ids(r)) == multiset(Ids(tasks))
      && Contiguous(r, GroupKeyOf) && RankSorted(r, GroupKeyOf, GroupSortKey)
      && forall t :: t in r ==> AllSorted(t.subtasks)
  {
    var arr := GetArrayByParentPath(tasks, parentPath).value;
    var t := arr[index];
    var arr' := arr[index := t.(date := date)];
    var edited := SetArrayAt(tasks, parentPath, arr');
    var sorted := SortAll(edited);
    SameIdsReplace(arr, index, t.(date := date));
    SetArrayAtSameIds(tasks, parentPath, arr');
    SortAllIds(edited);
    SortAllSorted(edited);
    GroupOrderPermutation(sorted);
    PermutationIds(GroupOrder(sorted), sorted);
    GroupOrderGrouped(sorted);
    forall u | u in GroupOrder(sorted)
      ensures AllSorted(u.subtasks)
    {
      assert u in multiset(sorted);
    }
  }

  lemma RedateRecords(tasks: seq<Task>, parentPath: seq<nat>, index: nat, date: Option<string>)
    requires IsRow(tasks, parentPath, index)
    ensures var e := RowEntry(tasks, parentPath, index);
      Traded(tasks, Redate(tasks, parentPath, index, date), e, multiset{e.(date := date)})
  {
    var arr := GetArrayByParentPath(tasks, parentPath).value;
    var t, q := arr[index], ArrayParent(tasks, parentPath, None);
    var edited := SetArrayAt(tasks, parentPath, arr[index := t.(date := date)]);
    assert Bag(Redate(tasks, parentPath, index, date)) == Bag(edited) by {
      GroupOrderEntries(SortAll(edited), None);
      SortAllEntries(edited, None);
    }
    SetRowEntries(tasks, parentPath, index, t.(date := date));
    SetRowOwn(Bag(edited), Bag(tasks), EntryOf(t, q), EntryOf(t, q).(date := date), multiset(Entries(t.subtasks, Some(t.id))));
  }

  /** The inline text editor's commit: the row at `index` takes the edited text. */
  function Retext(tasks: seq<Task>, parentPath: seq<nat>, index: nat, text: string): seq<Task>
    requires IsRow(tasks, parentPath, index)
  {
    var arr := GetArrayByParentPath(tasks, parentPath).value;
    SetArrayAt(tasks, parentPath, arr[index := arr[index].(text := text)])
  }

  /**
   * A text commit leaves every task where it was, the row now shows the new
   * text, and as records exactly that task's text is traded.
   */
  lemma RetextSpec(tasks: seq<Task>, parentPath: seq<nat>, index: nat, text: string)
    requires IsRow(tasks, parentPath, index)
    ensures Ids(Retext(tasks, parentPath, index, text)) == Ids(tasks)
    ensures IsRow(Retext(tasks, parentPath, index, text), parentPath, index)
    ensures var arr, after := GetArrayByParentPath(tasks, parentPath).value,
        GetArrayByParentPath(Retext(tasks, parentPath, index, text), parentPath).value;
      && after[index].text == text
      && after == arr[index := after[index]]
    ensures var e := RowEntry(tasks, parentPath, index);
      Traded(tasks, Retext(tasks, parentPath, index, text), e, multiset{e.(text := text)})
  {
    var arr := GetArrayByParentPath(tasks, parentPath).value;
    var t, q := arr[index], ArrayParent(tasks, parentPath, None);
    SameIdsReplace(arr, index, t.(text := text));
    SetArrayAtSameIds(tasks, parentPath, arr[index := t.(text := text)]);
    SetRowEntries(tasks, parentPath, index, t.(text := text));
    SetRowOwn(Bag(Retext(tasks, parentPath, index, text)), Bag(tasks),
      EntryOf(t, q), EntryOf(t, q).(text := text), multiset(Entries(t.subtasks, Some(t.id))));
  }

  /** Of two text commits on the same row, the last one wins. */
  lemma RetextLastWins(tasks: seq<Task>, parentPath: seq<nat>, index: nat, a: string, b: string)
    requires IsRow(tasks, parentPath, index)
    ensures IsRow(Retext(tasks, parentPath, index, a), parentPath, index)
    ensures Retext(Retext(tasks, parentPath, index, a), parentPath, index, b) == Retext(tasks, parentPath, index, b)
  {
    var arr := GetArrayByParentPath(tasks, parentPath).value;
    var arr' := arr[index := arr[index].(text := a)];
    assert arr'[index := arr'[index].(text := b)] == arr[index := arr[index].(text := b)];
    SetArrayAtTwice(tasks, parentPath, arr', arr[index := arr[index].(text := b)]);
  }
}
