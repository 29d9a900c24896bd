/**
 * The outline tree: tasks with nested subtasks, their pre-order listing,
 * addressing a sibling array by a path of indices (`getArrayByParentPath`),
 * writing an array back at a path, and depth-first lookup by id
 * (`findTaskInfoById`).
 */
module Tasks {
  import opened Wrappers
  import opened Seqs

  /** A task: `{id, date, text, subtasks, collapsed}`; `date` is `null` or a string. */
  datatype Task = Task(id: string, date: Option<string>, text: string, subtasks: seq<Task>, collapsed: bool)

  /** `makeNewTask(date, text)`, with the id `uid()` would mint passed in. */
  function MakeNewTask(id: string, date: Option<string>, text: string): Task
  {
    Task(id, date, text, [], false)
  }

  // ----- Pre-order -----

  /** The ids of all tasks of the forest in depth-first pre-order. */
  function Ids(ts: seq<Task>): seq<string>
  {
    if ts == [] then [] else [ts[0].id] + Ids(ts[0].subtasks) + Ids(ts[1..])
  }

  lemma {:induction false} IdsAppend(a: seq<Task>, b: seq<Task>)
    ensures Ids(a + b) == Ids(a) + Ids(b)
  {
    if a == [] {
      assert a + b == b;
    } else {
      AppendHead(a, b);
      IdsAppend(a[1..], b);
    }
  }

  lemma IdsCons(arr: seq<Task>)
    requires arr != []
    ensures Ids(arr) == [arr[0].id] + Ids(arr[0].subtasks) + Ids(arr[1..])
  {
  }

  /** The pre-order around position `i` of a sibling array. */
  lemma IdsSplit(arr: seq<Task>, i: nat)
    requires i < |arr|
    ensures Ids(arr) == Ids(arr[..i]) + [arr[i].id] + Ids(arr[i].subtasks) + Ids(arr[i + 1..])
    ensures Ids(arr[..i + 1]) == Ids(arr[..i]) + [arr[i].id] + Ids(arr[i].subtasks)
  {
    IdsSplitWhole(arr, i);
    IdsPrefixStep(arr, i);
  }

  lemma {:induction false} IdsSplitWhole(arr: seq<Task>, i: nat)
    requires i < |arr|
    ensures Ids(arr) == Ids(arr[..i]) + [arr[i].id] + Ids(arr[i].subtasks) + Ids(arr[i + 1..])
  {
    if i == 0 {
      assert arr[..0] == [];
    } else {
      var rest := arr[1..];
      IdsSplitWhole(rest, i - 1);
      TailSlices(arr, i);
      IdsCons(arr);
      IdsCons(arr[..i]);
      Regroup([arr[0].id], Ids(arr[0].subtasks), Ids(rest[..i - 1]), [arr[i].id], Ids(arr[i].subtasks), Ids(arr[i + 1..]));
    }
  }

  /** A task's subtree is strictly smaller than the forest it sits in. */
  lemma ChildSmaller(arr: seq<Task>, i: nat)
    requires i < |arr|
    ensures |Ids(arr[i].subtasks)| < |Ids(arr)|
  {
    IdsSplitWhole(arr, i);
  }

  lemma IdsPrefixStep(arr: seq<Task>, i: nat)
    requires i < |arr|
    ensures Ids(arr[..i + 1]) == Ids(arr[..i]) + [arr[i].id] + Ids(arr[i].subtasks)
  {
    var pre := arr[..i + 1];
    IdsSplitWhole(pre, i);
    TakeTake(arr, i, i + 1);
    assert pre[i + 1..] == [];
    var p, x, c := Ids(arr[..i]), [arr[i].id], Ids(arr[i].subtasks);
    assert Ids(pre) == p + x + c + [];
    assert p + x + c + [] == p + x + c;
  }

  lemma Regroup<T>(h: seq<T>, c0: seq<T>, p: seq<T>, x: seq<T>, c: seq<T>, q: seq<T>)
    ensures h + c0 + (p + x + c + q) == (h + c0 + p) + x + c + q
  {
  }

  /** Slicing a concatenation around its middle part. */
  lemma SliceMiddle<T>(a: seq<T>, m: seq<T>, b: seq<T>, k: nat, l: nat)
    requires k <= l <= |m|
    ensures (a + m + b)[..|a| + k] == a + m[..k]
    ensures (a + m + b)[|a| + l..] == m[l..] + b
  {
  }

  /** Permuting a sibling array permutes the multiset of ids of the forest. */
  lemma {:induction false} PermutationIds(a: seq<Task>, b: seq<Task>)
    requires multiset(a) == multiset(b)
    ensures multiset(Ids(a)) == multiset(Ids(b))
    decreases |a|
  {
    if a == [] {
      assert |b| == |multiset(b)| == 0;
    } else {
      var x := a[0];
      Cons(a);
      var j := IndexOf(b, x);
      var b' := b[..j] + b[j + 1..];
      Split3(b, j);
      PermutationIds(a[1..], b');
      IdsCons(a);
      IdsSplitWhole(b, j);
      IdsAppend(b[..j], b[j + 1..]);
    }
  }

  // ----- Addressing by parent path -----

  /**
   * `getArrayByParentPath(parentPath)`: follow child indices from the root
   * array. `None` stands for the TypeError an index off the end would raise.
   */
  function GetArrayByParentPath(tasks: seq<Task>, path: seq<nat>): Option<seq<Task>>
  {
    if path == [] then Some(tasks)
    else if path[0] < |tasks| then GetArrayByParentPath(tasks[path[0]].subtasks, path[1..])
    else None
  }

  /** The array reached by a path, written back with new contents (the effect of a `splice` there). */
  function SetArrayAt(tasks: seq<Task>, path: seq<nat>, arr: seq<Task>): (r: seq<Task>)
    requires GetArrayByParentPath(tasks, path).Some?
    ensures GetArrayByParentPath(r, path) == Some(arr)
    ensures path != [] ==> |r| == |tasks|
  {
    if path == [] then arr
    else
      var i := path[0];
      tasks[i := tasks[i].(subtasks := SetArrayAt(tasks[i].subtasks, path[1..], arr))]
  }

  /** A row is rendered for entry `index` of the array at `parentPath`. */
  predicate IsRow(tasks: seq<Task>, parentPath: seq<nat>, index: nat)
  {
    GetArrayByParentPath(tasks, parentPath).Some? && index < |GetArrayByParentPath(tasks, parentPath).value|
  }

  /** Two paths that part ways: neither is a prefix of the other. */
  predicate Apart(p: seq<nat>, q: seq<nat>)
  {
    p != [] && q != [] && (p[0] != q[0] || Apart(p[1..], q[1..]))
  }

  /** Writing at `path` leaves every array on a path that parts from it as it was. */
  lemma {:induction false} SetArrayAtFrame(tasks: seq<Task>, path: seq<nat>, arr: seq<Task>, q: seq<nat>)
    requires GetArrayByParentPath(tasks, path).Some? && Apart(path, q)
    ensures GetArrayByParentPath(SetArrayAt(tasks, path, arr), q) == GetArrayByParentPath(tasks, q)
  {
    var i := path[0];
    var r := SetArrayAt(tasks, path, arr);
    assert r == tasks[i := tasks[i].(subtasks := SetArrayAt(tasks[i].subtasks, path[1..], arr))];
    if i == q[0] {
      SetArrayAtFrame(tasks[i].subtasks, path[1..], arr, q[1..]);
    }
  }

  /**
   * Writing at `path` changes each array above it in one entry only: the one
   * on the path, whose subtasks become the array one level down and whose
   * own fields stay.
   */
  lemma {:induction false} SetArrayAtAncestors(tasks: seq<Task>, path: seq<nat>, arr: seq<Task>, k: nat)
    requires GetArrayByParentPath(tasks, path).Some? && k < |path|
    ensures GetArrayByParentPath(tasks, path[..k]).Some? && path[k] < |GetArrayByParentPath(tasks, path[..k]).value|
    ensures var r, before := SetArrayAt(tasks, path, arr), GetArrayByParentPath(tasks, path[..k]).value;
      && GetArrayByParentPath(r, path[..k + 1]).Some?
      && GetArrayByParentPath(r, path[..k]) ==
           Some(before[path[k] := before[path[k]].(subtasks := GetArrayByParentPath(r, path[..k + 1]).value)])
  {
    var i := path[0];
    var sub := tasks[i].subtasks;
    var r := SetArrayAt(tasks, path, arr);
    assert r == tasks[i := tasks[i].(subtasks := SetArrayAt(sub, path[1..], arr))];
    if k == 0 {
      assert path[..1] == [i] && path[..0] == [];
    } else {
      SetArrayAtAncestors(sub, path[1..], arr, k - 1);
      assert path[..k][0] == i && path[..k][1..] == path[1..][..k - 1];
      assert path[..k + 1][0] == i && path[..k + 1][1..] == path[1..][..k];
    }
  }

  /**
   * A path that resolves names a row: its last index is an entry of the
   * array its other indices reach.
   */
  lemma {:induction false} RowOfPath(tasks: seq<Task>, path: seq<nat>)
    requires path != [] && GetArrayByParentPath(tasks, path).Some?
    ensures GetArrayByParentPath(tasks, path[..|path| - 1]).Some?
    ensures path[|path| - 1] < |GetArrayByParentPath(tasks, path[..|path| - 1]).value|
  {
    if |path| > 1 {
      RowOfPath(tasks[path[0]].subtasks, path[1..]);
      var up := path[..|path| - 1];
      assert up[0] == path[0] && up[1..] == path[1..][..|path[1..]| - 1];
    }
  }

  /** Writing the array a path already holds changes nothing. */
  lemma {:induction false} SetArrayAtSame(tasks: seq<Task>, path: seq<nat>)
    requires GetArrayByParentPath(tasks, path).Some?
    ensures SetArrayAt(tasks, path, GetArrayByParentPath(tasks, path).value) == tasks
  {
    if path != [] {
      var i := path[0];
      SetArrayAtSame(tasks[i].subtasks, path[1..]);
    }
  }

  /** A second write at the same path overrides the first. */
  lemma {:induction false} SetArrayAtTwice(tasks: seq<Task>, path: seq<nat>, a: seq<Task>, b: seq<Task>)
    requires GetArrayByParentPath(tasks, path).Some?
    ensures SetArrayAt(SetArrayAt(tasks, path, a), path, b) == SetArrayAt(tasks, path, b)
  {
    if path != [] {
      var i := path[0];
      SetArrayAtTwice(tasks[i].subtasks, path[1..], a, b);
    }
  }

  /** The number of tasks, at any depth, under the array at `path`. */
  function Width(tasks: seq<Task>, path: seq<nat>): nat
    requires GetArrayByParentPath(tasks, path).Some?
  {
    |Ids(GetArrayByParentPath(tasks, path).value)|
  }

  /** Where, in the pre-order of `tasks`, the array at `path` begins. */
  function StartOf(tasks: seq<Task>, path: seq<nat>): (s: nat)
    requires GetArrayByParentPath(tasks, path).Some?
    ensures s + Width(tasks, path) <= |Ids(tasks)|
  {
    if path == [] then 0
    else
      IdsSplitWhole(tasks, path[0]);
      |Ids(tasks[..path[0]])| + 1 + StartOf(tasks[path[0]].subtasks, path[1..])
  }

  /** `x` with the `n` elements from position `s` replaced by `y`. */
  function Splice<T>(x: seq<T>, s: nat, n: nat, y: seq<T>): seq<T>
    requires s + n <= |x|
  {
    x[..s] + y + x[s + n..]
  }

  /** The ids of the array at `path` form one contiguous run of the pre-order. */
  lemma ArrayIdsSlice(tasks: seq<Task>, path: seq<nat>)
    requires GetArrayByParentPath(tasks, path).Some?
    ensures Ids(tasks)[StartOf(tasks, path)..StartOf(tasks, path) + Width(tasks, path)]
      == Ids(GetArrayByParentPath(tasks, path).value)
  {
    ArrayIdsRun(tasks, path);
  }

  /** `y` occurs in `x` starting at position `s`. */
  ghost predicate RunAt<T>(x: seq<T>, s: nat, y: seq<T>)
  {
    s + |y| <= |x| && x[s..s + |y|] == y
  }

  lemma {:induction false} ArrayIdsRun(tasks: seq<Task>, path: seq<nat>)
    requires GetArrayByParentPath(tasks, path).Some?
    ensures RunAt(Ids(tasks), StartOf(tasks, path), Ids(GetArrayByParentPath(tasks, path).value))
  {
    if path == [] {
      assert Ids(tasks)[0..|Ids(tasks)|] == Ids(tasks);
    } else {
      ArrayIdsRun(tasks[path[0]].subtasks, path[1..]);
      ArrayIdsRunStep(tasks, path);
    }
  }

  /** One level of `ArrayIdsRun`. */
  lemma ArrayIdsRunStep(tasks: seq<Task>, path: seq<nat>)
    requires path != [] && GetArrayByParentPath(tasks, path).Some?
    requires RunAt(Ids(tasks[path[0]].subtasks), StartOf(tasks[path[0]].subtasks, path[1..]),
                   Ids(GetArrayByParentPath(tasks[path[0]].subtasks, path[1..]).value))
    ensures RunAt(Ids(tasks), StartOf(tasks, path), Ids(GetArrayByParentPath(tasks, path).value))
  {
    var i := path[0];
    var sub := tasks[i].subtasks;
    var k, y := StartOf(sub, path[1..]), Ids(GetArrayByParentPath(sub, path[1..]).value);
    assert Ids(tasks) == Ids(tasks[..i]) + [tasks[i].id] + Ids(sub) + Ids(tasks[i + 1..]) by {
      IdsSplitWhole(tasks, i);
    }
    assert StartOf(tasks, path) == |Ids(tasks[..i])| + |[tasks[i].id]| + k by {
      PathUnfold(tasks, path, []);
    }
    assert Ids(GetArrayByParentPath(tasks, path).value) == y by {
      PathUnfold(tasks, path, []);
    }
    RunInWhole(Ids(tasks), Ids(tasks[..i]), [tasks[i].id], Ids(sub), Ids(tasks[i + 1..]),
      StartOf(tasks, path), k, y, Ids(GetArrayByParentPath(tasks, path).value));
  }

  /** `RunInMiddle`, with the whole sequence, the run's start and the run given by name. */
  lemma RunInWhole<T>(whole: seq<T>, p: seq<T>, x: seq<T>, m: seq<T>, q: seq<T>, s: nat, k: nat, y: seq<T>, y': seq<T>)
    requires whole == p + x + m + q && s == |p| + |x| + k && y' == y && RunAt(m, k, y)
    ensures RunAt(whole, s, y')
  {
    RunInMiddle(p, x, m, q, k, y);
  }

  /** A run inside the middle part of a sequence is a run of the whole. */
  lemma RunInMiddle<T>(p: seq<T>, x: seq<T>, m: seq<T>, q: seq<T>, k: nat, y: seq<T>)
    requires RunAt(m, k, y)
    ensures RunAt(p + x + m + q, |p| + |x| + k, y)
  {
    assert (p + x + m + q)[|p| + |x| + k..|p| + |x| + k + |y|] == m[k..k + |y|];
  }

  /** Writing an array back replaces exactly its run of the pre-order. */
  lemma {:induction false} SetArrayAtIds(tasks: seq<Task>, path: seq<nat>, arr: seq<Task>)
    requires GetArrayByParentPath(tasks, path).Some?
    ensures Ids(SetArrayAt(tasks, path, arr)) == Splice(Ids(tasks), StartOf(tasks, path), Width(tasks, path), Ids(arr))
  {
    if path == [] {
      assert Ids(tasks)[..0] == [] && Ids(tasks)[|Ids(tasks)|..] == [];
    } else {
      SetArrayAtIds(tasks[path[0]].subtasks, path[1..], arr);
      SetArrayAtIdsStep(tasks, path, arr);
    }
  }

  /** One level of `SetArrayAtIds`: the splice one level down is a splice here. */
  lemma SetArrayAtIdsStep(tasks: seq<Task>, path: seq<nat>, arr: seq<Task>)
    requires path != [] && GetArrayByParentPath(tasks, path).Some?
    requires var sub := tasks[path[0]].subtasks;
      Ids(SetArrayAt(sub, path[1..], arr)) == Splice(Ids(sub), StartOf(sub, path[1..]), Width(sub, path[1..]), Ids(arr))
    ensures Ids(SetArrayAt(tasks, path, arr)) == Splice(Ids(tasks), StartOf(tasks, path), Width(tasks, path), Ids(arr))
  {
    var i := path[0];
    var sub := tasks[i].subtasks;
    var a, x, b := Ids(tasks[..i]), [tasks[i].id], Ids(tasks[i + 1..]);
    var sub' := SetArrayAt(sub, path[1..], arr);
    PathUnfold(tasks, path, arr);
    assert Ids(tasks) == a + x + Ids(sub) + b by {
      IdsSplitWhole(tasks, i);
    }
    assert Ids(SetArrayAt(tasks, path, arr)) == a + x + Ids(sub') + b by {
      SetChildIds(tasks, i, sub');
    }
    SpliceStep(Ids(tasks), a, x, Ids(sub), b, StartOf(tasks, path), Width(tasks, path),
      StartOf(sub, path[1..]), Width(sub, path[1..]), Ids(arr), Ids(SetArrayAt(tasks, path, arr)), Ids(sub'));
  }

  /** A splice inside the middle part of a sequence is a splice of the whole. */
  lemma SpliceStep<T>(whole: seq<T>, p: seq<T>, x: seq<T>, m: seq<T>, q: seq<T>, s: nat, w: nat,
                      k: nat, n: nat, a: seq<T>, res: seq<T>, m': seq<T>)
    requires whole == p + x + m + q && s == |p| + |x| + k && w == n && k + n <= |m|
    requires res == p + x + m' + q && m' == Splice(m, k, n, a)
    ensures s + w <= |whole| && res == Splice(whole, s, w, a)
  {
    ReplaceMiddle(p, x, m, q, k, n, a);
  }

  /** The addressing functions at a non-empty path, one level down. */
  lemma PathUnfold(tasks: seq<Task>, path: seq<nat>, arr: seq<Task>)
    requires path != [] && GetArrayByParentPath(tasks, path).Some?
    ensures var i, sub := path[0], tasks[path[0]].subtasks;
      && StartOf(tasks, path) == |Ids(tasks[..i])| + |[tasks[i].id]| + StartOf(sub, path[1..])
      && Width(tasks, path) == Width(sub, path[1..])
      && GetArrayByParentPath(tasks, path) == GetArrayByParentPath(sub, path[1..])
      && SetArrayAt(tasks, path, arr) == tasks[i := tasks[i].(subtasks := SetArrayAt(sub, path[1..], arr))]
  {
  }

  /** Replacing the subtasks of task `i` of an array, in pre-order terms. */
  lemma SetChildIds(tasks: seq<Task>, i: nat, sub: seq<Task>)
    requires i < |tasks|
    ensures Ids(tasks[i := tasks[i].(subtasks := sub)]) ==
      Ids(tasks[..i]) + [tasks[i].id] + Ids(sub) + Ids(tasks[i + 1..])
  {
    var r := tasks[i := tasks[i].(subtasks := sub)];
    IdsSplitWhole(r, i);
    UpdateAround(tasks, i, tasks[i].(subtasks := sub));
  }

  lemma ReplaceMiddle<T>(p: seq<T>, x: seq<T>, m: seq<T>, q: seq<T>, k: nat, n: nat, a: seq<T>)
    requires k + n <= |m|
    ensures p + x + Splice(m, k, n, a) + q == Splice(p + x + m + q, |p| + |x| + k, n, a)
  {
    assert (p + x + m + q)[..|p| + |x| + k] == p + x + m[..k];
    assert (p + x + m + q)[|p| + |x| + k + n..] == m[k + n..] + q;
  }

  /** The array at a non-empty path is the subtasks of a task in the array one level up. */
  lemma {:induction false} GetArrayParent(tasks: seq<Task>, path: seq<nat>)
    requires path != [] && GetArrayByParentPath(tasks, path).Some?
    ensures var up := GetArrayByParentPath(tasks, path[..|path| - 1]);
      up.Some? && path[|path| - 1] < |up.value|
      && GetArrayByParentPath(tasks, path).value == up.value[path[|path| - 1]].subtasks
  {
    if |path| > 1 {
      assert path[1..][..|path[1..]| - 1] == path[..|path| - 1][1..];
      GetArrayParent(tasks[path[0]].subtasks, path[1..]);
    }
  }

  /** Writing at `path + [i]` is writing the subtasks of task `i` of the array at `path`. */
  lemma {:induction false} SetArrayAtChild(tasks: seq<Task>, path: seq<nat>, i: nat, arr: seq<Task>)
    requires GetArrayByParentPath(tasks, path + [i]).Some?
    ensures GetArrayByParentPath(tasks, path).Some? && i < |GetArrayByParentPath(tasks, path).value|
    ensures var up := GetArrayByParentPath(tasks, path).value;
      SetArrayAt(tasks, path + [i], arr) == SetArrayAt(tasks, path, up[i := up[i].(subtasks := arr)])
  {
    assert (path + [i])[..|path + [i]| - 1] == path;
    GetArrayParent(tasks, path + [i]);
    if path != [] {
      assert (path + [i])[1..] == path[1..] + [i];
      SetArrayAtChild(tasks[path[0]].subtasks, path[1..], i, arr);
    }
  }

  // ----- findTaskInfoById -----

  /** `{task, index, parentPath, arr}`: where a task sits. */
  datatype TaskInfo = TaskInfo(task: Task, index: nat, parentPath: seq<nat>, arr: seq<Task>)

  /** The info really describes a node of `tasks`. */
  predicate Locates(tasks: seq<Task>, info: TaskInfo)
  {
    && GetArrayByParentPath(tasks, info.parentPath) == Some(info.arr)
    && info.index < |info.arr|
    && info.arr[info.index] == info.task
  }

  /** The pre-order position of the node an info describes. */
  function PreIndex(tasks: seq<Task>, info: TaskInfo): nat
    requires Locates(tasks, info)
  {
    StartOf(tasks, info.parentPath) + |Ids(info.arr[..info.index])|
  }

  function PrefixPath(i: nat, r: Option<TaskInfo>): Option<TaskInfo>
  {
    match r
    case None => None
    case Some(info) => Some(info.(parentPath := [i] + info.parentPath))
  }

  /** The depth-first search of `findTaskInfoById`, from index `i` of `arr`. */
  function FindFrom(arr: seq<Task>, id: string, i: nat): Option<TaskInfo>
    requires i <= |arr|
    decreases arr, |arr| - i
  {
    if i == |arr| then None
    else if arr[i].id == id then Some(TaskInfo(arr[i], i, [], arr))
    else
      var child := FindFrom(arr[i].subtasks, id, 0);
      if child.Some? then PrefixPath(i, child) else FindFrom(arr, id, i + 1)
  }

  function FindTaskInfoById(tasks: seq<Task>, id: string): Option<TaskInfo>
  {
    FindFrom(tasks, id, 0)
  }

  /**
   * `info` describes a task with the id, and no task with that id comes before
   * it in pre-order from position `lo` on.
   */
  predicate FirstHit(arr: seq<Task>, id: string, lo: nat, info: TaskInfo)
  {
    && Locates(arr, info) && info.task.id == id
    && lo <= PreIndex(arr, info) < |Ids(arr)|
    && Ids(arr)[PreIndex(arr, info)] == id
    && forall k | lo <= k < PreIndex(arr, info) :: Ids(arr)[k] != id
  }

  lemma FoundHere(arr: seq<Task>, id: string, i: nat)
    requires i < |arr| && arr[i].id == id
    ensures FirstHit(arr, id, |Ids(arr[..i])|, TaskInfo(arr[i], i, [], arr))
  {
    IdsSplitWhole(arr, i);
  }

  lemma FoundBelow(arr: seq<Task>, id: string, i: nat, c: TaskInfo)
    requires i < |arr| && arr[i].id != id
    requires FirstHit(arr[i].subtasks, id, 0, c)
    ensures FirstHit(arr, id, |Ids(arr[..i])|, c.(parentPath := [i] + c.parentPath))
  {
    var sub := arr[i].subtasks;
    var info := c.(parentPath := [i] + c.parentPath);
    var a, s, b := Ids(arr[..i]), Ids(sub), Ids(arr[i + 1..]);
    assert Ids(arr) == a + [arr[i].id] + s + b by {
      IdsSplitWhole(arr, i);
    }
    assert Locates(arr, info) && PreIndex(arr, info) == |a| + 1 + PreIndex(sub, c) by {
      assert info.parentPath[0] == i && info.parentPath[1..] == c.parentPath;
    }
    var pc := PreIndex(sub, c);
    assert Ids(arr)[|a| + 1 + pc] == id by {
      MiddleAt(a, arr[i].id, s, b, pc);
    }
    forall k | |a| <= k < |a| + 1 + pc
      ensures Ids(arr)[k] != id
    {
      MiddleAt(a, arr[i].id, s, b, k - |a| - 1);
    }
  }

  /** Positions inside `a + [v] + s + b`: `v` at `-1`, then `s`. */
  lemma MiddleAt<T>(a: seq<T>, v: T, s: seq<T>, b: seq<T>, j: int)
    requires -1 <= j < |s|
    ensures |a| + 1 + j < |a + [v] + s + b|
    ensures (a + [v] + s + b)[|a| + 1 + j] == if j == -1 then v else s[j]
  {
  }

  lemma FoundLater(arr: seq<Task>, id: string, i: nat, info: TaskInfo)
    requires i < |arr| && arr[i].id != id && id !in Ids(arr[i].subtasks)
    requires FirstHit(arr, id, |Ids(arr[..i + 1])|, info)
    ensures FirstHit(arr, id, |Ids(arr[..i])|, info)
  {
    IdsSplitWhole(arr, i);
    IdsPrefixStep(arr, i);
  }

  lemma IdsFrom(arr: seq<Task>, i: nat)
    requires i < |arr|
    ensures Ids(arr[i..]) == [arr[i].id] + Ids(arr[i].subtasks) + Ids(arr[i + 1..])
  {
    DropHead(arr, i);
    IdsCons(arr[i..]);
  }

  lemma {:induction false} FindFromSpec(arr: seq<Task>, id: string, i: nat)
    requires i <= |arr|
    ensures FindFrom(arr, id, i).None? <==> id !in Ids(arr[i..])
    ensures FindFrom(arr, id, i).Some? ==> FirstHit(arr, id, |Ids(arr[..i])|, FindFrom(arr, id, i).value)
    decreases arr, |arr| - i
  {
    if i == |arr| {
      assert arr[i..] == [];
    } else {
      IdsFrom(arr, i);
      if arr[i].id == id {
        FoundHere(arr, id, i);
      } else {
        var sub := arr[i].subtasks;
        FindFromSpec(sub, id, 0);
        assert sub[0..] == sub && sub[..0] == [];
        if FindFrom(sub, id, 0).Some? {
          FoundBelow(arr, id, i, FindFrom(sub, id, 0).value);
        } else {
          FindFromSpec(arr, id, i + 1);
          if FindFrom(arr, id, i + 1).Some? {
            FoundLater(arr, id, i, FindFrom(arr, id, i + 1).value);
          }
        }
      }
    }
  }

  /**
   * `findTaskInfoById` returns `null` exactly when no task has the id; otherwise
   * it describes the first such task in depth-first pre-order.
   */
  lemma FindTaskInfoByIdSpec(tasks: seq<Task>, id: string)
    ensures FindTaskInfoById(tasks, id).None? <==> id !in Ids(tasks)
    ensures FindTaskInfoById(tasks, id).Some? ==>
      var info := FindTaskInfoById(tasks, id).value;
      && Locates(tasks, info) && info.task.id == id
      && PreIndex(tasks, info) < |Ids(tasks)| && Ids(tasks)[PreIndex(tasks, info)] == id
      && id !in Ids(tasks)[..PreIndex(tasks, info)]
  {
    FindFromSpec(tasks, id, 0);
    assert tasks[0..] == tasks && tasks[..0] == [];
    if FindTaskInfoById(tasks, id).Some? {
      var info := FindTaskInfoById(tasks, id).value;
      assert forall k | 0 <= k < PreIndex(tasks, info) :: Ids(tasks)[k] != id;
      assert forall k | 0 <= k < PreIndex(tasks, info) :: Ids(tasks)[..PreIndex(tasks, info)][k] == Ids(tasks)[k];
    }
  }

  /**
   * The loop-and-recursion search of `findTaskInfoById(id, arr, parentPath)`,
   * which builds `parentPath` on the way down.
   */
  method FindTaskInfo(arr: seq<Task>, id: string, parentPath: seq<nat>) returns (r: Option<TaskInfo>)
    ensures r.None? <==> FindTaskInfoById(arr, id).None?
    ensures r.Some? ==> r.value == FindTaskInfoById(arr, id).value.(parentPath := parentPath + FindTaskInfoById(arr, id).value.parentPath)
    decreases arr
  {
    var i := 0;
    while i < |arr|
      invariant i <= |arr|
      invariant FindFrom(arr, id, 0) == FindFrom(arr, id, i)
    {
      var t := arr[i];
      if t.id == id {
        return Some(TaskInfo(t, i, parentPath, arr));
      }
      var child := FindTaskInfo(t.subtasks, id, parentPath + [i]);
      if child.Some? {
        ghost var c := FindTaskInfoById(t.subtasks, id).value;
        assert parentPath + [i] + c.parentPath == parentPath + ([i] + c.parentPath);
        return child;
      }
      i := i + 1;
    }
    return None;
  }

  // ----- Edits that keep the pre-order -----

  /** Writing back an array with the same pre-order leaves the pre-order of the outline as it was. */
  lemma SetArrayAtSameIds(tasks: seq<Task>, path: seq<nat>, arr: seq<Task>)
    requires GetArrayByParentPath(tasks, path).Some?
    requires Ids(arr) == Ids(GetArrayByParentPath(tasks, path).value)
    ensures Ids(SetArrayAt(tasks, path, arr)) == Ids(tasks)
  {
    SetArrayAtIds(tasks, path, arr);
    ArrayIdsSlice(tasks, path);
    SpliceSame(Ids(tasks), StartOf(tasks, path), Width(tasks, path), Ids(arr));
  }

  /** Splicing a run back in over itself changes nothing. */
  lemma SpliceSame<T>(x: seq<T>, s: nat, w: nat, y: seq<T>)
    requires s + w <= |x| && x[s..s + w] == y
    ensures Splice(x, s, w, y) == x
  {
    assert x == x[..s] + x[s..s + w] + x[s + w..];
  }

  /** Replacing one task by another with the same id and subtasks keeps the pre-order. */
  lemma SameIdsReplace(arr: seq<Task>, i: nat, t: Task)
    requires i < |arr| && t.id == arr[i].id && t.subtasks == arr[i].subtasks
    ensures Ids(arr[i := t]) == Ids(arr)
  {
    IdsSplitWhole(arr, i);
    IdsSplitWhole(arr[i := t], i);
    UpdateAround(arr, i, t);
  }

  /** The pre-order of the outline outside the run of the array at `path`. */
  function Outside(tasks: seq<Task>, path: seq<nat>): seq<string>
    requires GetArrayByParentPath(tasks, path).Some?
  {
    var x, s, w := Ids(tasks), StartOf(tasks, path), Width(tasks, path);
    x[..s] + x[s + w..]
  }

  /** The multiset of the outline's ids, split around the run of one sibling array. */
  lemma IdsAround(tasks: seq<Task>, path: seq<nat>)
    requires GetArrayByParentPath(tasks, path).Some?
    ensures multiset(Ids(tasks)) ==
      multiset(Outside(tasks, path)) + multiset(Ids(GetArrayByParentPath(tasks, path).value))
  {
    var x, s, w := Ids(tasks), StartOf(tasks, path), Width(tasks, path);
    ArrayIdsSlice(tasks, path);
    assert Outside(tasks, path) == x[..s] + x[s + w..];
    MultisetAround(x, s, w, Ids(GetArrayByParentPath(tasks, path).value));
  }

  lemma MultisetAround<T>(x: seq<T>, s: nat, w: nat, y: seq<T>)
    requires s + w <= |x| && x[s..s + w] == y
    ensures multiset(x) == multiset(x[..s] + x[s + w..]) + multiset(y)
  {
    assert x == x[..s] + x[s..s + w] + x[s + w..];
  }

  /** A permutation of a sibling array keeps every id of the outline, with its multiplicity. */
  lemma SetArrayAtPermutes(tasks: seq<Task>, path: seq<nat>, arr: seq<Task>)
    requires GetArrayByParentPath(tasks, path).Some?
    requires multiset(Ids(arr)) == multiset(Ids(GetArrayByParentPath(tasks, path).value))
    ensures multiset(Ids(SetArrayAt(tasks, path, arr))) == multiset(Ids(tasks))
  {
    SetArrayAtRun(tasks, path, arr);
    IdsAround(tasks, path);
  }

  /** Writing an array back replaces its run of the pre-order and keeps the rest. */
  lemma SetArrayAtRun(tasks: seq<Task>, path: seq<nat>, arr: seq<Task>)
    requires GetArrayByParentPath(tasks, path).Some?
    ensures multiset(Ids(SetArrayAt(tasks, path, arr))) == multiset(Outside(tasks, path)) + multiset(Ids(arr))
  {
    var x, s, w := Ids(tasks), StartOf(tasks, path), Width(tasks, path);
    SetArrayAtIds(tasks, path, arr);
    SpliceOutside(x, s, w, Ids(arr));
  }

  lemma SpliceOutside<T>(x: seq<T>, s: nat, w: nat, y: seq<T>)
    requires s + w <= |x|
    ensures multiset(Splice(x, s, w, y)) == multiset(x[..s] + x[s + w..]) + multiset(y)
  {
  }

  /** Growing a sibling array by whole tasks grows the outline's ids by theirs. */
  lemma SetArrayAtAdds(tasks: seq<Task>, path: seq<nat>, arr: seq<Task>, extra: multiset<string>)
    requires GetArrayByParentPath(tasks, path).Some?
    requires multiset(Ids(arr)) == multiset(Ids(GetArrayByParentPath(tasks, path).value)) + extra
    ensures multiset(Ids(SetArrayAt(tasks, path, arr))) == multiset(Ids(tasks)) + extra
  {
    SetArrayAtRun(tasks, path, arr);
    IdsAround(tasks, path);
  }

  lemma SplitAt<T>(s: seq<T>, i: nat)
    requires i <= |s|
    ensures s[..i] + s[i..] == s
  {
  }
}
