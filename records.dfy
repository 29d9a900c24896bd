/**
 * The outline as a bag of records: one entry per task, at any depth, holding
 * its own fields and the id of the task it sits under. Sorting and grouping
 * only reorder sibling arrays, so they keep this bag; each edit changes it by
 * exactly the records it touches.
 */
module Records {
  import opened Wrappers
  import opened Seqs
  import opened StableSort
  import opened Tasks
  import opened Ordering

  /** A task's own fields, and the id of its parent (`None` at the root). */
  datatype Entry = Entry(id: string, date: Option<string>, text: string, collapsed: bool, parent: Option<string>)

  function EntryOf(t: Task, parent: Option<string>): Entry
  {
    Entry(t.id, t.date, t.text, t.collapsed, parent)
  }

  /** The entries of a forest whose roots sit under `parent`, in depth-first pre-order. */
  function Entries(ts: seq<Task>, parent: Option<string>): seq<Entry>
  {
    if ts == [] then []
    else [EntryOf(ts[0], parent)] + Entries(ts[0].subtasks, Some(ts[0].id)) + Entries(ts[1..], parent)
  }

  /** The entries of the whole outline as a multiset. */
  function Bag(tasks: seq<Task>): multiset<Entry>
  {
    multiset(Entries(tasks, None))
  }

  /** The entries of one task's subtree. */
  function Subtree(t: Task, parent: Option<string>): multiset<Entry>
  {
    multiset{EntryOf(t, parent)} + multiset(Entries(t.subtasks, Some(t.id)))
  }

  lemma {:induction false} EntriesAppend(a: seq<Task>, b: seq<Task>, p: Option<string>)
    ensures Entries(a + b, p) == Entries(a, p) + Entries(b, p)
  {
    if a == [] {
      assert a + b == b;
    } else {
      AppendHead(a, b);
      EntriesAppend(a[1..], b, p);
    }
  }

  /** A sibling array's entries around position `i`. */
  lemma EntriesSplit(arr: seq<Task>, i: nat, p: Option<string>)
    requires i < |arr|
    ensures multiset(Entries(arr, p)) ==
      multiset(Entries(arr[..i], p)) + Subtree(arr[i], p) + multiset(Entries(arr[i + 1..], p))
  {
    Split3(arr, i);
    EntriesAppend(arr[..i] + [arr[i]], arr[i + 1..], p);
    EntriesAppend(arr[..i], [arr[i]], p);
    assert [arr[i]][1..] == [];
  }

  /** Replacing entry `i` of a sibling array trades one subtree's entries for the other's. */
  lemma EntriesReplace(arr: seq<Task>, i: nat, t: Task, p: Option<string>)
    requires i < |arr|
    ensures multiset(Entries(arr[i := t], p)) + Subtree(arr[i], p) == multiset(Entries(arr, p)) + Subtree(t, p)
  {
    EntriesSplit(arr, i, p);
    EntriesSplit(arr[i := t], i, p);
    UpdateAround(arr, i, t);
  }

  /** Permuting a sibling array keeps the bag of entries. */
  lemma {:induction false} PermutationEntries(a: seq<Task>, b: seq<Task>, p: Option<string>)
    requires multiset(a) == multiset(b)
    ensures multiset(Entries(a, p)) == multiset(Entries(b, p))
    decreases |a|
  {
    if a == [] {
      assert |b| == |multiset(b)| == 0;
    } else {
      Cons(a);
      var j := IndexOf(b, a[0]);
      Split3(b, j);
      PermutationEntries(a[1..], b[..j] + b[j + 1..], p);
      EntriesRemoveAt(a, 0, p);
      EntriesRemoveAt(b, j, p);
      assert a[..0] + a[1..] == a[1..];
    }
  }

  /** A sibling array's entries: one subtree's, and those of the array without it. */
  lemma EntriesRemoveAt(arr: seq<Task>, i: nat, p: Option<string>)
    requires i < |arr|
    ensures multiset(Entries(arr, p)) == Subtree(arr[i], p) + multiset(Entries(arr[..i] + arr[i + 1..], p))
  {
    EntriesSplit(arr, i, p);
    EntriesAppend(arr[..i], arr[i + 1..], p);
  }

  lemma {:induction false} SortEachEntries(ts: seq<Task>, p: Option<string>)
    ensures multiset(Entries(SortEach(ts), p)) == multiset(Entries(ts, p))
    decreases |Ids(ts)|, 0
  {
    if ts != [] {
      IdsCons(ts);
      var t' := ts[0].(subtasks := SortAll(ts[0].subtasks));
      var r := SortEach(ts);
      assert r[0] == t' && r[1..] == SortEach(ts[1..]);
      SortAllEntries(ts[0].subtasks, Some(ts[0].id));
      SortEachEntries(ts[1..], p);
    }
  }

  /** Sorting every array keeps every task's fields and parent. */
  lemma {:induction false} SortAllEntries(ts: seq<Task>, p: Option<string>)
    ensures multiset(Entries(SortAll(ts), p)) == multiset(Entries(ts, p))
    decreases |Ids(ts)|, 1
  {
    var sorted := InsertionSort(ts, SortKeyOf);
    assert SortAll(ts) == SortEach(sorted);
    PermutationEntries(ts, sorted, p);
    SortPreservesSize(ts);
    SortEachEntries(sorted, p);
  }

  /** Grouping an array by date keeps every task's fields and parent. */
  lemma GroupOrderEntries(ts: seq<Task>, p: Option<string>)
    ensures multiset(Entries(GroupOrder(ts), p)) == multiset(Entries(ts, p))
  {
    GroupOrderPermutation(ts);
    PermutationEntries(GroupOrder(ts), ts, p);
  }

  /** The id of the task whose subtasks are the array at `path` (`p` for the top array). */
  function ArrayParent(tasks: seq<Task>, path: seq<nat>, p: Option<string>): Option<string>
    requires GetArrayByParentPath(tasks, path).Some?
  {
    if path == [] then p
    else ArrayParent(tasks[path[0]].subtasks, path[1..], Some(tasks[path[0]].id))
  }

  /** The record of the row at `index` of the array at `parentPath`. */
  function RowEntry(tasks: seq<Task>, parentPath: seq<nat>, index: nat): Entry
    requires IsRow(tasks, parentPath, index)
  {
    EntryOf(GetArrayByParentPath(tasks, parentPath).value[index], ArrayParent(tasks, parentPath, None))
  }

  /** `after` holds the records of `before`, with the record `gone` traded for those in `added`. */
  predicate Traded(before: seq<Task>, after: seq<Task>, gone: Entry, added: multiset<Entry>)
  {
    Bag(after) + multiset{gone} == Bag(before) + added
  }

  /**
   * Writing an array back at a path trades the old array's entries for the
   * new one's; every other task keeps its fields and its parent.
   */
  lemma {:induction false} SetArrayAtEntries(tasks: seq<Task>, path: seq<nat>, arr: seq<Task>, p: Option<string>)
    requires GetArrayByParentPath(tasks, path).Some?
    ensures var q := ArrayParent(tasks, path, p);
      multiset(Entries(SetArrayAt(tasks, path, arr), p)) + multiset(Entries(GetArrayByParentPath(tasks, path).value, q))
      == multiset(Entries(tasks, p)) + multiset(Entries(arr, q))
  {
    if path != [] {
      var i := path[0];
      SetArrayAtEntries(tasks[i].subtasks, path[1..], arr, Some(tasks[i].id));
      SetArrayAtEntriesStep(tasks, path, arr, p);
    }
  }

  /** One level of `SetArrayAtEntries`. */
  lemma SetArrayAtEntriesStep(tasks: seq<Task>, path: seq<nat>, arr: seq<Task>, p: Option<string>)
    requires path != [] && GetArrayByParentPath(tasks, path).Some?
    requires var i := path[0];
      multiset(Entries(SetArrayAt(tasks[i].subtasks, path[1..], arr), Some(tasks[i].id)))
        + multiset(Entries(GetArrayByParentPath(tasks[i].subtasks, path[1..]).value, ArrayParent(tasks[i].subtasks, path[1..], Some(tasks[i].id))))
      == multiset(Entries(tasks[i].subtasks, Some(tasks[i].id)))
        + multiset(Entries(arr, ArrayParent(tasks[i].subtasks, path[1..], Some(tasks[i].id))))
    ensures var q := ArrayParent(tasks, path, p);
      multiset(Entries(SetArrayAt(tasks, path, arr), p)) + multiset(Entries(GetArrayByParentPath(tasks, path).value, q))
      == multiset(Entries(tasks, p)) + multiset(Entries(arr, q))
  {
    var i := path[0];
    var t := tasks[i];
    var sub' := SetArrayAt(t.subtasks, path[1..], arr);
    var q := ArrayParent(tasks, path, p);
    PathUnfold(tasks, path, arr);
    EntriesReplace(tasks, i, t.(subtasks := sub'), p);
    Exchange(multiset(Entries(SetArrayAt(tasks, path, arr), p)), multiset(Entries(tasks, p)),
      Subtree(t, p), Subtree(t.(subtasks := sub'), p), multiset{EntryOf(t, p)},
      multiset(Entries(t.subtasks, Some(t.id))), multiset(Entries(sub', Some(t.id))),
      multiset(Entries(GetArrayByParentPath(tasks, path).value, q)), multiset(Entries(arr, q)));
  }

  /** Writing back a rearrangement of a sibling array keeps every record. */
  lemma SetArrayAtPermutedEntries(tasks: seq<Task>, path: seq<nat>, arr: seq<Task>)
    requires GetArrayByParentPath(tasks, path).Some?
    requires multiset(arr) == multiset(GetArrayByParentPath(tasks, path).value)
    ensures Bag(SetArrayAt(tasks, path, arr)) == Bag(tasks)
  {
    var q := ArrayParent(tasks, path, None);
    PermutationEntries(arr, GetArrayByParentPath(tasks, path).value, q);
    SetArrayAtEntries(tasks, path, arr, None);
    Cancel(Bag(SetArrayAt(tasks, path, arr)), Bag(tasks), multiset(Entries(arr, q)));
  }

  /** Replacing one task of the array at `path` trades its subtree's records for the new task's. */
  lemma SetRowEntries(tasks: seq<Task>, path: seq<nat>, i: nat, t': Task)
    requires GetArrayByParentPath(tasks, path).Some? && i < |GetArrayByParentPath(tasks, path).value|
    ensures var arr, q := GetArrayByParentPath(tasks, path).value, ArrayParent(tasks, path, None);
      Bag(SetArrayAt(tasks, path, arr[i := t'])) + Subtree(arr[i], q) == Bag(tasks) + Subtree(t', q)
  {
    var arr, q := GetArrayByParentPath(tasks, path).value, ArrayParent(tasks, path, None);
    SetArrayAtEntries(tasks, path, arr[i := t'], None);
    EntriesReplace(arr, i, t', q);
    Chain(Bag(SetArrayAt(tasks, path, arr[i := t'])), multiset(Entries(arr, q)), Bag(tasks),
      multiset(Entries(arr[i := t'], q)), Subtree(arr[i], q), Subtree(t', q));
  }

  /** A task whose own record changes from `x` to `y`, with the same subtasks, trades `x` for `y`. */
  lemma SetRowOwn(g: multiset<Entry>, t: multiset<Entry>, x: Entry, y: Entry, k: multiset<Entry>)
    requires g + (multiset{x} + k) == t + (multiset{y} + k)
    ensures g + multiset{x} == t + multiset{y}
  {
    forall e
      ensures (g + multiset{x})[e] == (t + multiset{y})[e]
    {
      assert (g + (multiset{x} + k))[e] == (t + (multiset{y} + k))[e];
    }
  }

  /** Multiset bookkeeping: `g` trades array `m` for `m'`, which trades `st` for `sp`. */
  lemma Chain<T>(g: multiset<T>, m: multiset<T>, t: multiset<T>, m': multiset<T>, st: multiset<T>, sp: multiset<T>)
    requires g + m == t + m' && m' + st == m + sp
    ensures g + st == t + sp
  {
    forall e
      ensures (g + st)[e] == (t + sp)[e]
    {
      assert (g + m)[e] == (t + m')[e] && (m' + st)[e] == (m + sp)[e];
    }
  }

  lemma Cancel<T>(a: multiset<T>, b: multiset<T>, c: multiset<T>)
    requires a + c == b + c
    ensures a == b
  {
    forall x
      ensures a[x] == b[x]
    {
      assert (a + c)[x] == (b + c)[x];
    }
  }

  /**
   * Multiset bookkeeping for one level: `a + s == b + s'` at this level and
   * `c' + o == c + n` one level down give `a + o == b + n`.
   */
  lemma Exchange<T>(a: multiset<T>, b: multiset<T>, s: multiset<T>, s': multiset<T>, e: multiset<T>,
                    c: multiset<T>, c': multiset<T>, o: multiset<T>, n: multiset<T>)
    requires a + s == b + s' && s == e + c && s' == e + c' && c' + o == c + n
    ensures a + o == b + n
  {
    forall x
      ensures (a + o)[x] == (b + n)[x]
    {
      assert (a + s)[x] == (b + s')[x] && (c' + o)[x] == (c + n)[x];
      assert s[x] == e[x] + c[x] && s'[x] == e[x] + c'[x];
    }
  }

  /** Multiset bookkeeping: `g` trades subtree `st` for `sp`, which trades the records `x` for `y`. */
  lemma Relay<T>(g: multiset<T>, t: multiset<T>, st: multiset<T>, sp: multiset<T>, x: multiset<T>, y: multiset<T>)
    requires g + st == t + sp && sp + x == st + y
    ensures g + x == t + y
  {
    forall e
      ensures (g + x)[e] == (t + y)[e]
    {
      assert (g + st)[e] == (t + sp)[e] && (sp + x)[e] == (st + y)[e];
    }
  }

  /** Multiset bookkeeping for a removal: trading `m = s + m'` for `m'` loses `s`. */
  lemma Shed<T>(g: multiset<T>, m: multiset<T>, t: multiset<T>, m': multiset<T>, s: multiset<T>)
    requires g + m == t + m' && m == s + m'
    ensures g + s == t
  {
    forall e
      ensures (g + s)[e] == t[e]
    {
      assert (g + m)[e] == (t + m')[e] && m[e] == (s + m')[e];
    }
  }
}
