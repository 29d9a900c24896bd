/**
 * Ordering of sibling arrays: `compareTasksByDate`, the date-group ordering of
 * `enforceGroupOrderingInArray` and the recursive stable sort of
 * `sortAllArraysRecursively`.
 */
module Ordering {
  import opened Wrappers
  import opened Text
  import opened Dates
  import opened StableSort
  import opened Grouping
  import opened Tasks
  import opened Seqs

  function SortKeyOf(t: Task): string
  {
    DateSortKey(t.date)
  }

  function GroupKeyOf(t: Task): string
  {
    DateKeyForGrouping(t.date)
  }

  /** The source keeps every stored date `null` or a valid calendar date. */
  predicate DateOk(t: Task)
  {
    t.date.None? || IsValidDateText(t.date.value)
  }

  // ----- compareTasksByDate -----

  /** `compareTasksByDate`: -1, 0 or 1 by the `<` order of the date sort keys. */
  function CompareTasksByDate(a: Task, b: Task): (c: int)
    ensures c in {-1, 0, 1}
  {
    var ka, kb := SortKeyOf(a), SortKeyOf(b);
    if LexLess(ka, kb) then -1 else if LexLess(kb, ka) then 1 else 0
  }

  /**
   * The comparator is a consistent total preorder, and it agrees with the key
   * order the stable sort uses: `a` may precede `b` exactly when it compares `<= 0`.
   */
  lemma CompareTasksByDateIsComparator(a: Task, b: Task, c: Task)
    ensures CompareTasksByDate(a, b) == -CompareTasksByDate(b, a)
    ensures CompareTasksByDate(a, b) == 0 <==> SortKeyOf(a) == SortKeyOf(b)
    ensures CompareTasksByDate(a, b) <= 0 <==> LexLe(SortKeyOf(a), SortKeyOf(b))
    ensures CompareTasksByDate(a, b) <= 0 && CompareTasksByDate(b, c) <= 0 ==> CompareTasksByDate(a, c) <= 0
  {
    var ka, kb, kc := SortKeyOf(a), SortKeyOf(b), SortKeyOf(c);
    LexTrichotomy(ka, kb);
    LexTrichotomy(kb, kc);
    LexTrichotomy(ka, kc);
    LexLeTotalPreorder(ka, kb, kc);
  }

  /** On tasks with valid dates the comparator is chronological, with "no date" last. */
  lemma CompareTasksByDateChronological(a: Task, b: Task)
    requires DateOk(a) && DateOk(b)
    ensures HasDate(a.date) && HasDate(b.date) ==>
      var s, t := a.date.value, b.date.value;
      (CompareTasksByDate(a, b) == -1 <==>
        ChronoLess(YearOf(s), MonthOf(s), DayOf(s), YearOf(t), MonthOf(t), DayOf(t)))
    ensures HasDate(a.date) && !HasDate(b.date) ==> CompareTasksByDate(a, b) <= 0
    ensures HasDate(a.date) && !HasDate(b.date) && a.date.value != NoDateSortKey ==> CompareTasksByDate(a, b) == -1
  {
    if HasDate(a.date) {
      ValidDateCharacterization(a.date.value);
      NoDateSortsLast(a.date.value);
      LexTrichotomy(a.date.value, NoDateSortKey);
      if HasDate(b.date) {
        ValidDateCharacterization(b.date.value);
        DateOrderIsChronological(a.date.value, b.date.value);
      }
    }
  }

  // ----- enforceGroupOrderingInArray -----

  /** The sorted list of date-group keys: first-appearance order, stably sorted with `__none__` read as `9999-12-31`. */
  function GroupKeys(arr: seq<Task>): seq<string>
  {
    InsertionSort(FirstKeys(arr, GroupKeyOf), GroupSortKey)
  }

  /** `enforceGroupOrderingInArray(arr)`: the groups of `arr`, one after another in key order. */
  function GroupOrder(arr: seq<Task>): seq<Task>
  {
    Rebuild(GroupKeys(arr), arr, GroupKeyOf)
  }

  lemma GroupKeysSpec(arr: seq<Task>)
    ensures Distinct(GroupKeys(arr)) && SortedBy(GroupKeys(arr), GroupSortKey)
    ensures forall k :: k in GroupKeys(arr) <==> FilterKey(arr, GroupKeyOf, k) != []
  {
    var first := FirstKeys(arr, GroupKeyOf);
    DistinctPermutation(first, GroupKeys(arr));
    SortSorted(first, GroupSortKey);
    forall k
      ensures k in GroupKeys(arr) <==> FilterKey(arr, GroupKeyOf, k) != []
    {
      FirstKeysMember(arr, GroupKeyOf, k);
      assert k in first <==> k in multiset(first);
      assert k in GroupKeys(arr) <==> k in multiset(GroupKeys(arr));
    }
  }

  /** Tasks with the same date key keep their relative order. */
  lemma GroupOrderStable(arr: seq<Task>, k: string)
    ensures FilterKey(GroupOrder(arr), GroupKeyOf, k) == FilterKey(arr, GroupKeyOf, k)
  {
    GroupKeysSpec(arr);
    RebuildFilter(GroupKeys(arr), arr, GroupKeyOf, k);
  }

  /** The result is a permutation of the input. */
  lemma GroupOrderPermutation(arr: seq<Task>)
    ensures multiset(GroupOrder(arr)) == multiset(arr)
  {
    forall k
      ensures FilterKey(GroupOrder(arr), GroupKeyOf, k) == FilterKey(arr, GroupKeyOf, k)
    {
      GroupOrderStable(arr, k);
    }
    FiltersDeterminePermutation(GroupOrder(arr), arr, GroupKeyOf);
  }

  /** Each date group stands together, and groups ascend by key with `__none__` read as `9999-12-31`. */
  lemma GroupOrderGrouped(arr: seq<Task>)
    ensures Contiguous(GroupOrder(arr), GroupKeyOf)
    ensures RankSorted(GroupOrder(arr), GroupKeyOf, GroupSortKey)
  {
    GroupKeysSpec(arr);
    RebuildContiguous(GroupKeys(arr), arr, GroupKeyOf);
    RebuildSorted(GroupKeys(arr), arr, GroupKeyOf, GroupSortKey);
  }

  /** With valid dates, the no-date group comes after every real date other than `9999-12-31`. */
  lemma NoDateGroupAfterDates(arr: seq<Task>, i: nat, j: nat)
    requires forall t :: t in arr ==> DateOk(t)
    requires i < |GroupOrder(arr)| && j < |GroupOrder(arr)|
    requires !HasDate(GroupOrder(arr)[i].date)
    requires HasDate(GroupOrder(arr)[j].date) && GroupOrder(arr)[j].date.value != NoDateSortKey
    ensures j < i
  {
    var r := GroupOrder(arr);
    var ri, rj := r[i], r[j];
    GroupOrderPermutation(arr);
    assert rj in multiset(arr);
    assert DateOk(rj);
    var d := rj.date.value;
    ValidDateCharacterization(d);
    assert d != NoDateGroupKey by {
      assert |d| == 10;
    }
    NoDateSortsLast(d);
    LexTrichotomy(d, NoDateSortKey);
    assert GroupSortKey(GroupKeyOf(ri)) == NoDateSortKey;
    assert GroupSortKey(GroupKeyOf(rj)) == d;
    assert !LexLe(NoDateSortKey, d);
    GroupOrderGrouped(arr);
    assert !(i < j);
  }

  /** Applying the group ordering twice gives the same result as applying it once. */
  lemma GroupOrderIdempotent(arr: seq<Task>)
    ensures GroupOrder(GroupOrder(arr)) == GroupOrder(arr)
  {
    var ks := GroupKeys(arr);
    var r := GroupOrder(arr);
    GroupKeysSpec(arr);
    FirstKeysRebuild(ks, arr, GroupKeyOf);
    SortIdentity(ks, GroupSortKey);
    assert GroupKeys(r) == ks;
    forall k
      ensures FilterKey(r, GroupKeyOf, k) == FilterKey(arr, GroupKeyOf, k)
    {
      GroupOrderStable(arr, k);
    }
    RebuildSameGroups(ks, r, arr, GroupKeyOf);
  }

  /** The map of groups and its key list describe exactly the groups of `s`. */
  ghost predicate GroupsOf(s: seq<Task>, groups: map<string, seq<Task>>, keys: seq<string>)
  {
    && keys == FirstKeys(s, GroupKeyOf)
    && (forall k :: k in groups <==> k in keys)
    && (forall k :: k in groups ==> groups[k] == FilterKey(s, GroupKeyOf, k))
  }

  /** One step of the grouping loop: push `t` onto its group, creating the group when new. */
  lemma GroupsStep(s: seq<Task>, t: Task, groups: map<string, seq<Task>>, keys: seq<string>)
    requires GroupsOf(s, groups, keys)
    ensures var k := GroupKeyOf(t);
      var g := if k in groups then groups else groups[k := []];
      GroupsOf(s + [t], g[k := g[k] + [t]], if k in groups then keys else keys + [k])
  {
    var k := GroupKeyOf(t);
    if k in groups {
      GroupsStepOld(s, t, groups, keys);
    } else {
      GroupsStepNew(s, t, groups, keys);
      var g := groups[k := []];
      assert g[k] + [t] == [t];
      assert g[k := g[k] + [t]] == groups[k := [t]];
    }
  }

  /** A task whose group exists joins the end of it. */
  lemma GroupsStepOld(s: seq<Task>, t: Task, groups: map<string, seq<Task>>, keys: seq<string>)
    requires GroupsOf(s, groups, keys) && GroupKeyOf(t) in groups
    ensures GroupsOf(s + [t], groups[GroupKeyOf(t) := groups[GroupKeyOf(t)] + [t]], keys)
  {
    var k := GroupKeyOf(t);
    FirstKeysSnoc(s, t, GroupKeyOf);
    forall k' | k' in groups
      ensures groups[k := groups[k] + [t]][k'] == FilterKey(s + [t], GroupKeyOf, k')
    {
      FilterKeySnoc(s, t, GroupKeyOf, k');
    }
  }

  /** A task of a new group starts it, and its key is listed last. */
  lemma GroupsStepNew(s: seq<Task>, t: Task, groups: map<string, seq<Task>>, keys: seq<string>)
    requires GroupsOf(s, groups, keys) && GroupKeyOf(t) !in groups
    ensures GroupsOf(s + [t], groups[GroupKeyOf(t) := [t]], keys + [GroupKeyOf(t)])
  {
    var k := GroupKeyOf(t);
    FirstKeysSnoc(s, t, GroupKeyOf);
    assert FilterKey(s, GroupKeyOf, k) == [] by {
      FirstKeysMember(s, GroupKeyOf, k);
    }
    forall k' | k' in groups || k' == k
      ensures groups[k := [t]][k'] == FilterKey(s + [t], GroupKeyOf, k')
    {
      FilterKeySnoc(s, t, GroupKeyOf, k');
    }
  }

  /** The first loop of `enforceGroupOrderingInArray`: fill the map of groups. */
  method CollectGroups(arr: seq<Task>) returns (groups: map<string, seq<Task>>, keys: seq<string>)
    ensures GroupsOf(arr, groups, keys)
  {
    groups := map[];
    keys := [];
    var i := 0;
    while i < |arr|
      invariant i <= |arr|
      invariant GroupsOf(arr[..i], groups, keys)
    {
      var t := arr[i];
      var k := DateKeyForGrouping(t.date);
      GroupsStep(arr[..i], t, groups, keys);
      TakeSnoc(arr, i);
      if k !in groups {
        groups := groups[k := []];
        keys := keys + [k];
      }
      groups := groups[k := groups[k] + [t]];
      i := i + 1;
    }
    TakeAll(arr);
  }

  /**
   * `enforceGroupOrderingInArray`: collect the groups, sort the keys, and
   * concatenate the groups in key order.
   */
  method EnforceGroupOrderingInArray(arr: seq<Task>) returns (rebuilt: seq<Task>)
    ensures rebuilt == GroupOrder(arr)
  {
    var groups, keys := CollectGroups(arr);
    keys := InsertionSort(keys, GroupSortKey);
    assert forall k :: k in keys ==> k in groups by {
      assert forall k :: k in keys <==> k in multiset(keys);
    }
    rebuilt := [];
    var j := 0;
    while j < |keys|
      invariant j <= |keys|
      invariant rebuilt == Rebuild(keys[..j], arr, GroupKeyOf)
    {
      RebuildStep(keys, j, arr, GroupKeyOf);
      rebuilt := rebuilt + groups[keys[j]];
      j := j + 1;
    }
    TakeAll(keys);
  }

  // ----- sortAllArraysRecursively -----

  /** `sortAllArraysRecursively`: stably sort the array by date key, then every subtask array. */
  function SortAll(ts: seq<Task>): seq<Task>
    decreases |Ids(ts)|, 1
  {
    SortPreservesSize(ts);
    SortEach(InsertionSort(ts, SortKeyOf))
  }

  lemma SortPreservesSize(ts: seq<Task>)
    ensures |Ids(InsertionSort(ts, SortKeyOf))| == |Ids(ts)|
  {
    var sorted := InsertionSort(ts, SortKeyOf);
    PermutationIds(ts, sorted);
    assert |multiset(Ids(sorted))| == |multiset(Ids(ts))|;
  }

  function SortEach(ts: seq<Task>): seq<Task>
    decreases |Ids(ts)|, 0
  {
    if ts == [] then []
    else
      IdsCons(ts);
      [ts[0].(subtasks := SortAll(ts[0].subtasks))] + SortEach(ts[1..])
  }

  /** Every sibling array, at every depth, is non-decreasing by date key. */
  predicate AllSorted(ts: seq<Task>)
  {
    SortedBy(ts, SortKeyOf) && forall i :: 0 <= i < |ts| ==> AllSorted(ts[i].subtasks)
  }

  lemma {:induction false} SortEachPointwise(ts: seq<Task>)
    ensures |SortEach(ts)| == |ts|
    ensures forall i :: 0 <= i < |ts| ==> SortEach(ts)[i] == ts[i].(subtasks := SortAll(ts[i].subtasks))
  {
    if ts != [] {
      var rest := SortEach(ts[1..]);
      SortEachPointwise(ts[1..]);
      var r := SortEach(ts);
      assert r == [ts[0].(subtasks := SortAll(ts[0].subtasks))] + rest;
      forall i | 1 <= i < |ts|
        ensures r[i] == ts[i].(subtasks := SortAll(ts[i].subtasks))
      {
        assert r[i] == rest[i - 1];
        assert ts[1..][i - 1] == ts[i];
      }
    }
  }

  lemma {:induction false} SortAllSorted(ts: seq<Task>)
    ensures AllSorted(SortAll(ts))
    decreases |Ids(ts)|
  {
    var sorted := InsertionSort(ts, SortKeyOf);
    SortPreservesSize(ts);
    SortSorted(ts, SortKeyOf);
    SortEachPointwise(sorted);
    var r := SortAll(ts);
    forall i | 0 <= i < |r|
      ensures AllSorted(r[i].subtasks)
    {
      ChildSmaller(sorted, i);
      SortAllSorted(sorted[i].subtasks);
    }
    assert forall i :: 0 <= i < |r| ==> SortKeyOf(r[i]) == SortKeyOf(sorted[i]);
  }

  lemma {:induction false} SortEachIds(ts: seq<Task>)
    ensures multiset(Ids(SortEach(ts))) == multiset(Ids(ts))
    decreases |Ids(ts)|, 0
  {
    if ts != [] {
      IdsCons(ts);
      var t' := ts[0].(subtasks := SortAll(ts[0].subtasks));
      var r := SortEach(ts);
      assert r[0] == t' && r[1..] == SortEach(ts[1..]);
      IdsCons(r);
      SortAllIds(ts[0].subtasks);
      SortEachIds(ts[1..]);
    }
  }

  /** Sorting loses and duplicates no task. */
  lemma {:induction false} SortAllIds(ts: seq<Task>)
    ensures multiset(Ids(SortAll(ts))) == multiset(Ids(ts))
    decreases |Ids(ts)|, 1
  {
    var sorted := InsertionSort(ts, SortKeyOf);
    assert SortAll(ts) == SortEach(sorted);
    PermutationIds(ts, sorted);
    SortPreservesSize(ts);
    SortEachIds(sorted);
  }

  /** The ids of the top-level tasks, in order. */
  function Roots(ts: seq<Task>): seq<string>
  {
    if ts == [] then [] else [ts[0].id] + Roots(ts[1..])
  }

  lemma {:induction false} SortEachFilter(ts: seq<Task>, k: string)
    ensures Roots(FilterKey(SortEach(ts), SortKeyOf, k)) == Roots(FilterKey(ts, SortKeyOf, k))
    decreases |ts|
  {
    if ts != [] {
      var t := ts[0];
      var t' := t.(subtasks := SortAll(t.subtasks));
      var r := SortEach(ts);
      assert r == [t'] + SortEach(ts[1..]);
      assert r[0] == t' && r[1..] == SortEach(ts[1..]);
      SortEachFilter(ts[1..], k);
      var fr, ft := FilterKey(r[1..], SortKeyOf, k), FilterKey(ts[1..], SortKeyOf, k);
      assert SortKeyOf(t') == SortKeyOf(t);
      if SortKeyOf(t) == k {
        assert FilterKey(r, SortKeyOf, k) == [t'] + fr;
        assert FilterKey(ts, SortKeyOf, k) == [t] + ft;
        assert ([t'] + fr)[1..] == fr && ([t] + ft)[1..] == ft;
      } else {
        assert FilterKey(r, SortKeyOf, k) == fr;
        assert FilterKey(ts, SortKeyOf, k) == ft;
      }
    }
  }

  /** At the top level the sort is stable: tasks with equal date keys keep their order. */
  lemma SortAllStable(ts: seq<Task>, k: string)
    ensures Roots(FilterKey(SortAll(ts), SortKeyOf, k)) == Roots(FilterKey(ts, SortKeyOf, k))
  {
    var sorted := InsertionSort(ts, SortKeyOf);
    SortEachFilter(sorted, k);
    SortStable(ts, SortKeyOf, k);
  }

  /** An outline that is already sorted everywhere is left unchanged. */
  lemma {:induction false} SortAllIdentity(ts: seq<Task>)
    requires AllSorted(ts)
    ensures SortAll(ts) == ts
    decreases |Ids(ts)|
  {
    SortIdentity(ts, SortKeyOf);
    SortEachPointwise(ts);
    forall i | 0 <= i < |ts|
      ensures SortAll(ts[i].subtasks) == ts[i].subtasks
    {
      ChildSmaller(ts, i);
      SortAllIdentity(ts[i].subtasks);
    }
  }

  lemma SortAllIdempotent(ts: seq<Task>)
    ensures SortAll(SortAll(ts)) == SortAll(ts)
  {
    SortAllSorted(ts);
    SortAllIdentity(SortAll(ts));
  }

  /** `sortAllArraysRecursively`: sort the array, then recurse into each task's subtasks. */
  method SortAllArraysRecursively(ts: seq<Task>) returns (r: seq<Task>)
    ensures r == SortAll(ts)
    decreases |Ids(ts)|
  {
    var sorted := InsertionSort(ts, SortKeyOf);
    SortPreservesSize(ts);
    r := sorted;
    var i := 0;
    while i < |r|
      invariant i <= |r| == |sorted|
      invariant forall j :: 0 <= j < i ==> r[j] == sorted[j].(subtasks := SortAll(sorted[j].subtasks))
      invariant forall j :: i <= j < |r| ==> r[j] == sorted[j]
    {
      ChildSmaller(sorted, i);
      var sub := SortAllArraysRecursively(r[i].subtasks);
      r := r[i := r[i].(subtasks := sub)];
      i := i + 1;
    }
    SortEachPointwise(sorted);
  }
}
