/**
 * Stable sorting by a string key, the behaviour `Array.prototype.sort`
 * guarantees for a consistent comparator, and filtering by key, the tool used
 * to state stability ("elements with equal keys keep their relative order").
 */
module StableSort {
  import opened Text
  import opened Seqs

  /** The elements of `s` whose key is `k`, in their order in `s`. */
  function FilterKey<T>(s: seq<T>, key: T -> string, k: string): (r: seq<T>)
    ensures |r| <= |s|
  {
    if s == [] then []
    else (if key(s[0]) == k then [s[0]] else []) + FilterKey(s[1..], key, k)
  }

  lemma {:induction false} FilterKeyAppend<T>(a: seq<T>, b: seq<T>, key: T -> string, k: string)
    ensures FilterKey(a + b, key, k) == FilterKey(a, key, k) + FilterKey(b, key, k)
  {
    if a != [] {
      assert (a + b)[0] == a[0] && (a + b)[1..] == a[1..] + b;
      FilterKeyAppend(a[1..], b, key, k);
    } else {
      assert a + b == b;
    }
  }

  lemma {:induction false} FilterKeyAll<T>(s: seq<T>, key: T -> string, k: string)
    requires forall x :: x in s ==> key(x) == k
    ensures FilterKey(s, key, k) == s
  {
    if s != [] {
      FilterKeyAll(s[1..], key, k);
      assert s == [s[0]] + s[1..];
    }
  }

  lemma {:induction false} FilterKeyNone<T>(s: seq<T>, key: T -> string, k: string)
    requires forall x :: x in s ==> key(x) != k
    ensures FilterKey(s, key, k) == []
  {
    if s != [] {
      FilterKeyNone(s[1..], key, k);
    }
  }

  /** Everything a filter keeps has the filtered key. */
  lemma {:induction false} FilterKeyMembers<T>(s: seq<T>, key: T -> string, k: string)
    ensures forall x :: x in FilterKey(s, key, k) ==> x in s && key(x) == k
  {
    if s != [] {
      FilterKeyMembers(s[1..], key, k);
    }
  }

  /** Filtering twice: by the same key is idempotent, by another key leaves nothing. */
  lemma {:induction false} FilterKeyTwice<T>(s: seq<T>, key: T -> string, k: string, k': string)
    ensures FilterKey(FilterKey(s, key, k), key, k') == if k == k' then FilterKey(s, key, k) else []
  {
    if s != [] {
      var head := if key(s[0]) == k then [s[0]] else [];
      FilterKeyTwice(s[1..], key, k, k');
      FilterKeyAppend(head, FilterKey(s[1..], key, k), key, k');
      if head != [] {
        assert head[1..] == [];
      }
    }
  }

  /** Filtering by an element's own key keeps every copy of that element. */
  lemma {:induction false} FilterKeyOwnCount<T>(s: seq<T>, key: T -> string, x: T)
    ensures multiset(FilterKey(s, key, key(x)))[x] == multiset(s)[x]
  {
    if s != [] {
      FilterKeyOwnCount(s[1..], key, x);
      assert s == [s[0]] + s[1..];
    }
  }

  /** Two sequences with the same elements per key, in the same order, are permutations. */
  lemma FiltersDeterminePermutation<T>(a: seq<T>, b: seq<T>, key: T -> string)
    requires forall k :: FilterKey(a, key, k) == FilterKey(b, key, k)
    ensures multiset(a) == multiset(b)
  {
    forall x
      ensures multiset(a)[x] == multiset(b)[x]
    {
      FilterKeyOwnCount(a, key, x);
      FilterKeyOwnCount(b, key, x);
      assert FilterKey(a, key, key(x)) == FilterKey(b, key, key(x));
    }
  }

  /** Non-decreasing by key under the string order. */
  predicate SortedBy<T>(s: seq<T>, key: T -> string)
  {
    forall i, j :: 0 <= i < j < |s| ==> LexLe(key(s[i]), key(s[j]))
  }

  /** Put `x` after every element whose key is not greater than its own. */
  function Insert<T>(s: seq<T>, x: T, key: T -> string): (r: seq<T>)
    ensures multiset(r) == multiset(s) + multiset{x}
  {
    if s == [] || LexLe(key(s[|s| - 1]), key(x)) then s + [x]
    else
      var init := s[..|s| - 1];
      assert s == init + [s[|s| - 1]];
      Insert(init, x, key) + [s[|s| - 1]]
  }

  /** A stable sort by key (the model of `arr.sort(cmp)` for a comparator on keys). */
  function InsertionSort<T>(s: seq<T>, key: T -> string): (r: seq<T>)
    ensures multiset(r) == multiset(s)
  {
    if s == [] then []
    else
      var init := s[..|s| - 1];
      assert s == init + [s[|s| - 1]];
      Insert(InsertionSort(init, key), s[|s| - 1], key)
  }

  lemma {:induction false} InsertFilter<T>(s: seq<T>, x: T, key: T -> string, k: string)
    ensures FilterKey(Insert(s, x, key), key, k) == FilterKey(s + [x], key, k)
  {
    if s == [] || LexLe(key(s[|s| - 1]), key(x)) {
    } else {
      var init, last := s[..|s| - 1], s[|s| - 1];
      var fi, fx, fl := FilterKey(init, key, k), FilterKey([x], key, k), FilterKey([last], key, k);
      assert FilterKey(Insert(s, x, key), key, k) == (fi + fx) + fl by {
        FilterKeyAppend(Insert(init, x, key), [last], key, k);
        InsertFilter(init, x, key, k);
        FilterKeyAppend(init, [x], key, k);
      }
      assert FilterKey(s + [x], key, k) == (fi + fl) + fx by {
        Snoc(s);
        FilterKeyAppend(init + [last], [x], key, k);
        FilterKeyAppend(init, [last], key, k);
      }
      assert fx + fl == fl + fx by {
        LexTrichotomy(key(x), key(last));
        if key(x) == k {
          FilterKeyNone([last], key, k);
        } else {
          FilterKeyNone([x], key, k);
        }
      }
      Assoc(fi, fx, fl);
      Assoc(fi, fl, fx);
    }
  }

  /** Sorting keeps the elements of every key in their original order. */
  lemma {:induction false} SortStable<T>(s: seq<T>, key: T -> string, k: string)
    ensures FilterKey(InsertionSort(s, key), key, k) == FilterKey(s, key, k)
  {
    if s != [] {
      var init, last := s[..|s| - 1], s[|s| - 1];
      assert s == init + [last];
      SortStable(init, key, k);
      InsertFilter(InsertionSort(init, key), last, key, k);
      FilterKeyAppend(InsertionSort(init, key), [last], key, k);
      FilterKeyAppend(init, [last], key, k);
    }
  }

  lemma LexLeFacts()
    ensures forall a: string, b: string :: LexLe(a, b) || LexLe(b, a)
    ensures forall a: string, b: string, c: string :: LexLe(a, b) && LexLe(b, c) ==> LexLe(a, c)
  {
    forall a: string, b: string, c: string
      ensures LexLe(a, b) || LexLe(b, a)
      ensures LexLe(a, b) && LexLe(b, c) ==> LexLe(a, c)
    {
      LexLeTotalPreorder(a, b, c);
    }
  }

  lemma {:induction false} InsertSorted<T>(s: seq<T>, x: T, key: T -> string)
    requires SortedBy(s, key)
    ensures SortedBy(Insert(s, x, key), key)
  {
    LexLeFacts();
    if s == [] || LexLe(key(s[|s| - 1]), key(x)) {
    } else {
      var init, last := s[..|s| - 1], s[|s| - 1];
      InsertSorted(init, x, key);
      var r := Insert(init, x, key);
      forall y | y in r
        ensures LexLe(key(y), key(last))
      {
        assert y in multiset(init) + multiset{x};
        if y != x {
          var i :| 0 <= i < |init| && init[i] == y;
          assert s[i] == y;
        }
      }
      var r' := r + [last];
      forall i, j | 0 <= i < j < |r'|
        ensures LexLe(key(r'[i]), key(r'[j]))
      {
        if j == |r| {
          assert r'[i] in r;
        }
      }
    }
  }

  lemma {:induction false} SortSorted<T>(s: seq<T>, key: T -> string)
    ensures SortedBy(InsertionSort(s, key), key)
  {
    if s != [] {
      SortSorted(s[..|s| - 1], key);
      InsertSorted(InsertionSort(s[..|s| - 1], key), s[|s| - 1], key);
    }
  }

  /** Sorting an already sorted sequence changes nothing. */
  lemma {:induction false} SortIdentity<T>(s: seq<T>, key: T -> string)
    requires SortedBy(s, key)
    ensures InsertionSort(s, key) == s
  {
    if s != [] {
      var init, x := s[..|s| - 1], s[|s| - 1];
      SortedInit(s, key);
      SortIdentity(init, key);
      assert Insert(init, x, key) == init + [x] by {
        if |s| > 1 {
          SortedLast(s, key);
        }
      }
      Snoc(s);
    }
  }

  lemma SortedInit<T>(s: seq<T>, key: T -> string)
    requires SortedBy(s, key) && s != []
    ensures SortedBy(s[..|s| - 1], key)
  {
  }

  lemma SortedLast<T>(s: seq<T>, key: T -> string)
    requires SortedBy(s, key) && |s| > 1
    ensures LexLe(key(s[..|s| - 1][|s| - 2]), key(s[|s| - 1]))
  {
  }
}
