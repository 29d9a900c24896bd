/**
 * Grouping a sequence by a string key: keys in order of first appearance (the
 * insertion order of a `Map` filled left to right), and rebuilding a sequence
 * group after group in a chosen key order.
 */
module Grouping {
  import opened Text
  import opened StableSort
  import opened Seqs

  predicate Distinct<T(==)>(s: seq<T>)
  {
    forall i, j :: 0 <= i < j < |s| ==> s[i] != s[j]
  }

  /** The distinct keys of `s`, each at the position of its first appearance. */
  function FirstKeys<T>(s: seq<T>, key: T -> string): (ks: seq<string>)
    ensures Distinct(ks)
  {
    if s == [] then []
    else
      var ks := FirstKeys(s[..|s| - 1], key);
      var k := key(s[|s| - 1]);
      if k in ks then ks else ks + [k]
  }

  /** A key is listed exactly when some element has it. */
  lemma {:induction false} FirstKeysMember<T>(s: seq<T>, key: T -> string, k: string)
    ensures k in FirstKeys(s, key) <==> FilterKey(s, key, k) != []
  {
    if s != [] {
      var init, last := s[..|s| - 1], s[|s| - 1];
      assert s == init + [last];
      FirstKeysMember(init, key, k);
      FilterKeyAppend(init, [last], key, k);
    }
  }

  /** Appending one element lists its key last, unless the key is already listed. */
  lemma FirstKeysSnoc<T>(s: seq<T>, x: T, key: T -> string)
    ensures FirstKeys(s + [x], key) ==
      if key(x) in FirstKeys(s, key) then FirstKeys(s, key) else FirstKeys(s, key) + [key(x)]
  {
    SnocParts(s, x);
  }

  /** Appending one element extends the filter of its own key only. */
  lemma FilterKeySnoc<T>(s: seq<T>, x: T, key: T -> string, k: string)
    ensures FilterKey(s + [x], key, k) == if key(x) == k then FilterKey(s, key, k) + [x] else FilterKey(s, key, k)
  {
    FilterKeyAppend(s, [x], key, k);
    if key(x) != k {
      AppendNil(FilterKey(s, key, k));
    }
  }

  /** Appending a non-empty block of a new key lists that key last. */
  lemma {:induction false} FirstKeysBlock<T>(a: seq<T>, b: seq<T>, key: T -> string, k: string)
    requires b != [] && forall x :: x in b ==> key(x) == k
    requires k !in FirstKeys(a, key)
    ensures FirstKeys(a + b, key) == FirstKeys(a, key) + [k]
    decreases |b|
  {
    var b', x := b[..|b| - 1], b[|b| - 1];
    assert (a + b)[..|a + b| - 1] == a + b';
    assert (a + b)[|a + b| - 1] == x;
    if b' == [] {
      assert a + b' == a;
    } else {
      assert forall y :: y in b' ==> y in b;
      FirstKeysBlock(a, b', key, k);
    }
  }

  /** The groups of `s` for the keys `ks`, one after another. */
  function Rebuild<T>(ks: seq<string>, s: seq<T>, key: T -> string): seq<T>
  {
    if ks == [] then [] else Rebuild(ks[..|ks| - 1], s, key) + FilterKey(s, key, ks[|ks| - 1])
  }

  /** Rebuilding from one more key appends that key's elements. */
  lemma RebuildStep<T>(ks: seq<string>, j: nat, s: seq<T>, key: T -> string)
    requires j < |ks|
    ensures Rebuild(ks[..j + 1], s, key) == Rebuild(ks[..j], s, key) + FilterKey(s, key, ks[j])
  {
    assert ks[..j + 1][..j] == ks[..j];
  }

  /** Every element of a rebuild has one of the listed keys. */
  lemma {:induction false} RebuildMembers<T>(ks: seq<string>, s: seq<T>, key: T -> string)
    ensures forall x :: x in Rebuild(ks, s, key) ==> key(x) in ks
  {
    if ks != [] {
      var init, last := ks[..|ks| - 1], ks[|ks| - 1];
      RebuildMembers(init, s, key);
      FilterKeyMembers(s, key, last);
      assert forall k :: k in init ==> k in ks;
    }
  }

  /** With distinct keys, a rebuild holds each listed group whole and in its original order. */
  lemma {:induction false} RebuildFilter<T>(ks: seq<string>, s: seq<T>, key: T -> string, k: string)
    requires Distinct(ks)
    ensures FilterKey(Rebuild(ks, s, key), key, k) == if k in ks then FilterKey(s, key, k) else []
  {
    if ks != [] {
      var init, last := ks[..|ks| - 1], ks[|ks| - 1];
      assert ks == init + [last];
      RebuildFilter(init, s, key, k);
      FilterKeyAppend(Rebuild(init, s, key), FilterKey(s, key, last), key, k);
      FilterKeyTwice(s, key, last, k);
      if k == last {
        assert k !in init;
      }
    }
  }

  /** A rebuild depends on `s` only through its groups. */
  lemma {:induction false} RebuildSameGroups<T>(ks: seq<string>, a: seq<T>, b: seq<T>, key: T -> string)
    requires forall k :: FilterKey(a, key, k) == FilterKey(b, key, k)
    ensures Rebuild(ks, a, key) == Rebuild(ks, b, key)
  {
    if ks != [] {
      RebuildSameGroups(ks[..|ks| - 1], a, b, key);
    }
  }

  /** Listing present keys in rebuild order gives back the rebuild's own key order. */
  lemma {:induction false} FirstKeysRebuild<T>(ks: seq<string>, s: seq<T>, key: T -> string)
    requires Distinct(ks)
    requires forall k :: k in ks ==> FilterKey(s, key, k) != []
    ensures FirstKeys(Rebuild(ks, s, key), key) == ks
  {
    if ks != [] {
      var init, last := ks[..|ks| - 1], ks[|ks| - 1];
      assert ks == init + [last];
      assert forall k :: k in init ==> k in ks;
      FirstKeysRebuild(init, s, key);
      FilterKeyMembers(s, key, last);
      FirstKeysBlock(Rebuild(init, s, key), FilterKey(s, key, last), key, last);
    }
  }

  /** Elements sharing a key stand together. */
  predicate Contiguous<T>(s: seq<T>, key: T -> string)
  {
    forall i, j, l :: 0 <= i < j < l < |s| && key(s[i]) == key(s[l]) ==> key(s[j]) == key(s[i])
  }

  lemma {:induction false} RebuildContiguous<T>(ks: seq<string>, s: seq<T>, key: T -> string)
    requires Distinct(ks)
    ensures Contiguous(Rebuild(ks, s, key), key)
  {
    if ks != [] {
      var init, last := ks[..|ks| - 1], ks[|ks| - 1];
      var a, b := Rebuild(init, s, key), FilterKey(s, key, last);
      RebuildContiguous(init, s, key);
      RebuildMembers(init, s, key);
      FilterKeyMembers(s, key, last);
      assert last !in init by {
        assert ks == init + [last];
      }
      var r := a + b;
      forall i, j, l | 0 <= i < j < l < |r| && key(r[i]) == key(r[l])
        ensures key(r[j]) == key(r[i])
      {
        if l < |a| {
          assert r[i] == a[i] && r[j] == a[j] && r[l] == a[l];
        } else if i >= |a| {
          assert r[i] in b && r[j] in b;
        }
      }
    }
  }

  /** Non-decreasing by the rank of each element's key. */
  predicate RankSorted<T>(s: seq<T>, key: T -> string, rank: string -> string)
  {
    forall i, j :: 0 <= i < j < |s| ==> LexLe(rank(key(s[i])), rank(key(s[j])))
  }

  /** A rebuild over keys sorted by `rank` is sorted by the rank of each element's key. */
  lemma {:induction false} RebuildSorted<T>(ks: seq<string>, s: seq<T>, key: T -> string, rank: string -> string)
    requires SortedBy(ks, rank)
    ensures RankSorted(Rebuild(ks, s, key), key, rank)
  {
    if ks != [] {
      var init, last := ks[..|ks| - 1], ks[|ks| - 1];
      var a, b := Rebuild(init, s, key), FilterKey(s, key, last);
      RebuildSorted(init, s, key, rank);
      RebuildMembers(init, s, key);
      FilterKeyMembers(s, key, last);
      LexTrichotomy(rank(last), rank(last));
      var r := a + b;
      forall i, j | 0 <= i < j < |r|
        ensures LexLe(rank(key(r[i])), rank(key(r[j])))
      {
        if j < |a| {
          assert r[i] == a[i] && r[j] == a[j];
        } else if i >= |a| {
          assert r[i] in b && r[j] in b;
        } else {
          assert r[i] == a[i] && r[j] in b;
          RankBefore(ks, rank, key(r[i]));
        }
      }
    }
  }

  lemma RankBefore(ks: seq<string>, rank: string -> string, k: string)
    requires SortedBy(ks, rank) && ks != [] && k in ks[..|ks| - 1]
    ensures LexLe(rank(k), rank(ks[|ks| - 1]))
  {
    var p :| 0 <= p < |ks| - 1 && ks[p] == k;
  }

  lemma {:induction false} DistinctCount<T>(s: seq<T>, v: T)
    requires Distinct(s)
    ensures multiset(s)[v] <= 1
  {
    if s != [] {
      assert s == [s[0]] + s[1..];
      DistinctCount(s[1..], v);
      if s[0] == v {
        assert v !in s[1..];
      }
    }
  }

  /** A permutation of a sequence without repeats has no repeats. */
  lemma DistinctPermutation<T>(a: seq<T>, b: seq<T>)
    requires Distinct(a) && multiset(a) == multiset(b)
    ensures Distinct(b)
  {
    forall i, j | 0 <= i < j < |b|
      ensures b[i] != b[j]
    {
      if b[i] == b[j] {
        var v := b[i];
        assert b == b[..i] + [v] + b[i + 1..j] + [v] + b[j + 1..];
        assert multiset(b)[v] >= 2;
        DistinctCount(a, v);
      }
    }
  }
}
