/**
 * Small generic facts about sequences, stated once so that the proofs about
 * task arrays can use them without reasoning about `Task` equality.
 */
module Seqs {

  /** Extending a prefix by one element. */
  lemma TakeSnoc<T>(s: seq<T>, i: nat)
    requires i < |s|
    ensures s[..i + 1] == s[..i] + [s[i]]
  {
  }

  /** The whole sequence as its own prefix and suffix. */
  lemma TakeAll<T>(s: seq<T>)
    ensures s[..|s|] == s && s[0..] == s && s[..0] == []
  {
  }

  /** A non-empty sequence is its head followed by its tail. */
  lemma Cons<T>(s: seq<T>)
    requires s != []
    ensures s == [s[0]] + s[1..]
    ensures multiset(s[1..]) == multiset(s) - multiset{s[0]}
  {
  }

  /** A non-empty sequence is its front followed by its last element. */
  lemma Snoc<T>(s: seq<T>)
    requires s != []
    ensures s == s[..|s| - 1] + [s[|s| - 1]]
  {
  }

  /** A sequence around one of its positions. */
  lemma Split3<T>(s: seq<T>, i: nat)
    requires i < |s|
    ensures s == s[..i] + [s[i]] + s[i + 1..]
    ensures multiset(s[..i] + s[i + 1..]) == multiset(s) - multiset{s[i]}
  {
    assert s == s[..i] + [s[i]] + s[i + 1..];
  }

  /** Updating one position leaves the parts before and after it alone. */
  lemma UpdateAround<T>(s: seq<T>, i: nat, v: T)
    requires i < |s|
    ensures s[i := v][..i] == s[..i] && s[i := v][i + 1..] == s[i + 1..]
  {
  }

  /** The head and tail of a concatenation with a non-empty front. */
  lemma AppendHead<T>(a: seq<T>, b: seq<T>)
    requires a != []
    ensures (a + b)[0] == a[0] && (a + b)[1..] == a[1..] + b
  {
  }

  /** Dropping the head commutes with taking and dropping further along. */
  lemma TailSlices<T>(s: seq<T>, i: nat)
    requires 0 < i < |s|
    ensures s[1..][..i - 1] == s[..i][1..] && s[1..][i - 1] == s[i]
    ensures s[1..][i..] == s[i + 1..] && s[..i][0] == s[0]
  {
  }

  /** A prefix of a prefix. */
  lemma TakeTake<T>(s: seq<T>, i: nat, j: nat)
    requires i <= j <= |s|
    ensures s[..j][..i] == s[..i]
  {
  }

  /** The head and tail of a suffix. */
  lemma DropHead<T>(s: seq<T>, i: nat)
    requires i < |s|
    ensures s[i..][0] == s[i] && s[i..][1..] == s[i + 1..]
  {
  }

  /** An element of a multiset of a sequence sits at some index. */
  lemma IndexOf<T>(s: seq<T>, x: T) returns (j: nat)
    requires x in multiset(s)
    ensures j < |s| && s[j] == x
  {
    assert x in s;
    j :| 0 <= j < |s| && s[j] == x;
  }

  /** Concatenation is associative. */
  lemma Assoc<T>(a: seq<T>, b: seq<T>, c: seq<T>)
    ensures a + (b + c) == (a + b) + c
  {
  }

  /** A sequence around two neighbouring positions. */
  lemma SplitPair<T>(s: seq<T>, i: nat)
    requires i + 1 < |s|
    ensures s == s[..i] + [s[i], s[i + 1]] + s[i + 2..]
  {
  }

  /** Where a pair sits inside a concatenation. */
  lemma PairAt<T>(p: seq<T>, x: T, y: T, q: seq<T>)
    ensures |p| + 1 < |p + [x, y] + q|
    ensures (p + [x, y] + q)[|p|] == x && (p + [x, y] + q)[|p| + 1] == y
  {
  }

  /** Appending nothing. */
  lemma AppendNil<T>(s: seq<T>)
    ensures s + [] == s
  {
  }

  /** The parts of a sequence with one element appended. */
  lemma SnocParts<T>(s: seq<T>, x: T)
    ensures (s + [x])[..|s|] == s && (s + [x])[|s|] == x
  {
  }
}
