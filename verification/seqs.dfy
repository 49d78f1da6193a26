/** Sequence helpers shared by the model: duplicate-freedom, subsequences,
    key-based filtering (the `filter(x => x.k !== id)` idiom), removal by
    index, first index of an element and insert-if-absent deduplication. */
module Seqs {

  /** No element occurs twice. */
  predicate NoDup<T(==)>(s: seq<T>) {
    forall i, j :: 0 <= i < j < |s| ==> s[i] != s[j]
  }

  /** `a` is obtained from `b` by deleting elements, keeping the order of the rest. */
  predicate IsSubsequence<T(==)>(a: seq<T>, b: seq<T>)
    decreases |b|
  {
    if b == [] then a == []
    else (a != [] && a[0] == b[0] && IsSubsequence(a[1..], b[1..])) || IsSubsequence(a, b[1..])
  }

  lemma {:induction false} SubsequenceOfEmpty<T>(b: seq<T>)
    ensures IsSubsequence([], b)
  {
    if b != [] {
      SubsequenceOfEmpty(b[1..]);
    }
  }

  /** Appending the same element to both sides keeps a subsequence. */
  lemma {:induction false} SubsequenceAppend<T>(a: seq<T>, b: seq<T>, x: T)
    requires IsSubsequence(a, b)
    ensures IsSubsequence(a + [x], b + [x])
    ensures IsSubsequence(a, b + [x])
    decreases |b|
  {
    if b == [] {
      assert a == [];
      assert IsSubsequence(([] + [x])[1..], ([] + [x])[1..]);
      SubsequenceOfEmpty([x]);
    } else {
      assert (b + [x])[1..] == b[1..] + [x];
      if a != [] && a[0] == b[0] && IsSubsequence(a[1..], b[1..]) {
        SubsequenceAppend(a[1..], b[1..], x);
        assert (a + [x])[1..] == a[1..] + [x];
      } else {
        SubsequenceAppend(a, b[1..], x);
      }
    }
  }

  /** A subsequence only holds elements of the sequence it was taken from. */
  lemma {:induction false} SubsequenceMembers<T>(a: seq<T>, b: seq<T>)
    requires IsSubsequence(a, b)
    ensures forall x :: x in a ==> x in b
    decreases |b|
  {
    if b != [] {
      if a != [] && a[0] == b[0] && IsSubsequence(a[1..], b[1..]) {
        SubsequenceMembers(a[1..], b[1..]);
        assert a == [a[0]] + a[1..];
      } else {
        SubsequenceMembers(a, b[1..]);
      }
    }
  }

  /** The elements of `s` whose key differs from `k`, in their original order. */
  function Drop<T(!new), K(==)>(s: seq<T>, key: T -> K, k: K): (r: seq<T>)
    ensures forall x :: x in r <==> x in s && key(x) != k
    ensures IsSubsequence(r, s)
  {
    if s == [] then []
    else if key(s[0]) == k then Drop(s[1..], key, k)
    else
      assert ([s[0]] + Drop(s[1..], key, k))[1..] == Drop(s[1..], key, k);
      [s[0]] + Drop(s[1..], key, k)
  }

  /** The key filter keeps every copy of an element whose key differs and
      no copy of any other: identical records all survive or all go. */
  lemma {:induction false} DropCounts<T(!new), K>(s: seq<T>, key: T -> K, k: K)
    ensures forall x :: multiset(Drop(s, key, k))[x] == if key(x) != k then multiset(s)[x] else 0
  {
    if s != [] {
      DropCounts(s[1..], key, k);
      assert s == [s[0]] + s[1..];
    }
  }

  /** `s` without its element at position `i`; any other `i` leaves `s` as it is. */
  function RemoveAt<T>(s: seq<T>, i: int): (r: seq<T>)
    ensures 0 <= i < |s| ==> |r| == |s| - 1
    ensures 0 <= i < |s| ==> forall k :: 0 <= k < |r| ==> r[k] == if k < i then s[k] else s[k + 1]
    ensures !(0 <= i < |s|) ==> r == s
    ensures IsSubsequence(r, s)
  {
    if 0 <= i < |s| then
      RemoveAtIsSubsequence(s, i);
      s[..i] + s[i + 1..]
    else
      SubsequenceRefl(s);
      s
  }

  lemma {:induction false} SubsequenceRefl<T>(s: seq<T>)
    ensures IsSubsequence(s, s)
  {
    if s != [] {
      SubsequenceRefl(s[1..]);
    }
  }

  lemma {:induction false} RemoveAtIsSubsequence<T>(s: seq<T>, i: nat)
    requires i < |s|
    ensures IsSubsequence(s[..i] + s[i + 1..], s)
  {
    if i == 0 {
      assert s[..0] + s[1..] == s[1..];
      SubsequenceRefl(s[1..]);
    } else {
      RemoveAtIsSubsequence(s[1..], i - 1);
      assert (s[..i] + s[i + 1..])[1..] == s[1..][..i - 1] + s[1..][i..];
    }
  }

  /** Position of the first occurrence of `x` in `s`, or -1 (`Array.prototype.indexOf`). */
  function IndexOf<T(==)>(s: seq<T>, x: T): (i: int)
    ensures x in s ==> 0 <= i < |s| && s[i] == x && x !in s[..i]
    ensures x !in s ==> i == -1
  {
    if s == [] then -1
    else if s[0] == x then 0
    else
      var j := IndexOf(s[1..], x);
      assert s == [s[0]] + s[1..];
      if j < 0 then -1
      else
        assert s[..j + 1] == [s[0]] + s[1..][..j];
        j + 1
  }

  /** Insert-if-absent fold of `s` into an empty list: what a JavaScript `Set`
      holds, in its insertion order, after adding the elements of `s` one by one. */
  function Dedup<T(==,!new)>(s: seq<T>): (r: seq<T>)
    ensures NoDup(r)
    ensures forall x :: x in r <==> x in s
  {
    if s == [] then []
    else
      var d := Dedup(s[..|s| - 1]);
      var x := s[|s| - 1];
      assert s == s[..|s| - 1] + [x];
      if x in d then d else d + [x]
  }
}
