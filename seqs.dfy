/** Order-preserving operations on sequences shared by the list views. */
module Seqs {

  /** `a` is obtained from `b` by deleting elements, keeping the order of the rest. */
  predicate IsSubsequence<T(==)>(a: seq<T>, b: seq<T>)
  {
    a == [] || (b != [] && ((a[0] == b[0] && IsSubsequence(a[1..], b[1..])) || IsSubsequence(a, b[1..])))
  }

  /** `Array.prototype.filter`: the elements satisfying `p`, in their original order. */
  function Filter<T(==)>(s: seq<T>, p: T -> bool): (r: seq<T>)
    ensures |r| <= |s|
    ensures forall x | x in r :: x in s && p(x)
    ensures forall x | x in s && p(x) :: x in r
    ensures forall i :: 0 <= i < |r| ==> p(r[i])
    ensures IsSubsequence(r, s)
  {
    if s == [] then []
    else if p(s[0]) then [s[0]] + Filter(s[1..], p)
    else Filter(s[1..], p)
  }

  /** Filtering with a predicate that holds everywhere is the identity. */
  lemma {:induction false} FilterKeepsAll<T>(s: seq<T>, p: T -> bool)
    requires forall i :: 0 <= i < |s| ==> p(s[i])
    ensures Filter(s, p) == s
  {
    if s != [] {
      FilterKeepsAll(s[1..], p);
    }
  }

  /** Filtering distributes over concatenation. */
  lemma {:induction false} FilterAppend<T>(a: seq<T>, b: seq<T>, p: T -> bool)
    ensures Filter(a + b, p) == Filter(a, p) + Filter(b, p)
  {
    if a == [] {
      assert a + b == b;
    } else {
      assert (a + b)[1..] == a[1..] + b;
      FilterAppend(a[1..], b, p);
    }
  }

  /** Filtering only ever drops occurrences. */
  lemma {:induction false} FilterSubMultiset<T>(s: seq<T>, p: T -> bool)
    ensures multiset(Filter(s, p)) <= multiset(s)
  {
    if s != [] {
      FilterSubMultiset(s[1..], p);
      assert s == [s[0]] + s[1..];
    }
  }

  /** Elements at different positions differ. */
  predicate Distinct<T(==)>(s: seq<T>)
  {
    forall i, j :: 0 <= i < j < |s| ==> s[i] != s[j]
  }

  /** No element occurs more than once. */
  ghost predicate NoDuplicates<T>(s: seq<T>)
  {
    forall x | x in s :: multiset(s)[x] <= 1
  }

  /** Dropping occurrences keeps a sequence free of duplicates. */
  lemma NoDuplicatesOfSmaller<T>(a: seq<T>, b: seq<T>)
    requires multiset(a) <= multiset(b) && NoDuplicates(b)
    ensures NoDuplicates(a)
  {
    forall x | x in a
      ensures multiset(a)[x] <= 1
    {
      assert multiset(a)[x] <= multiset(b)[x];
      assert x in multiset(b);
    }
  }

  /** A sequence without duplicates has distinct elements at distinct positions, as does any part of it. */
  lemma NoDuplicatesDistinct<T>(a: seq<T>, b: seq<T>)
    requires NoDuplicates(a + b)
    ensures Distinct(a + b) && Distinct(b)
  {
    var s := a + b;
    forall i, j | 0 <= i < j < |s|
      ensures s[i] != s[j]
    {
      assert s == s[..j] + s[j..];
      assert s[i] in s[..j] && s[j] in s[j..];
      assert multiset(s)[s[j]] == multiset(s[..j])[s[j]] + multiset(s[j..])[s[j]];
    }
    assert forall i, j | 0 <= i < j < |b| :: b[i] == s[|a| + i] && b[j] == s[|a| + j];
  }

  lemma {:induction false} IsSubsequenceReflexive<T>(s: seq<T>)
    ensures IsSubsequence(s, s)
    decreases |s|
  {
    if s != [] {
      IsSubsequenceReflexive(s[1..]);
    }
  }

  /** The elements of a subsequence are elements of the whole. */
  lemma {:induction false} SubsequenceMembers<T>(a: seq<T>, b: seq<T>, x: T)
    requires IsSubsequence(a, b) && x in a
    ensures x in b
    decreases |b|
  {
    if a[0] == b[0] && IsSubsequence(a[1..], b[1..]) {
      if x != a[0] {
        assert x in a[1..];
        SubsequenceMembers(a[1..], b[1..], x);
      }
    } else {
      SubsequenceMembers(a, b[1..], x);
    }
  }

  /** One element that ends `b` is a subsequence of it. */
  lemma {:induction false} SubsequenceLast<T>(b: seq<T>, x: T)
    ensures IsSubsequence([x], b + [x])
    decreases |b|
  {
    if b == [] {
      assert [x][1..] == [];
    } else {
      assert (b + [x])[1..] == b[1..] + [x];
      SubsequenceLast(b[1..], x);
    }
  }

  /** A subsequence stays one when the longer sequence grows at the end. */
  lemma {:induction false} SubsequenceExtend<T>(a: seq<T>, b: seq<T>, x: T)
    requires IsSubsequence(a, b)
    ensures IsSubsequence(a, b + [x])
    decreases |b|
  {
    if a != [] {
      assert (b + [x])[1..] == b[1..] + [x];
      if a[0] == b[0] && IsSubsequence(a[1..], b[1..]) {
        SubsequenceExtend(a[1..], b[1..], x);
      } else {
        SubsequenceExtend(a, b[1..], x);
      }
    }
  }

  /** Appending the same element to both keeps the subsequence relation. */
  lemma {:induction false} SubsequenceAppend<T>(a: seq<T>, b: seq<T>, x: T)
    requires IsSubsequence(a, b)
    ensures IsSubsequence(a + [x], b + [x])
    decreases |b|
  {
    if a == [] {
      SubsequenceLast(b, x);
      assert a + [x] == [x];
    } else {
      assert (a + [x])[1..] == a[1..] + [x];
      assert (b + [x])[1..] == b[1..] + [x];
      if a[0] == b[0] && IsSubsequence(a[1..], b[1..]) {
        SubsequenceAppend(a[1..], b[1..], x);
      } else {
        SubsequenceAppend(a, b[1..], x);
      }
    }
  }

  /** The position of the first element satisfying `p`, or -1 (`Array.prototype.findIndex`). */
  function FindIndex<T>(s: seq<T>, p: T -> bool): (r: int)
    ensures -1 <= r < |s|
    ensures r >= 0 ==> p(s[r]) && forall k :: 0 <= k < r ==> !p(s[k])
    ensures r == -1 <==> forall k :: 0 <= k < |s| ==> !p(s[k])
  {
    if s == [] then -1
    else if p(s[0]) then 0
    else
      var k := FindIndex(s[1..], p);
      if k == -1 then -1 else k + 1
  }

  /** `s` with the element at position `i` taken out. */
  function RemoveAt<T>(s: seq<T>, i: nat): (r: seq<T>)
    requires i < |s|
    ensures |r| == |s| - 1
    ensures forall k :: 0 <= k < i ==> r[k] == s[k]
    ensures forall k :: i <= k < |r| ==> r[k] == s[k + 1]
    ensures multiset(r) + multiset{s[i]} == multiset(s)
  {
    assert s == s[..i] + [s[i]] + s[i + 1..];
    s[..i] + s[i + 1..]
  }

  /** How JavaScript's `Array.prototype.slice` turns an index argument into a position. */
  function SliceIndex(k: int, len: nat): (r: nat)
    ensures r <= len
    ensures 0 <= k <= len ==> r == k
    ensures k > len ==> r == len
    ensures k < 0 ==> r == if len + k < 0 then 0 else len + k
  {
    if k < 0 then (if len + k < 0 then 0 else len + k)
    else if k > len then len
    else k
  }

  /** `s.slice(start, end)` in JavaScript, for any integer arguments. */
  function Slice<T>(s: seq<T>, start: int, end: int): seq<T>
  {
    var lo, hi := SliceIndex(start, |s|), SliceIndex(end, |s|);
    if lo < hi then s[lo..hi] else []
  }

  /** `[...s.slice(0, index), ...s.slice(index + 1)]`, the removal idiom of the organizer. */
  function SpliceOut<T>(s: seq<T>, index: int): seq<T>
  {
    Slice(s, 0, index) + Slice(s, index + 1, |s|)
  }

  /** For an index in range the idiom removes exactly that element. */
  lemma SpliceOutInRange<T>(s: seq<T>, index: int)
    requires 0 <= index < |s|
    ensures SpliceOut(s, index) == RemoveAt(s, index)
  {
  }

  /** For an index at or past the end the idiom changes nothing. */
  lemma SpliceOutPastEnd<T>(s: seq<T>, index: int)
    requires index >= |s|
    ensures SpliceOut(s, index) == s
  {
    assert Slice(s, 0, index) == s[0..|s|] == s;
  }
}
