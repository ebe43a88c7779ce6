/** The ascending order in which the constructor leaves the values
    (Arrays.sort(values), SecureShamir.java:62). The library's algorithm is
    not part of this model: any sort yields the same sequence, because a
    sorted permutation of a sequence is unique, so insertion sort stands
    for it. */
module Sorting {

  predicate Sorted(s: seq<int>)
  {
    forall i, j :: 0 <= i < j < |s| ==> s[i] <= s[j]
  }

  /** x placed before the first element not smaller than it. */
  function Insert(x: int, s: seq<int>): (r: seq<int>)
    requires Sorted(s)
    ensures Sorted(r)
    ensures multiset(r) == multiset(s) + multiset{x}
    ensures r[0] == if |s| == 0 || x <= s[0] then x else s[0]
  {
    if |s| == 0 then [x]
    else if x <= s[0] then [x] + s
    else
      assert s == [s[0]] + s[1..];
      SortedTail(s);
      var t := Insert(x, s[1..]);
      SortedCons(s[0], t);
      [s[0]] + t
  }

  /** Prepending an element no larger than the head keeps a sequence sorted. */
  lemma SortedCons(c: int, t: seq<int>)
    requires Sorted(t) && (|t| > 0 ==> c <= t[0])
    ensures Sorted([c] + t)
  {
    assert forall j :: 0 < j < |t| ==> t[0] <= t[j];
  }

  /** The values in ascending order. */
  function SortAscending(s: seq<int>): (r: seq<int>)
    ensures Sorted(r)
    ensures multiset(r) == multiset(s)
  {
    if |s| == 0 then []
    else
      assert s == [s[0]] + s[1..];
      Insert(s[0], SortAscending(s[1..]))
  }

  lemma SortedHeadIsLeast(a: seq<int>, v: int)
    requires Sorted(a) && |a| > 0 && v in multiset(a)
    ensures a[0] <= v
  {
    var i :| 0 <= i < |a| && a[i] == v;
  }

  lemma SortedTail(a: seq<int>)
    requires Sorted(a) && |a| > 0
    ensures Sorted(a[1..])
  {
    forall i, j | 0 <= i < j < |a| - 1 ensures a[1..][i] <= a[1..][j] {
      assert a[1..][i] == a[i + 1] && a[1..][j] == a[j + 1];
    }
  }

  lemma MultisetTail(a: seq<int>)
    requires |a| > 0
    ensures multiset(a[1..]) == multiset(a) - multiset{a[0]}
  {
    assert a == [a[0]] + a[1..];
    assert multiset(a) == multiset{a[0]} + multiset(a[1..]);
  }

  /** Removing equal heads from two permutations of each other leaves permutations. */
  lemma TailsPermutation(a: seq<int>, b: seq<int>)
    requires |a| > 0 && |b| > 0 && a[0] == b[0] && multiset(a) == multiset(b)
    ensures multiset(a[1..]) == multiset(b[1..])
  {
    MultisetTail(a);
    MultisetTail(b);
  }

  /** Two sorted sequences with the same elements are equal, so every sorting
      algorithm yields SortAscending's result. */
  lemma {:induction false} SortedPermutationUnique(a: seq<int>, b: seq<int>)
    requires Sorted(a) && Sorted(b) && multiset(a) == multiset(b)
    ensures a == b
    decreases |a|
  {
    assert |multiset(a)| == |a| && |multiset(b)| == |b|;
    if |a| > 0 {
      var a', b' := a[1..], b[1..];
      assert a[0] in a && b[0] in b;
      SortedHeadIsLeast(a, b[0]);
      SortedHeadIsLeast(b, a[0]);
      TailsPermutation(a, b);
      SortedTail(a);
      SortedTail(b);
      SortedPermutationUnique(a', b');
      assert a == [a[0]] + a' && b == [b[0]] + b';
    }
  }
}
