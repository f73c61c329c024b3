/** A small verified insertion sort on integer sequences, used to order the
    collected intervals before a percentile is read off. */
module Sorting {

  /** Ascending order. */
  predicate Sorted(s: seq<int>)
  {
    forall i, j :: 0 <= i < j < |s| ==> s[i] <= s[j]
  }

  /** Inserts `x` into the sorted sequence `s` at its place. */
  function Insert(x: int, s: seq<int>): (r: seq<int>)
    requires Sorted(s)
    ensures Sorted(r)
    ensures |r| == |s| + 1
    ensures forall y :: y in r ==> y == x || y in s
    ensures multiset(r) == multiset(s) + multiset{x}
    decreases |s|
  {
    if |s| == 0 then [x]
    else if x <= s[0] then
      ConsSorted(x, s);
      [x] + s
    else
      var tail := Insert(x, s[1..]);
      assert s == [s[0]] + s[1..];
      ConsSorted(s[0], tail);
      [s[0]] + tail
  }

  /** Putting a lower bound of a sorted sequence in front keeps it sorted. */
  lemma ConsSorted(a: int, t: seq<int>)
    requires Sorted(t)
    requires forall y :: y in t ==> a <= y
    ensures Sorted([a] + t)
  {
    var r := [a] + t;
    forall i, j | 0 <= i < j < |r| ensures r[i] <= r[j] {
      if i > 0 {
        assert r[i] == t[i - 1] && r[j] == t[j - 1];
      } else {
        assert r[j] == t[j - 1] && t[j - 1] in t;
      }
    }
  }

  /** Sorts `s` ascending: the result is ordered and a permutation of `s`. */
  function SortSeq(s: seq<int>): (r: seq<int>)
    ensures Sorted(r)
    ensures multiset(r) == multiset(s)
    ensures |r| == |s|
    decreases |s|
  {
    if |s| == 0 then []
    else
      assert s == [s[0]] + s[1..];
      Insert(s[0], SortSeq(s[1..]))
  }

  /** Every element of a sorted permutation is an element of the input. */
  lemma SortedMembers(s: seq<int>, i: nat)
    requires i < |s|
    ensures SortSeq(s)[i] in s
  {
    var r := SortSeq(s);
    assert r[i] in multiset(r);
  }
}
