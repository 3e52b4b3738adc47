/** The ascending order `FindProof` imposes on a solution's indices with `sort.Slice`,
    specified by its result: a sorted permutation. Insertion into a sorted list is
    the reference construction of that result. */
module Sorting {
  import opened Uint32

  predicate Sorted(s: seq<u32>)
  {
    forall i, j :: 0 <= i < j < |s| ==> s[i] <= s[j]
  }

  predicate StrictlyAscending(s: seq<u32>)
  {
    forall i, j :: 0 <= i < j < |s| ==> s[i] < s[j]
  }

  /** Two equal neighbours, the test `FindProof` applies to a sorted index list. */
  predicate HasAdjacentDuplicate(s: seq<u32>)
  {
    exists i :: 0 <= i < |s| - 1 && s[i] == s[i + 1]
  }

  /** Putting a bound in front of a sorted list keeps it sorted. */
  lemma SortedCons(x: u32, s: seq<u32>)
    requires Sorted(s) && forall i :: 0 <= i < |s| ==> x <= s[i]
    ensures Sorted([x] + s)
  {
    forall i, j | 0 <= i < j < |[x] + s|
      ensures ([x] + s)[i] <= ([x] + s)[j]
    {
      if i > 0 {
        assert ([x] + s)[i] == s[i - 1];
      }
      assert ([x] + s)[j] == s[j - 1];
    }
  }

  function Insert(x: u32, s: seq<u32>): (r: seq<u32>)
    requires Sorted(s)
    ensures Sorted(r) && multiset(r) == multiset(s) + multiset{x}
    ensures |r| == |s| + 1
  {
    if s == [] then [x]
    else if x <= s[0] then
      SortedCons(x, s);
      [x] + s
    else
      var rest := Insert(x, s[1..]);
      InsertBehind(x, s, rest);
      [s[0]] + rest
  }

  /** An element above the head goes behind it: the head, then the rest with x inserted. */
  lemma InsertBehind(x: u32, s: seq<u32>, rest: seq<u32>)
    requires Sorted(s) && s != [] && s[0] < x
    requires Sorted(rest) && multiset(rest) == multiset(s[1..]) + multiset{x}
    ensures Sorted([s[0]] + rest) && multiset([s[0]] + rest) == multiset(s) + multiset{x}
  {
    assert s == [s[0]] + s[1..];
    forall i | 0 <= i < |rest|
      ensures s[0] <= rest[i]
    {
      assert rest[i] in multiset(s[1..]) + multiset{x};
      if rest[i] != x {
        assert rest[i] in s[1..];
      }
    }
    SortedCons(s[0], rest);
  }

  /** The indices in ascending order. */
  function SortSeq(s: seq<u32>): (r: seq<u32>)
    ensures Sorted(r) && multiset(r) == multiset(s)
    ensures |r| == |s|
  {
    if s == [] then []
    else
      assert s == [s[0]] + s[1..];
      Insert(s[0], SortSeq(s[1..]))
  }

  /** A sorted list without equal neighbours is strictly ascending: what `FindProof`
      returns has pairwise distinct indices. */
  lemma {:induction false} SortedDistinct(s: seq<u32>)
    requires Sorted(s) && !HasAdjacentDuplicate(s)
    ensures StrictlyAscending(s)
  {
    forall i, j | 0 <= i < j < |s|
      ensures s[i] < s[j]
    {
      assert s[i] <= s[i + 1] && s[i] != s[i + 1];
      assert s[i + 1] <= s[j];
    }
  }

  /** Conversely a strictly ascending list has no equal neighbours. */
  lemma AscendingHasNoDuplicate(s: seq<u32>)
    requires StrictlyAscending(s)
    ensures !HasAdjacentDuplicate(s)
  {
  }
}
