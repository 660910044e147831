// Algorithms/algo_set.hpp: set operations on sorted ranges with the default comparison `<`.
// Each operation is specified by a reference function over the two cursor positions (i, j)
// that consumes the ranges from the front exactly as the merge loop does; lemmas then state
// what each reference function means as a multiset (union = max of multiplicities,
// intersection = min, difference = truncated subtraction, symmetric difference = absolute
// difference) and that its output is sorted when the inputs are.
module AlgoSet {
  import opened Algo

  /** A sorted range split at position i. */
  lemma HeadAt(s: seq<int>, i: int)
    requires 0 <= i < |s|
    ensures multiset(s[i..]) == multiset{s[i]} + multiset(s[i + 1..])
  {
    assert s[i..] == [s[i]] + s[i + 1..];
  }

  /** The count of x from i on is its count from i + 1 on, plus one when s[i] is x. */
  lemma HeadCount(s: seq<int>, i: int, x: int)
    requires 0 <= i < |s|
    ensures multiset(s[i..])[x] == multiset(s[i + 1..])[x] + (if x == s[i] then 1 else 0)
  {
    assert s[i..] == [s[i]] + s[i + 1..];
  }

  /** A value below the element at i of a sorted range does not occur from i on. */
  lemma BelowAt(s: seq<int>, i: int, x: int)
    requires Sorted(s) && 0 <= i < |s| && x < s[i]
    ensures multiset(s[i..])[x] == 0
  {
    assert x !in s[i..];
  }

  /** Prepending h adds one occurrence of h and none of anything else. */
  lemma ConsCount(h: int, t: seq<int>, x: int)
    ensures multiset([h] + t)[x] == multiset(t)[x] + (if x == h then 1 else 0)
  {
  }

  /** Prepending a value not above any element keeps a range sorted. */
  lemma SortedCons(h: int, t: seq<int>)
    requires Sorted(t) && forall y :: y in t ==> h <= y
    ensures Sorted([h] + t)
  {
    forall i, j | 0 <= i < j < |t| + 1
      ensures ([h] + t)[i] <= ([h] + t)[j]
    {
      assert t[j - 1] in t;
    }
  }

  // ---------------------------------------------------------------------------
  // Reference functions; i and j are the cursors first1 and first2.

  /** includes: every element of range 2 is matched in range 1. */
  function IncludesFrom(a: seq<int>, b: seq<int>, i: int, j: int): bool
    requires 0 <= i <= |a| && 0 <= j <= |b|
    decreases |a| - i + |b| - j
  {
    if i == |a| || j == |b| then j == |b|
    else if b[j] < a[i] then false
    else if a[i] < b[j] then IncludesFrom(a, b, i + 1, j)
    else IncludesFrom(a, b, i + 1, j + 1)
  }

  function UnionFrom(a: seq<int>, b: seq<int>, i: int, j: int): seq<int>
    requires 0 <= i <= |a| && 0 <= j <= |b|
    decreases |a| - i + |b| - j
  {
    if i == |a| then b[j..]
    else if j == |b| then a[i..]
    else if a[i] < b[j] then [a[i]] + UnionFrom(a, b, i + 1, j)
    else if b[j] < a[i] then [b[j]] + UnionFrom(a, b, i, j + 1)
    else [a[i]] + UnionFrom(a, b, i + 1, j + 1)
  }

  function IntersectionFrom(a: seq<int>, b: seq<int>, i: int, j: int): seq<int>
    requires 0 <= i <= |a| && 0 <= j <= |b|
    decreases |a| - i + |b| - j
  {
    if i == |a| || j == |b| then []
    else if a[i] < b[j] then IntersectionFrom(a, b, i + 1, j)
    else if b[j] < a[i] then IntersectionFrom(a, b, i, j + 1)
    else [a[i]] + IntersectionFrom(a, b, i + 1, j + 1)
  }

  function DifferenceFrom(a: seq<int>, b: seq<int>, i: int, j: int): seq<int>
    requires 0 <= i <= |a| && 0 <= j <= |b|
    decreases |a| - i + |b| - j
  {
    if i == |a| then []
    else if j == |b| then a[i..]
    else if a[i] < b[j] then [a[i]] + DifferenceFrom(a, b, i + 1, j)
    else if b[j] < a[i] then DifferenceFrom(a, b, i, j + 1)
    else DifferenceFrom(a, b, i + 1, j + 1)
  }

  function SymmetricDifferenceFrom(a: seq<int>, b: seq<int>, i: int, j: int): seq<int>
    requires 0 <= i <= |a| && 0 <= j <= |b|
    decreases |a| - i + |b| - j
  {
    if i == |a| then b[j..]
    else if j == |b| then a[i..]
    else if a[i] < b[j] then [a[i]] + SymmetricDifferenceFrom(a, b, i + 1, j)
    else if b[j] < a[i] then [b[j]] + SymmetricDifferenceFrom(a, b, i, j + 1)
    else SymmetricDifferenceFrom(a, b, i + 1, j + 1)
  }

  // ---------------------------------------------------------------------------
  // What the reference functions mean

  /** includes is multiset containment of (what is left of) range 2 in range 1. */
  lemma {:induction false} IncludesIsSubMultiset(a: seq<int>, b: seq<int>, i: int, j: int)
    requires Sorted(a) && Sorted(b) && 0 <= i <= |a| && 0 <= j <= |b|
    ensures IncludesFrom(a, b, i, j) <==> multiset(b[j..]) <= multiset(a[i..])
    decreases |a| - i + |b| - j
  {
    if j == |b| {
    } else if i == |a| {
      HeadAt(b, j);
      assert multiset(a[i..]) == multiset{};
      assert multiset(b[j..])[b[j]] > 0;
    } else {
      HeadAt(a, i);
      HeadAt(b, j);
      if b[j] < a[i] {
        BelowAt(a, i, b[j]);
      } else if a[i] < b[j] {
        IncludesIsSubMultiset(a, b, i + 1, j);
        BelowAt(b, j, a[i]);
        ghost var mb, ma1 := multiset(b[j..]), multiset(a[i + 1..]);
        if multiset(b[j..]) <= multiset(a[i..]) {
          forall x ensures mb[x] <= ma1[x] {
            if x == a[i] {
              assert multiset(b[j..])[x] == 0;
            } else {
              assert multiset(b[j..])[x] <= multiset(a[i..])[x];
            }
          }
        }
      } else {
        IncludesIsSubMultiset(a, b, i + 1, j + 1);
        ghost var mb1, ma1 := multiset(b[j + 1..]), multiset(a[i + 1..]);
        if multiset(b[j..]) <= multiset(a[i..]) {
          forall x ensures mb1[x] <= ma1[x] {
            assert multiset(b[j..])[x] <= multiset(a[i..])[x];
          }
        }
      }
    }
  }

  /** A sorted union holds each value max(count in range 1, count in range 2) times. */
  lemma {:induction false} UnionCount(a: seq<int>, b: seq<int>, i: int, j: int, x: int)
    requires Sorted(a) && Sorted(b) && 0 <= i <= |a| && 0 <= j <= |b|
    ensures multiset(UnionFrom(a, b, i, j))[x] ==
            (if multiset(a[i..])[x] < multiset(b[j..])[x] then multiset(b[j..])[x] else multiset(a[i..])[x])
    decreases |a| - i + |b| - j
  {
    if i < |a| && j < |b| {
      if a[i] < b[j] {
        UnionCount(a, b, i + 1, j, x);
        if x == a[i] { BelowAt(b, j, x); }
        UnionTakesA(a, b, i, j, x);
      } else if b[j] < a[i] {
        UnionCount(a, b, i, j + 1, x);
        if x == b[j] { BelowAt(a, i, x); }
        UnionTakesB(a, b, i, j, x);
      } else {
        UnionCount(a, b, i + 1, j + 1, x);
        UnionTakesBoth(a, b, i, j, x);
      }
    } else if i == |a| {
      assert a[i..] == [];
    } else {
      assert b[j..] == [];
    }
  }

  /** The step of UnionCount when range 1's head is taken alone. */
  lemma UnionTakesA(a: seq<int>, b: seq<int>, i: int, j: int, x: int)
    requires 0 <= i < |a| && 0 <= j < |b| && a[i] < b[j] && (x == a[i] ==> multiset(b[j..])[x] == 0)
    requires multiset(UnionFrom(a, b, i + 1, j))[x] ==
             (if multiset(a[i + 1..])[x] < multiset(b[j..])[x] then multiset(b[j..])[x] else multiset(a[i + 1..])[x])
    ensures multiset(UnionFrom(a, b, i, j))[x] ==
            (if multiset(a[i..])[x] < multiset(b[j..])[x] then multiset(b[j..])[x] else multiset(a[i..])[x])
  {
    HeadCount(a, i, x);
    ConsCount(a[i], UnionFrom(a, b, i + 1, j), x);
  }

  /** The step of UnionCount when range 2's head is taken alone. */
  lemma UnionTakesB(a: seq<int>, b: seq<int>, i: int, j: int, x: int)
    requires 0 <= i < |a| && 0 <= j < |b| && b[j] < a[i] && (x == b[j] ==> multiset(a[i..])[x] == 0)
    requires multiset(UnionFrom(a, b, i, j + 1))[x] ==
             (if multiset(a[i..])[x] < multiset(b[j + 1..])[x] then multiset(b[j + 1..])[x] else multiset(a[i..])[x])
    ensures multiset(UnionFrom(a, b, i, j))[x] ==
            (if multiset(a[i..])[x] < multiset(b[j..])[x] then multiset(b[j..])[x] else multiset(a[i..])[x])
  {
    HeadCount(b, j, x);
    ConsCount(b[j], UnionFrom(a, b, i, j + 1), x);
  }

  /** The step of UnionCount when the heads are equivalent: one copy for both. */
  lemma UnionTakesBoth(a: seq<int>, b: seq<int>, i: int, j: int, x: int)
    requires 0 <= i < |a| && 0 <= j < |b| && a[i] == b[j]
    requires multiset(UnionFrom(a, b, i + 1, j + 1))[x] ==
             (if multiset(a[i + 1..])[x] < multiset(b[j + 1..])[x] then multiset(b[j + 1..])[x] else multiset(a[i + 1..])[x])
    ensures multiset(UnionFrom(a, b, i, j))[x] ==
            (if multiset(a[i..])[x] < multiset(b[j..])[x] then multiset(b[j..])[x] else multiset(a[i..])[x])
  {
    HeadCount(a, i, x);
    HeadCount(b, j, x);
    ConsCount(a[i], UnionFrom(a, b, i + 1, j + 1), x);
  }

  /** A sorted intersection holds each value min(count in range 1, count in range 2) times. */
  lemma {:induction false} IntersectionCount(a: seq<int>, b: seq<int>, i: int, j: int, x: int)
    requires Sorted(a) && Sorted(b) && 0 <= i <= |a| && 0 <= j <= |b|
    ensures multiset(IntersectionFrom(a, b, i, j))[x] ==
            (if multiset(a[i..])[x] < multiset(b[j..])[x] then multiset(a[i..])[x] else multiset(b[j..])[x])
    decreases |a| - i + |b| - j
  {
    if i < |a| && j < |b| {
      HeadCount(a, i, x);
      HeadCount(b, j, x);
      if a[i] < b[j] {
        IntersectionCount(a, b, i + 1, j, x);
        if x == a[i] { BelowAt(b, j, x); }
      } else if b[j] < a[i] {
        IntersectionCount(a, b, i, j + 1, x);
        if x == b[j] { BelowAt(a, i, x); }
      } else {
        IntersectionCount(a, b, i + 1, j + 1, x);
      }
    } else if i == |a| {
      assert a[i..] == [];
    } else {
      assert b[j..] == [];
    }
  }

  /** A sorted difference holds each value max(count in range 1 - count in range 2, 0) times. */
  lemma {:induction false} DifferenceCount(a: seq<int>, b: seq<int>, i: int, j: int, x: int)
    requires Sorted(a) && Sorted(b) && 0 <= i <= |a| && 0 <= j <= |b|
    ensures multiset(DifferenceFrom(a, b, i, j))[x] ==
            (if multiset(a[i..])[x] < multiset(b[j..])[x] then 0 else multiset(a[i..])[x] - multiset(b[j..])[x])
    decreases |a| - i + |b| - j
  {
    if i < |a| && j < |b| {
      HeadCount(a, i, x);
      HeadCount(b, j, x);
      if a[i] < b[j] {
        DifferenceCount(a, b, i + 1, j, x);
        if x == a[i] { BelowAt(b, j, x); }
      } else if b[j] < a[i] {
        DifferenceCount(a, b, i, j + 1, x);
        if x == b[j] { BelowAt(a, i, x); }
      } else {
        DifferenceCount(a, b, i + 1, j + 1, x);
      }
    } else if i == |a| {
      assert a[i..] == [];
    } else {
      assert b[j..] == [];
    }
  }

  /** A sorted symmetric difference holds each value |count in range 1 - count in range 2| times. */
  lemma {:induction false} SymmetricDifferenceCount(a: seq<int>, b: seq<int>, i: int, j: int, x: int)
    requires Sorted(a) && Sorted(b) && 0 <= i <= |a| && 0 <= j <= |b|
    ensures multiset(SymmetricDifferenceFrom(a, b, i, j))[x] ==
            (if multiset(a[i..])[x] < multiset(b[j..])[x] then multiset(b[j..])[x] - multiset(a[i..])[x]
             else multiset(a[i..])[x] - multiset(b[j..])[x])
    decreases |a| - i + |b| - j
  {
    if i < |a| && j < |b| {
      if a[i] < b[j] {
        SymmetricDifferenceCount(a, b, i + 1, j, x);
        if x == a[i] { BelowAt(b, j, x); }
        SymmetricDifferenceTakesA(a, b, i, j, x);
      } else if b[j] < a[i] {
        SymmetricDifferenceCount(a, b, i, j + 1, x);
        if x == b[j] { BelowAt(a, i, x); }
        SymmetricDifferenceTakesB(a, b, i, j, x);
      } else {
        SymmetricDifferenceCount(a, b, i + 1, j + 1, x);
        SymmetricDifferenceSkips(a, b, i, j, x);
      }
    } else if i == |a| {
      assert a[i..] == [];
    } else {
      assert b[j..] == [];
    }
  }

  /** The step of SymmetricDifferenceCount when range 1's head is written. */
  lemma SymmetricDifferenceTakesA(a: seq<int>, b: seq<int>, i: int, j: int, x: int)
    requires 0 <= i < |a| && 0 <= j < |b| && a[i] < b[j] && (x == a[i] ==> multiset(b[j..])[x] == 0)
    requires multiset(SymmetricDifferenceFrom(a, b, i + 1, j))[x] ==
             (if multiset(a[i + 1..])[x] < multiset(b[j..])[x] then multiset(b[j..])[x] - multiset(a[i + 1..])[x]
              else multiset(a[i + 1..])[x] - multiset(b[j..])[x])
    ensures multiset(SymmetricDifferenceFrom(a, b, i, j))[x] ==
            (if multiset(a[i..])[x] < multiset(b[j..])[x] then multiset(b[j..])[x] - multiset(a[i..])[x]
             else multiset(a[i..])[x] - multiset(b[j..])[x])
  {
    HeadCount(a, i, x);
    ConsCount(a[i], SymmetricDifferenceFrom(a, b, i + 1, j), x);
  }

  /** The step of SymmetricDifferenceCount when range 2's head is written. */
  lemma SymmetricDifferenceTakesB(a: seq<int>, b: seq<int>, i: int, j: int, x: int)
    requires 0 <= i < |a| && 0 <= j < |b| && b[j] < a[i] && (x == b[j] ==> multiset(a[i..])[x] == 0)
    requires multiset(SymmetricDifferenceFrom(a, b, i, j + 1))[x] ==
             (if multiset(a[i..])[x] < multiset(b[j + 1..])[x] then multiset(b[j + 1..])[x] - multiset(a[i..])[x]
              else multiset(a[i..])[x] - multiset(b[j + 1..])[x])
    ensures multiset(SymmetricDifferenceFrom(a, b, i, j))[x] ==
            (if multiset(a[i..])[x] < multiset(b[j..])[x] then multiset(b[j..])[x] - multiset(a[i..])[x]
             else multiset(a[i..])[x] - multiset(b[j..])[x])
  {
    HeadCount(b, j, x);
    ConsCount(b[j], SymmetricDifferenceFrom(a, b, i, j + 1), x);
  }

  /** The step of SymmetricDifferenceCount when the heads are equivalent: neither is written. */
  lemma SymmetricDifferenceSkips(a: seq<int>, b: seq<int>, i: int, j: int, x: int)
    requires 0 <= i < |a| && 0 <= j < |b| && a[i] == b[j]
    requires multiset(SymmetricDifferenceFrom(a, b, i + 1, j + 1))[x] ==
             (if multiset(a[i + 1..])[x] < multiset(b[j + 1..])[x] then multiset(b[j + 1..])[x] - multiset(a[i + 1..])[x]
              else multiset(a[i + 1..])[x] - multiset(b[j + 1..])[x])
    ensures multiset(SymmetricDifferenceFrom(a, b, i, j))[x] ==
            (if multiset(a[i..])[x] < multiset(b[j..])[x] then multiset(b[j..])[x] - multiset(a[i..])[x]
             else multiset(a[i..])[x] - multiset(b[j..])[x])
  {
    HeadCount(a, i, x);
    HeadCount(b, j, x);
  }

  /** Every output element comes from what is left of one of the inputs. */
  lemma {:induction false} OutputsFromInputs(a: seq<int>, b: seq<int>, i: int, j: int)
    requires 0 <= i <= |a| && 0 <= j <= |b|
    ensures forall y :: y in UnionFrom(a, b, i, j) ==> y in a[i..] || y in b[j..]
    ensures forall y :: y in IntersectionFrom(a, b, i, j) ==> y in a[i..]
    ensures forall y :: y in DifferenceFrom(a, b, i, j) ==> y in a[i..]
    ensures forall y :: y in SymmetricDifferenceFrom(a, b, i, j) ==> y in a[i..] || y in b[j..]
    decreases |a| - i + |b| - j
  {
    if i < |a| && j < |b| {
      assert a[i..] == [a[i]] + a[i + 1..];
      assert b[j..] == [b[j]] + b[j + 1..];
      OutputsFromInputs(a, b, i + 1, j);
      OutputsFromInputs(a, b, i, j + 1);
      OutputsFromInputs(a, b, i + 1, j + 1);
    }
  }

  /** A suffix of a sorted range is sorted. */
  lemma SortedSuffix(s: seq<int>, i: int)
    requires Sorted(s) && 0 <= i <= |s|
    ensures Sorted(s[i..])
  {
    assert forall k :: 0 <= k < |s| - i ==> s[i..][k] == s[i + k];
  }

  /** Postcondition of every set algorithm: sorted inputs give a sorted output. */
  lemma {:induction false} OutputsSorted(a: seq<int>, b: seq<int>, i: int, j: int)
    requires Sorted(a) && Sorted(b) && 0 <= i <= |a| && 0 <= j <= |b|
    ensures Sorted(UnionFrom(a, b, i, j)) && Sorted(IntersectionFrom(a, b, i, j))
    ensures Sorted(DifferenceFrom(a, b, i, j)) && Sorted(SymmetricDifferenceFrom(a, b, i, j))
    decreases |a| - i + |b| - j
  {
    SortedSuffix(a, i);
    SortedSuffix(b, j);
    if i < |a| && j < |b| {
      HeadAt(a, i);
      HeadAt(b, j);
      OutputsSorted(a, b, i + 1, j);
      OutputsSorted(a, b, i, j + 1);
      OutputsSorted(a, b, i + 1, j + 1);
      OutputsFromInputs(a, b, i + 1, j);
      OutputsFromInputs(a, b, i, j + 1);
      OutputsFromInputs(a, b, i + 1, j + 1);
      if a[i] < b[j] {
        SortedCons(a[i], UnionFrom(a, b, i + 1, j));
        SortedCons(a[i], DifferenceFrom(a, b, i + 1, j));
        SortedCons(a[i], SymmetricDifferenceFrom(a, b, i + 1, j));
      } else if b[j] < a[i] {
        SortedCons(b[j], UnionFrom(a, b, i, j + 1));
        SortedCons(b[j], SymmetricDifferenceFrom(a, b, i, j + 1));
      } else {
        SortedCons(a[i], UnionFrom(a, b, i + 1, j + 1));
        SortedCons(a[i], IntersectionFrom(a, b, i + 1, j + 1));
      }
    }
  }

  // ---------------------------------------------------------------------------
  // The algorithms: two cursors over the inputs, output written through result.

  /** copy(first, last, at): appends s to the output written so far in [lo, at). */
  method CopyTail(s: seq<int>, dst: array<int>, lo: int, at: int) returns (end: int)
    requires 0 <= lo <= at && at + |s| <= dst.Length
    modifies dst
    ensures end == at + |s| && dst[lo..end] == old(dst[lo..at]) + s
    ensures forall k :: 0 <= k < dst.Length && !(at <= k < end) ==> dst[k] == old(dst[k])
  {
    ghost var written := dst[lo..at];
    var i := 0;
    end := at;
    while i != |s|
      invariant 0 <= i <= |s| && end == at + i
      invariant dst[lo..end] == written + s[..i]
      invariant forall k :: 0 <= k < dst.Length && !(at <= k < end) ==> dst[k] == old(dst[k])
    {
      dst[end] := s[i];
      assert dst[lo..end + 1] == dst[lo..end] + [s[i]];
      assert s[..i + 1] == s[..i] + [s[i]];
      i := i + 1;
      end := end + 1;
    }
  }

  /** copy(first2, last2, copy(first1, last1, at)): appends both tails. */
  method CopyTails(x: seq<int>, y: seq<int>, dst: array<int>, lo: int, at: int) returns (end: int)
    requires 0 <= lo <= at && at + |x| + |y| <= dst.Length
    modifies dst
    ensures end == at + |x| + |y| && dst[lo..end] == old(dst[lo..at]) + (x + y)
    ensures forall k :: 0 <= k < dst.Length && !(at <= k < end) ==> dst[k] == old(dst[k])
  {
    var mid := CopyTail(x, dst, lo, at);
    end := CopyTail(y, dst, lo, mid);
  }

  /** Once one range is exhausted, union and symmetric difference are the two tails in
      order (one of them empty), and difference is what is left of range 1. */
  lemma Tails(a: seq<int>, b: seq<int>, i: int, j: int)
    requires 0 <= i <= |a| && 0 <= j <= |b| && (i == |a| || j == |b|)
    ensures UnionFrom(a, b, i, j) == a[i..] + b[j..]
    ensures SymmetricDifferenceFrom(a, b, i, j) == a[i..] + b[j..]
    ensures DifferenceFrom(a, b, i, j) == a[i..] && IntersectionFrom(a, b, i, j) == []
  {
    if i == |a| {
      assert a[i..] + b[j..] == b[j..];
    } else {
      assert a[i..] + b[j..] == a[i..];
    }
  }

  /** Taking the head off the unwritten part of the output. */
  lemma Advance(total: seq<int>, k: int, x: int, rest: seq<int>)
    requires 0 <= k <= |total| && total[k..] == [x] + rest
    ensures k < |total| && total[k] == x && total[k + 1..] == rest
  {
    assert total[k..][0] == x;
    assert total[k + 1..] == total[k..][1..];
  }

  /** One step of the union loop: the next output element and the cursors after it. */
  lemma UnionAdvance(total: seq<int>, k: int, a: seq<int>, b: seq<int>, i: int, j: int)
    requires 0 <= i < |a| && 0 <= j < |b| && 0 <= k <= |total|
    requires total[k..] == UnionFrom(a, b, i, j)
    ensures k < |total|
    ensures a[i] < b[j] ==> total[k] == a[i] && total[k + 1..] == UnionFrom(a, b, i + 1, j)
    ensures b[j] < a[i] ==> total[k] == b[j] && total[k + 1..] == UnionFrom(a, b, i, j + 1)
    ensures a[i] == b[j] ==> total[k] == a[i] && total[k + 1..] == UnionFrom(a, b, i + 1, j + 1)
  {
    if a[i] < b[j] {
      Advance(total, k, a[i], UnionFrom(a, b, i + 1, j));
    } else if b[j] < a[i] {
      Advance(total, k, b[j], UnionFrom(a, b, i, j + 1));
    } else {
      Advance(total, k, a[i], UnionFrom(a, b, i + 1, j + 1));
    }
  }

  /** One step of the symmetric-difference loop: an unequal pair emits its smaller element,
      an equal pair emits nothing. */
  lemma SymmetricDifferenceAdvance(total: seq<int>, k: int, a: seq<int>, b: seq<int>, i: int, j: int)
    requires 0 <= i < |a| && 0 <= j < |b| && 0 <= k <= |total|
    requires total[k..] == SymmetricDifferenceFrom(a, b, i, j)
    ensures a[i] != b[j] ==> k < |total|
    ensures a[i] < b[j] ==> total[k] == a[i] && total[k + 1..] == SymmetricDifferenceFrom(a, b, i + 1, j)
    ensures b[j] < a[i] ==> total[k] == b[j] && total[k + 1..] == SymmetricDifferenceFrom(a, b, i, j + 1)
    ensures a[i] == b[j] ==> total[k..] == SymmetricDifferenceFrom(a, b, i + 1, j + 1)
  {
    if a[i] < b[j] {
      Advance(total, k, a[i], SymmetricDifferenceFrom(a, b, i + 1, j));
    } else if b[j] < a[i] {
      Advance(total, k, b[j], SymmetricDifferenceFrom(a, b, i, j + 1));
    }
  }

  /** The output written so far followed by what remains to be written is the whole. */
  lemma Glue(total: seq<int>, pre: seq<int>, rest: seq<int>, k: int)
    requires 0 <= k <= |total| && pre == total[..k] && total[k..] == rest
    ensures total == pre + rest
  {
  }

  /** includes(first1, last1, first2, last2). Line 24 of the source compares `*first1`
      against the iterator `first2`; the model compares against `*first2`. */
  method Includes(a: seq<int>, b: seq<int>) returns (r: bool)
    ensures r == IncludesFrom(a, b, 0, 0)
    ensures Sorted(a) && Sorted(b) ==> (r <==> multiset(b) <= multiset(a))
  {
    var i1, i2 := 0, 0;
    while i1 != |a| && i2 != |b|
      invariant 0 <= i1 <= |a| && 0 <= i2 <= |b|
      invariant IncludesFrom(a, b, i1, i2) == IncludesFrom(a, b, 0, 0)
      decreases |a| - i1 + |b| - i2
    {
      if b[i2] < a[i1] {
        r := false;
        break;
      } else if a[i1] < b[i2] {
        i1 := i1 + 1;
      } else {
        i1, i2 := i1 + 1, i2 + 1;
      }
    }
    if i1 == |a| || i2 == |b| {
      r := i2 == |b|;
    }
    if Sorted(a) && Sorted(b) {
      IncludesIsSubMultiset(a, b, 0, 0);
      assert a[0..] == a && b[0..] == b;
    }
  }

  /** The merge loop of set_union: runs until one range is exhausted. */
  method UnionMerge(a: seq<int>, b: seq<int>, dst: array<int>, result: int) returns (i1: int, i2: int, end: int)
    requires 0 <= result && result + |UnionFrom(a, b, 0, 0)| <= dst.Length
    modifies dst
    ensures 0 <= i1 <= |a| && 0 <= i2 <= |b| && result <= end
    ensures end - result + |a[i1..] + b[i2..]| == |UnionFrom(a, b, 0, 0)|
    ensures dst[result..end] + (a[i1..] + b[i2..]) == UnionFrom(a, b, 0, 0)
    ensures forall k :: 0 <= k < dst.Length && !(result <= k < end) ==> dst[k] == old(dst[k])
  {
    ghost var total := UnionFrom(a, b, 0, 0);
    i1, i2 := 0, 0;
    end := result;
    while i1 != |a| && i2 != |b|
      invariant 0 <= i1 <= |a| && 0 <= i2 <= |b| && result <= end <= result + |total|
      invariant forall k :: result <= k < end ==> dst[k] == total[k - result]
      invariant total[end - result..] == UnionFrom(a, b, i1, i2)
      invariant forall k :: 0 <= k < dst.Length && !(result <= k < end) ==> dst[k] == old(dst[k])
      decreases |a| - i1 + |b| - i2
    {
      UnionAdvance(total, end - result, a, b, i1, i2);
      var v;
      if a[i1] < b[i2] {
        v := a[i1];
        i1 := i1 + 1;
      } else if b[i2] < a[i1] {
        v := b[i2];
        i2 := i2 + 1;
      } else {
        v := a[i1];
        i1, i2 := i1 + 1, i2 + 1;
      }
      dst[end] := v;
      end := end + 1;
    }
    assert dst[result..end] == total[..end - result];
    UnionDone(total, dst[result..end], a, b, i1, i2, end - result);
  }

  /** Where the union loop stops, what is written and the two tails make up the union. */
  lemma UnionDone(total: seq<int>, w: seq<int>, a: seq<int>, b: seq<int>, i: int, j: int, k: int)
    requires 0 <= i <= |a| && 0 <= j <= |b| && (i == |a| || j == |b|)
    requires 0 <= k <= |total| && total[k..] == UnionFrom(a, b, i, j) && w == total[..k]
    ensures w + (a[i..] + b[j..]) == total && k + |a[i..] + b[j..]| == |total|
  {
    Tails(a, b, i, j);
    Glue(total, w, a[i..] + b[j..], k);
  }

  /** set_union: writes the union from result and returns its end; on equivalent heads range 1's copy is written. */
  method SetUnion(a: seq<int>, b: seq<int>, dst: array<int>, result: int) returns (end: int)
    requires 0 <= result && result + |UnionFrom(a, b, 0, 0)| <= dst.Length
    modifies dst
    ensures end == result + |UnionFrom(a, b, 0, 0)| && dst[result..end] == UnionFrom(a, b, 0, 0)
    ensures forall k :: 0 <= k < dst.Length && !(result <= k < end) ==> dst[k] == old(dst[k])
  {
    var i1, i2;
    i1, i2, end := UnionMerge(a, b, dst, result);
    end := CopyTails(a[i1..], b[i2..], dst, result, end);
  }

  /** The merge loop of set_intersection: runs until one range is exhausted. */
  method IntersectionMerge(a: seq<int>, b: seq<int>, dst: array<int>, result: int) returns (i1: int, i2: int, end: int)
    requires 0 <= result && result + |IntersectionFrom(a, b, 0, 0)| <= dst.Length
    modifies dst
    ensures 0 <= i1 <= |a| && 0 <= i2 <= |b| && result <= end
    ensures end - result == |IntersectionFrom(a, b, 0, 0)|
    ensures dst[result..end] == IntersectionFrom(a, b, 0, 0)
    ensures forall k :: 0 <= k < dst.Length && !(result <= k < end) ==> dst[k] == old(dst[k])
  {
    ghost var total := IntersectionFrom(a, b, 0, 0);
    i1, i2 := 0, 0;
    end := result;
    while i1 != |a| && i2 != |b|
      invariant 0 <= i1 <= |a| && 0 <= i2 <= |b| && result <= end <= result + |total|
      invariant forall k :: result <= k < end ==> dst[k] == total[k - result]
      invariant total[end - result..] == IntersectionFrom(a, b, i1, i2)
      invariant forall k :: 0 <= k < dst.Length && !(result <= k < end) ==> dst[k] == old(dst[k])
      decreases |a| - i1 + |b| - i2
    {
      if a[i1] < b[i2] {
        i1 := i1 + 1;
      } else if b[i2] < a[i1] {
        i2 := i2 + 1;
      } else {
        dst[end] := a[i1];
        i1, i2 := i1 + 1, i2 + 1;
        end := end + 1;
      }
    }
    assert dst[result..end] == total[..end - result];
    Tails(a, b, i1, i2);
    assert dst[result..end] == total;
  }

  /** set_intersection: writes the intersection from result and returns its end. */
  method SetIntersection(a: seq<int>, b: seq<int>, dst: array<int>, result: int) returns (end: int)
    requires 0 <= result && result + |IntersectionFrom(a, b, 0, 0)| <= dst.Length
    modifies dst
    ensures end == result + |IntersectionFrom(a, b, 0, 0)| && dst[result..end] == IntersectionFrom(a, b, 0, 0)
    ensures forall k :: 0 <= k < dst.Length && !(result <= k < end) ==> dst[k] == old(dst[k])
  {
    var i1, i2;
    i1, i2, end := IntersectionMerge(a, b, dst, result);
  }

  /** The merge loop of set_difference: runs until one range is exhausted. */
  method DifferenceMerge(a: seq<int>, b: seq<int>, dst: array<int>, result: int) returns (i1: int, i2: int, end: int)
    requires 0 <= result && result + |DifferenceFrom(a, b, 0, 0)| <= dst.Length
    modifies dst
    ensures 0 <= i1 <= |a| && 0 <= i2 <= |b| && result <= end
    ensures end - result + |a[i1..]| == |DifferenceFrom(a, b, 0, 0)|
    ensures dst[result..end] + (a[i1..]) == DifferenceFrom(a, b, 0, 0)
    ensures forall k :: 0 <= k < dst.Length && !(result <= k < end) ==> dst[k] == old(dst[k])
  {
    ghost var total := DifferenceFrom(a, b, 0, 0);
    i1, i2 := 0, 0;
    end := result;
    while i1 != |a| && i2 != |b|
      invariant 0 <= i1 <= |a| && 0 <= i2 <= |b| && result <= end <= result + |total|
      invariant forall k :: result <= k < end ==> dst[k] == total[k - result]
      invariant total[end - result..] == DifferenceFrom(a, b, i1, i2)
      invariant forall k :: 0 <= k < dst.Length && !(result <= k < end) ==> dst[k] == old(dst[k])
      decreases |a| - i1 + |b| - i2
    {
      if a[i1] < b[i2] {
        dst[end] := a[i1];
        i1 := i1 + 1;
        end := end + 1;
      } else if b[i2] < a[i1] {
        i2 := i2 + 1;
      } else {
        i1, i2 := i1 + 1, i2 + 1;
      }
    }
    assert dst[result..end] == total[..end - result];
    Tails(a, b, i1, i2);
    Glue(total, dst[result..end], a[i1..], end - result);
  }

  /** set_difference: writes the difference from result and returns its end. Line 93 of
      the source tests `*first2 < *first1` instead of calling comp; with the default
      comparison these coincide. */
  method SetDifference(a: seq<int>, b: seq<int>, dst: array<int>, result: int) returns (end: int)
    requires 0 <= result && result + |DifferenceFrom(a, b, 0, 0)| <= dst.Length
    modifies dst
    ensures end == result + |DifferenceFrom(a, b, 0, 0)| && dst[result..end] == DifferenceFrom(a, b, 0, 0)
    ensures forall k :: 0 <= k < dst.Length && !(result <= k < end) ==> dst[k] == old(dst[k])
  {
    var i1, i2;
    i1, i2, end := DifferenceMerge(a, b, dst, result);
    end := CopyTail(a[i1..], dst, result, end);
  }

  /** The merge loop of set_symmetric_difference: runs until one range is exhausted. */
  method SymmetricDifferenceMerge(a: seq<int>, b: seq<int>, dst: array<int>, result: int) returns (i1: int, i2: int, end: int)
    requires 0 <= result && result + |SymmetricDifferenceFrom(a, b, 0, 0)| <= dst.Length
    modifies dst
    ensures 0 <= i1 <= |a| && 0 <= i2 <= |b| && result <= end
    ensures end - result + |a[i1..] + b[i2..]| == |SymmetricDifferenceFrom(a, b, 0, 0)|
    ensures dst[result..end] + (a[i1..] + b[i2..]) == SymmetricDifferenceFrom(a, b, 0, 0)
    ensures forall k :: 0 <= k < dst.Length && !(result <= k < end) ==> dst[k] == old(dst[k])
  {
    ghost var total := SymmetricDifferenceFrom(a, b, 0, 0);
    i1, i2 := 0, 0;
    end := result;
    while i1 != |a| && i2 != |b|
      invariant 0 <= i1 <= |a| && 0 <= i2 <= |b| && result <= end <= result + |total|
      invariant forall k :: result <= k < end ==> dst[k] == total[k - result]
      invariant total[end - result..] == SymmetricDifferenceFrom(a, b, i1, i2)
      invariant forall k :: 0 <= k < dst.Length && !(result <= k < end) ==> dst[k] == old(dst[k])
      decreases |a| - i1 + |b| - i2
    {
      SymmetricDifferenceAdvance(total, end - result, a, b, i1, i2);
      if a[i1] == b[i2] {
        i1, i2 := i1 + 1, i2 + 1;
      } else {
        var v;
        if a[i1] < b[i2] {
          v := a[i1];
          i1 := i1 + 1;
        } else {
          v := b[i2];
          i2 := i2 + 1;
        }
        dst[end] := v;
        end := end + 1;
      }
    }
    assert dst[result..end] == total[..end - result];
    SymmetricDifferenceDone(total, dst[result..end], a, b, i1, i2, end - result);
  }

  /** Where the symmetric-difference loop stops, what is written and the two tails make it up. */
  lemma SymmetricDifferenceDone(total: seq<int>, w: seq<int>, a: seq<int>, b: seq<int>, i: int, j: int, k: int)
    requires 0 <= i <= |a| && 0 <= j <= |b| && (i == |a| || j == |b|)
    requires 0 <= k <= |total| && total[k..] == SymmetricDifferenceFrom(a, b, i, j) && w == total[..k]
    ensures w + (a[i..] + b[j..]) == total && k + |a[i..] + b[j..]| == |total|
  {
    Tails(a, b, i, j);
    Glue(total, w, a[i..] + b[j..], k);
  }

  /** set_symmetric_difference: writes the symmetric difference from result and returns its end. */
  method SetSymmetricDifference(a: seq<int>, b: seq<int>, dst: array<int>, result: int) returns (end: int)
    requires 0 <= result && result + |SymmetricDifferenceFrom(a, b, 0, 0)| <= dst.Length
    modifies dst
    ensures end == result + |SymmetricDifferenceFrom(a, b, 0, 0)| && dst[result..end] == SymmetricDifferenceFrom(a, b, 0, 0)
    ensures forall k :: 0 <= k < dst.Length && !(result <= k < end) ==> dst[k] == old(dst[k])
  {
    var i1, i2;
    i1, i2, end := SymmetricDifferenceMerge(a, b, dst, result);
    end := CopyTails(a[i1..], b[i2..], dst, result, end);
  }
}
