// Algorithms/sort.hpp: partitions, the insertion-sort pieces and __lg. All of them work in
// place on a random-access range [first, last) of an array.
module Sort {
  import AlgoBase

  // ---------------------------------------------------------------------------
  // __partition

  /** __partition for forward iterators: skip the leading run satisfying pred, then swap
      every later element satisfying pred to the front of the false group. */
  method PartitionForward<T>(a: array<T>, first: int, last: int, pred: T -> bool) returns (p: int)
    requires 0 <= first <= last <= a.Length
    modifies a
    ensures first <= p <= last
    ensures forall k :: first <= k < p ==> pred(a[k])
    ensures forall k :: p <= k < last ==> !pred(a[k])
    ensures multiset(a[..]) == multiset(old(a[..]))
    ensures forall k :: 0 <= k < a.Length && !(first <= k < last) ==> a[k] == old(a[k])
  {
    p := first;
    if p == last {
      return;
    }
    while pred(a[p])
      invariant first <= p < last
      invariant forall k :: first <= k < p ==> pred(a[k])
      invariant a[..] == old(a[..])
      decreases last - p
    {
      p := p + 1;
      if p == last {
        return;
      }
    }
    var next := p + 1;
    while next != last
      invariant first <= p < next <= last
      invariant forall k :: first <= k < p ==> pred(a[k])
      invariant forall k :: p <= k < next ==> !pred(a[k])
      invariant multiset(a[..]) == multiset(old(a[..]))
      invariant forall k :: 0 <= k < a.Length && !(first <= k < last) ==> a[k] == old(a[k])
    {
      if pred(a[next]) {
        AlgoBase.IterSwap(a, p, next);
        p := p + 1;
      }
      next := next + 1;
    }
  }

  /** __partition for bidirectional iterators: scan from the front for an element failing
      pred and from the back for one satisfying it, swap them, and repeat until the scans
      meet. */
  method PartitionBidirectional<T>(a: array<T>, first: int, last: int, pred: T -> bool) returns (p: int)
    requires 0 <= first <= last <= a.Length
    modifies a
    ensures first <= p <= last
    ensures forall k :: first <= k < p ==> pred(a[k])
    ensures forall k :: p <= k < last ==> !pred(a[k])
    ensures multiset(a[..]) == multiset(old(a[..]))
    ensures forall k :: 0 <= k < a.Length && !(first <= k < last) ==> a[k] == old(a[k])
  {
    var f, l := first, last;
    while true
      invariant first <= f <= l <= last
      invariant forall k :: first <= k < f ==> pred(a[k])
      invariant forall k :: l <= k < last ==> !pred(a[k])
      invariant multiset(a[..]) == multiset(old(a[..]))
      invariant forall k :: 0 <= k < a.Length && !(first <= k < last) ==> a[k] == old(a[k])
      decreases l - f
    {
      while true
        invariant first <= f <= l
        invariant forall k :: first <= k < f ==> pred(a[k])
        decreases l - f
      {
        if f == l {
          return f;
        } else if pred(a[f]) {
          f := f + 1;
        } else {
          break;
        }
      }
      l := l - 1;
      while true
        invariant f <= l < last && !pred(a[f])
        invariant forall k :: l < k < last ==> !pred(a[k])
        decreases l - f
      {
        if f == l {
          return f;
        } else if !pred(a[l]) {
          l := l - 1;
        } else {
          break;
        }
      }
      AlgoBase.IterSwap(a, f, l);
      f := f + 1;
    }
  }

  // ---------------------------------------------------------------------------
  // Buffered branch of __stable_partition_adaptive

  /** The elements x of s[..n] with pred(x) == keep, in their original order. */
  function FilterPrefix<T>(s: seq<T>, n: nat, pred: T -> bool, keep: bool): seq<T>
    requires n <= |s|
  {
    if n == 0 then []
    else FilterPrefix(s, n - 1, pred, keep) + (if pred(s[n - 1]) == keep then [s[n - 1]] else [])
  }

  /** The elements x of s with pred(x) == keep, in their original order. */
  function Filter<T>(s: seq<T>, pred: T -> bool, keep: bool): seq<T>
  {
    FilterPrefix(s, |s|, pred, keep)
  }

  /** Every element kept comes from s[..n] and falls into the requested group. */
  lemma {:induction false} FilterMembers<T>(s: seq<T>, n: nat, pred: T -> bool, keep: bool)
    requires n <= |s|
    ensures forall x :: x in FilterPrefix(s, n, pred, keep) ==> x in s[..n] && pred(x) == keep
  {
    if n > 0 {
      FilterMembers(s, n - 1, pred, keep);
      assert s[..n] == s[..n - 1] + [s[n - 1]];
    }
  }

  /** One step of the scan: s[n - 1] joins exactly the group it belongs to, so the split
      of s[..n - 1] extends to a split of s[..n]. */
  lemma {:induction false} FilterStep<T>(s: seq<T>, n: nat, pred: T -> bool)
    requires 0 < n <= |s|
    requires multiset(FilterPrefix(s, n - 1, pred, true)) + multiset(FilterPrefix(s, n - 1, pred, false)) == multiset(s[..n - 1])
    ensures multiset(FilterPrefix(s, n, pred, true)) + multiset(FilterPrefix(s, n, pred, false)) == multiset(s[..n])
  {
    assert s[..n] == s[..n - 1] + [s[n - 1]];
    if pred(s[n - 1]) {
      assert FilterPrefix(s, n, pred, true) == FilterPrefix(s, n - 1, pred, true) + [s[n - 1]];
      assert FilterPrefix(s, n, pred, false) == FilterPrefix(s, n - 1, pred, false);
    } else {
      assert FilterPrefix(s, n, pred, true) == FilterPrefix(s, n - 1, pred, true);
      assert FilterPrefix(s, n, pred, false) == FilterPrefix(s, n - 1, pred, false) + [s[n - 1]];
    }
  }

  /** The two groups of s[..n] together are a permutation of s[..n]. */
  lemma {:induction false} FilterSplitsPerm<T>(s: seq<T>, n: nat, pred: T -> bool)
    requires n <= |s|
    ensures multiset(FilterPrefix(s, n, pred, true)) + multiset(FilterPrefix(s, n, pred, false)) == multiset(s[..n])
  {
    if n > 0 {
      FilterSplitsPerm(s, n - 1, pred);
      FilterStep(s, n, pred);
    }
  }

  /** The scanning loop of the buffered branch: elements satisfying pred are compacted in
      place from first on, the others are appended to buf. */
  method Distribute<T>(a: array<T>, first: int, last: int, pred: T -> bool, buf: array<T>) returns (result1: int, result2: int)
    requires 0 <= first <= last <= a.Length && last - first <= buf.Length && buf != a
    modifies a, buf
    ensures first <= result1 <= last && (result1 - first) + result2 == last - first
    ensures a[first..result1] == Filter(old(a[first..last]), pred, true)
    ensures buf[..result2] == Filter(old(a[first..last]), pred, false)
    ensures forall k :: 0 <= k < a.Length && !(first <= k < last) ==> a[k] == old(a[k])
  {
    ghost var s := a[first..last];
    ghost var yes: seq<T> := [];
    ghost var no: seq<T> := [];
    result1, result2 := first, 0;
    var cur := first;
    while cur != last
      invariant first <= result1 <= cur <= last && (result1 - first) + result2 == cur - first
      invariant yes == FilterPrefix(s, cur - first, pred, true) && |yes| == result1 - first
      invariant forall k :: first <= k < result1 ==> a[k] == yes[k - first]
      invariant no == FilterPrefix(s, cur - first, pred, false) && |no| == result2
      invariant forall k :: 0 <= k < result2 ==> buf[k] == no[k]
      invariant forall k :: cur <= k < last ==> a[k] == s[k - first]
      invariant forall k :: 0 <= k < a.Length && !(first <= k < last) ==> a[k] == old(a[k])
    {
      if pred(a[cur]) {
        yes := yes + [a[cur]];
        a[result1] := a[cur];
        result1 := result1 + 1;
      } else {
        no := no + [a[cur]];
        buf[result2] := a[cur];
        result2 := result2 + 1;
      }
      cur := cur + 1;
    }
    assert a[first..result1] == yes;
    assert buf[..result2] == no;
  }

  /** len <= buf_size: elements satisfying pred are compacted to the front in order, the
      others go to buf in order and are copied back behind them; returns the boundary. */
  method StablePartitionBuffered<T>(a: array<T>, first: int, last: int, pred: T -> bool, buf: array<T>) returns (p: int)
    requires 0 <= first <= last <= a.Length && last - first <= buf.Length && buf != a
    modifies a, buf
    ensures first <= p <= last && p == first + |Filter(old(a[first..last]), pred, true)|
    ensures a[first..p] == Filter(old(a[first..last]), pred, true)
    ensures a[p..last] == Filter(old(a[first..last]), pred, false)
    ensures forall k :: 0 <= k < a.Length && !(first <= k < last) ==> a[k] == old(a[k])
  {
    var result1, result2 := Distribute(a, first, last, pred, buf);
    ghost var front := a[first..result1];
    var end := AlgoBase.Copy(buf, 0, result2, a, result1);
    assert a[first..result1] == front;
    p := result1;
  }

  // ---------------------------------------------------------------------------
  // __unguarded_partition

  /** __unguarded_partition(first, last, pivot) with `<`, for a pivot value that occurs in
      the range (the occurrences act as sentinels for both scans). Returns cut with no
      element before it greater than the pivot and none from it on less than the pivot. */
  method UnguardedPartition(a: array<int>, first: int, last: int, pivot: int) returns (cut: int)
    requires 0 <= first < last <= a.Length
    requires exists k :: first <= k < last && a[k] == pivot
    modifies a
    ensures first <= cut < last
    ensures forall k :: first <= k < cut ==> a[k] <= pivot
    ensures forall k :: cut <= k < last ==> pivot <= a[k]
    ensures multiset(a[..]) == multiset(old(a[..]))
    ensures forall k :: 0 <= k < a.Length && !(first <= k < last) ==> a[k] == old(a[k])
  {
    ghost var pk :| first <= pk < last && a[pk] == pivot;
    var f, l := first, last;
    ghost var hiS, loS := pk, pk;
    while true
      invariant first <= f <= l <= last
      invariant f <= hiS < last && pivot <= a[hiS]
      invariant first <= loS < l && a[loS] <= pivot
      invariant forall k :: first <= k < f ==> a[k] <= pivot
      invariant forall k :: l <= k < last ==> pivot <= a[k]
      invariant multiset(a[..]) == multiset(old(a[..]))
      invariant forall k :: 0 <= k < a.Length && !(first <= k < last) ==> a[k] == old(a[k])
      decreases l - f
    {
      while a[f] < pivot
        invariant first <= f <= hiS
        invariant forall k :: first <= k < f ==> a[k] <= pivot
        decreases hiS - f
      {
        f := f + 1;
      }
      l := l - 1;
      while pivot < a[l]
        invariant loS <= l < last
        invariant forall k :: l < k < last ==> pivot <= a[k]
        decreases l - loS
      {
        l := l - 1;
      }
      if !(f < l) {
        return f;
      }
      AlgoBase.IterSwap(a, f, l);
      hiS, loS := l, f;
      f := f + 1;
    }
  }

  // ---------------------------------------------------------------------------
  // Insertion sort pieces on int with `<`.

  /** s[lo..hi) is in non-decreasing order; indices are positions in the whole array. */
  ghost predicate SortedSeg(s: seq<int>, lo: int, hi: int)
  {
    0 <= lo <= hi <= |s| && forall i, j :: lo <= i < j < hi ==> s[i] <= s[j]
  }

  /** The state t left by shifting o[pos..last) one slot up and writing val at pos. */
  ghost predicate Shifted(o: seq<int>, t: seq<int>, pos: int, last: int, val: int)
  {
    0 <= pos <= last < |o| == |t| && t[pos] == val &&
    (forall k :: 0 <= k < |o| && !(pos <= k <= last) ==> t[k] == o[k]) &&
    (forall k :: pos < k <= last ==> t[k] == o[k - 1])
  }

  /** Writing the old o[last] into the gap is a rotation of o[pos..last]: a permutation. */
  lemma ShiftedPerm(o: seq<int>, t: seq<int>, pos: int, last: int)
    requires 0 <= pos <= last < |o| && Shifted(o, t, pos, last, o[last])
    ensures multiset(t) == multiset(o)
  {
    var r := o[..pos] + [o[last]] + o[pos..last] + o[last + 1..];
    forall k | 0 <= k < |t|
      ensures t[k] == r[k]
    {
      if k < pos {
      } else if k == pos {
      } else if k <= last {
        assert r[k] == o[pos..last][k - pos - 1];
      } else {
        assert r[k] == o[last + 1..][k - last - 1];
      }
    }
    assert t == r;
    assert o == o[..pos] + o[pos..last] + [o[last]] + o[last + 1..];
  }

  /** Inserting val at the first position of the sorted run o[first..last) whose element is
      greater than val leaves t[first..last] sorted. */
  lemma ShiftedSorted(o: seq<int>, t: seq<int>, first: int, pos: int, last: int, val: int)
    requires first <= pos && Shifted(o, t, pos, last, val) && SortedSeg(o, first, last)
    requires pos > first ==> o[pos - 1] <= val
    requires forall k :: pos <= k < last ==> val < o[k]
    ensures SortedSeg(t, first, last + 1)
  {
    forall i, j | first <= i < j <= last
      ensures t[i] <= t[j]
    {
      if j < pos {
      } else if j == pos {
        assert o[i] <= o[pos - 1];
      } else if i >= pos {
      } else {
        assert o[i] <= o[j - 1];
      }
    }
  }

  /** __unguarded_linear_insert(last, val): shifts the elements of the sorted run
      [first, last) that are greater than val one slot up and writes val into the gap at pos,
      the slot after the last element not greater than val. The element a[first] <= val is
      the sentinel that stops the scan, so pos > first; first is only a proof device: the
      source takes no such argument. */
  method UnguardedLinearInsert(a: array<int>, ghost first: int, last: int, val: int) returns (ghost pos: int)
    requires 0 <= first < last < a.Length && a[first] <= val
    modifies a
    ensures first < pos && Shifted(old(a[..]), a[..], pos, last, val)
    ensures old(a[pos - 1]) <= val
    ensures forall k :: pos <= k < last ==> val < old(a[k])
  {
    ghost var o := a[..];
    var cur := last;
    var next := cur - 1;
    while val < a[next]
      invariant first <= next && next + 1 == cur && cur <= last
      invariant forall k :: 0 <= k < a.Length && !(cur <= k <= last) ==> a[k] == o[k]
      invariant forall k :: cur < k <= last ==> a[k] == o[k - 1]
      invariant forall k :: cur <= k < last ==> val < o[k]
      decreases next - first
    {
      a[cur] := a[next];
      cur := next;
      next := next - 1;
    }
    a[cur] := val;
    pos := cur;
  }

  /** __linear_insert(first, last): inserts *last into the sorted run [first, last); when it
      is smaller than *first the run is moved up by copy_backward, otherwise the unguarded
      insert runs with *first as its sentinel. The run [first, last] ends sorted, the array
      keeps its multiset, and nothing outside [first, last] changes. */
  method LinearInsert(a: array<int>, first: int, last: int)
    requires 0 <= first < last < a.Length && SortedSeg(a[..], first, last)
    modifies a
    ensures SortedSeg(a[..], first, last + 1)
    ensures multiset(a[..]) == multiset(old(a[..]))
    ensures forall k :: 0 <= k < a.Length && !(first <= k <= last) ==> a[k] == old(a[k])
  {
    ghost var o := a[..];
    var val := a[last];
    if val < a[first] {
      var start := AlgoBase.CopyBackward(a, first, last, a, last + 1);
      a[first] := val;
      assert Shifted(o, a[..], first, last, val);
      ShiftedSorted(o, a[..], first, first, last, val);
      ShiftedPerm(o, a[..], first, last);
    } else {
      var pos := UnguardedLinearInsert(a, first, last, val);
      ShiftedSorted(o, a[..], first, pos, last, val);
      ShiftedPerm(o, a[..], pos, last);
    }
  }

  /** __insertion_sort(first, last): grows the sorted prefix one __linear_insert at a time;
      the range ends sorted, the array keeps its multiset, and nothing outside the range
      changes. */
  method InsertionSort(a: array<int>, first: int, last: int)
    requires 0 <= first <= last <= a.Length
    modifies a
    ensures SortedSeg(a[..], first, last)
    ensures multiset(a[..]) == multiset(old(a[..]))
    ensures forall k :: 0 <= k < a.Length && !(first <= k < last) ==> a[k] == old(a[k])
  {
    if first == last {
      return;
    }
    var i := first + 1;
    while i != last
      invariant first < i <= last && SortedSeg(a[..], first, i)
      invariant multiset(a[..]) == multiset(old(a[..]))
      invariant forall k :: 0 <= k < a.Length && !(first <= k < i) ==> a[k] == old(a[k])
    {
      LinearInsert(a, first, i);
      i := i + 1;
    }
  }

  /** __unguarded_insertion_sort(first, last): inserts each element of [first, last) into
      the sorted run that starts at lo < first; a[lo] is not greater than any element of the
      range and serves every insertion as the sentinel. lo is only a proof device: the source
      takes no such argument. */
  method UnguardedInsertionSort(a: array<int>, ghost lo: int, first: int, last: int)
    requires 0 <= lo < first <= last <= a.Length && SortedSeg(a[..], lo, first)
    requires forall k :: first <= k < last ==> a[lo] <= a[k]
    modifies a
    ensures SortedSeg(a[..], lo, last)
    ensures multiset(a[..]) == multiset(old(a[..]))
    ensures forall k :: 0 <= k < a.Length && !(lo <= k < last) ==> a[k] == old(a[k])
  {
    var i := first;
    while i != last
      invariant first <= i <= last && a[lo] == old(a[lo]) && SortedSeg(a[..], lo, i)
      invariant multiset(a[..]) == multiset(old(a[..]))
      invariant forall k :: 0 <= k < a.Length && !(lo <= k < i) ==> a[k] == old(a[k])
    {
      ghost var o := a[..];
      var pos := UnguardedLinearInsert(a, lo, i, a[i]);
      ShiftedSorted(o, a[..], lo, pos, i, o[i]);
      ShiftedPerm(o, a[..], pos, i);
      i := i + 1;
    }
  }

  lemma MultisetSplit(s: seq<int>, lo: int, hi: int)
    requires 0 <= lo <= hi <= |s|
    ensures multiset(s) == multiset(s[lo..hi]) + (multiset(s[..lo]) + multiset(s[hi..]))
  {
    assert s == s[..lo] + s[lo..hi] + s[hi..];
  }

  /** A permutation of the whole array that leaves everything outside [lo, hi) alone is a
      permutation of [lo, hi). */
  lemma RangePerm(s: seq<int>, t: seq<int>, lo: int, hi: int)
    requires 0 <= lo <= hi <= |s| == |t| && multiset(t) == multiset(s)
    requires forall k :: 0 <= k < |s| && !(lo <= k < hi) ==> t[k] == s[k]
    ensures multiset(t[lo..hi]) == multiset(s[lo..hi])
  {
    assert t[..lo] == s[..lo] && t[hi..] == s[hi..];
    MultisetSplit(s, lo, hi);
    MultisetSplit(t, lo, hi);
    var out := multiset(s[..lo]) + multiset(s[hi..]);
    forall x
      ensures multiset(t[lo..hi])[x] == multiset(s[lo..hi])[x]
    {
      assert multiset(t)[x] == multiset(t[lo..hi])[x] + out[x];
    }
  }

  const Threshold: int := 16

  /** The least element of a sorted run is its first one. */
  lemma SortedHeadIsLeast(s: seq<int>, lo: int, hi: int, x: int)
    requires SortedSeg(s, lo, hi) && x in s[lo..hi]
    ensures lo < hi && s[lo] <= x
  {
    var i :| lo <= i < hi && s[i] == x;
  }

  /** __final_insertion_sort(first, last): a range of more than 16 elements is finished by
      sorting its first 16 and running the unguarded insertion on the rest. That is correct
      when every later element has one not greater than it among the first 16, which is what
      introsort leaves behind; shorter ranges are insertion sorted. */
  method FinalInsertionSort(a: array<int>, first: int, last: int)
    requires 0 <= first <= last <= a.Length
    requires last - first > Threshold ==>
      forall k :: first + Threshold <= k < last ==> exists j :: first <= j < first + Threshold && a[j] <= a[k]
    modifies a
    ensures SortedSeg(a[..], first, last)
    ensures multiset(a[..]) == multiset(old(a[..]))
    ensures forall k :: 0 <= k < a.Length && !(first <= k < last) ==> a[k] == old(a[k])
  {
    if last - first > Threshold {
      var mid := first + Threshold;
      ghost var a0 := a[..];
      InsertionSort(a, first, mid);
      RangePerm(a0, a[..], first, mid);
      forall k | mid <= k < last
        ensures a[first] <= a[k]
      {
        var j :| first <= j < mid && a0[j] <= a0[k];
        assert a0[j] in multiset(a0[first..mid]);
        SortedHeadIsLeast(a[..], first, mid, a0[j]);
      }
      UnguardedInsertionSort(a, first, mid, last);
    } else {
      InsertionSort(a, first, last);
    }
  }

  // ---------------------------------------------------------------------------
  // __lg

  function Pow2(k: nat): (r: nat)
    ensures r >= 1
  {
    if k == 0 then 1 else 2 * Pow2(k - 1)
  }

  lemma HalveStep(p: int, m: int, n: int)
    requires p >= 1 && m >= 2 && p * m <= n < p * (m + 1)
    ensures (2 * p) * (m / 2) <= n < (2 * p) * (m / 2 + 1)
  {
    var h := m / 2;
    assert m == 2 * h || m == 2 * h + 1;
    assert (2 * p) * h <= p * m;
    assert p * (m + 1) <= (2 * p) * (h + 1);
  }

  /** __lg(n): halves n until it reaches 1, counting the steps; the count is the floor of
      log2 n. n must be at least 1, or the loop never reaches 1. */
  method Lg(n: int) returns (k: nat)
    requires n >= 1
    ensures Pow2(k) <= n < Pow2(k + 1)
  {
    var m := n;
    k := 0;
    while m != 1
      invariant m >= 1 && Pow2(k) * m <= n < Pow2(k) * (m + 1)
      decreases m
    {
      HalveStep(Pow2(k), m, n);
      m := m / 2;
      k := k + 1;
    }
  }
}
