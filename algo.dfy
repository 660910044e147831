// Algorithms/algo.hpp: searching, counting, binary search, median, min/max element,
// swap_ranges and transform. Input ranges are sequences, positions are indices into them
// (the value `|s|` plays the role of `last`); output ranges are arrays.
module Algo {

  // ---------------------------------------------------------------------------
  // find / find_if

  /** No element of s[..i] satisfies p, and i is either |s| or a position that does. */
  ghost predicate FirstWhere<T>(s: seq<T>, p: T -> bool, i: int)
  {
    0 <= i <= |s| &&
    (forall k :: 0 <= k < i ==> !p(s[k])) &&
    (i < |s| ==> p(s[i]))
  }

  /** The "first match" characterisation pins the position down uniquely, so every search
      meeting it returns the same index. */
  lemma FirstWhereUnique<T>(s: seq<T>, p: T -> bool, i: int, j: int)
    requires FirstWhere(s, p, i) && FirstWhere(s, p, j)
    ensures i == j
  {
  }

  /** __find for input iterators. */
  method FindLinear<T(==)>(s: seq<T>, val: T) returns (i: int)
    ensures FirstWhere(s, x => x == val, i)
    ensures i < |s| <==> val in s
  {
    i := 0;
    while i != |s| && !(s[i] == val)
      invariant 0 <= i <= |s|
      invariant forall k :: 0 <= k < i ==> s[k] != val
    {
      i := i + 1;
    }
  }

  /** __find_if for input iterators. */
  method FindIfLinear<T>(s: seq<T>, pred: T -> bool) returns (i: int)
    ensures FirstWhere(s, pred, i)
  {
    i := 0;
    while i != |s| && !pred(s[i])
      invariant 0 <= i <= |s|
      invariant forall k :: 0 <= k < i ==> !pred(s[k])
    {
      i := i + 1;
    }
  }

  /** __find_if for random-access iterators: (last - first) >> 2 rounds of four tests, then
      a fall-through switch on the 0..3 remaining elements. It returns the same position as
      the linear version (by FirstWhereUnique). */
  method FindIfUnrolled<T>(s: seq<T>, pred: T -> bool) returns (i: int)
    ensures FirstWhere(s, pred, i)
  {
    var first := 0;
    var tripCnt := |s| / 4;
    while tripCnt > 0
      invariant 0 <= tripCnt <= |s| / 4 && first == 4 * (|s| / 4 - tripCnt)
      invariant forall k :: 0 <= k < first ==> !pred(s[k])
    {
      if pred(s[first]) { return first; }
      first := first + 1;
      if pred(s[first]) { return first; }
      first := first + 1;
      if pred(s[first]) { return first; }
      first := first + 1;
      if pred(s[first]) { return first; }
      first := first + 1;
      tripCnt := tripCnt - 1;
    }
    var rem := |s| - first;
    assert 0 <= rem < 4;
    if rem >= 3 {
      if pred(s[first]) { return first; }
      first := first + 1;
    }
    if rem >= 2 {
      if pred(s[first]) { return first; }
      first := first + 1;
    }
    if rem >= 1 {
      if pred(s[first]) { return first; }
      first := first + 1;
    }
    return |s|;
  }

  /** __find for random-access iterators, unrolled the same way with `*first == val`. */
  method FindUnrolled<T(==)>(s: seq<T>, val: T) returns (i: int)
    ensures FirstWhere(s, x => x == val, i)
    ensures i < |s| <==> val in s
  {
    var first := 0;
    var tripCnt := |s| / 4;
    while tripCnt > 0
      invariant 0 <= tripCnt <= |s| / 4 && first == 4 * (|s| / 4 - tripCnt)
      invariant forall k :: 0 <= k < first ==> s[k] != val
    {
      if s[first] == val { return first; }
      first := first + 1;
      if s[first] == val { return first; }
      first := first + 1;
      if s[first] == val { return first; }
      first := first + 1;
      if s[first] == val { return first; }
      first := first + 1;
      tripCnt := tripCnt - 1;
    }
    var rem := |s| - first;
    assert 0 <= rem < 4;
    if rem >= 3 {
      if s[first] == val { return first; }
      first := first + 1;
    }
    if rem >= 2 {
      if s[first] == val { return first; }
      first := first + 1;
    }
    if rem >= 1 {
      if s[first] == val { return first; }
      first := first + 1;
    }
    return |s|;
  }

  // ---------------------------------------------------------------------------
  // find_first_of, adjacent_find

  /** x matches some element of t under pred. */
  ghost predicate MatchesAny<T>(x: T, t: seq<T>, pred: (T, T) -> bool)
  {
    exists j :: 0 <= j < |t| && pred(x, t[j])
  }

  /** find_first_of: the first element of s1 that matches any element of s2, or |s1|. */
  method FindFirstOf<T>(s1: seq<T>, s2: seq<T>, pred: (T, T) -> bool) returns (i: int)
    ensures 0 <= i <= |s1|
    ensures forall k :: 0 <= k < i ==> !MatchesAny(s1[k], s2, pred)
    ensures i < |s1| ==> MatchesAny(s1[i], s2, pred)
  {
    i := 0;
    while i != |s1|
      invariant 0 <= i <= |s1|
      invariant forall k :: 0 <= k < i ==> !MatchesAny(s1[k], s2, pred)
    {
      var j := 0;
      while j != |s2|
        invariant 0 <= j <= |s2|
        invariant forall m :: 0 <= m < j ==> !pred(s1[i], s2[m])
      {
        if pred(s1[i], s2[j]) {
          return i;
        }
        j := j + 1;
      }
      i := i + 1;
    }
  }

  /** adjacent_find: the first i with pred(s[i], s[i + 1]), or |s| when there is none. */
  method AdjacentFind<T>(s: seq<T>, pred: (T, T) -> bool) returns (i: int)
    ensures 0 <= i <= |s|
    ensures i < |s| ==> i + 1 < |s| && pred(s[i], s[i + 1])
    ensures forall k :: 0 <= k < i && k + 1 < |s| ==> !pred(s[k], s[k + 1])
    ensures i == |s| ==> forall k :: 0 <= k < |s| - 1 ==> !pred(s[k], s[k + 1])
  {
    if |s| == 0 {
      return |s|;
    }
    var first := 0;
    var next := 1;
    while next != |s|
      invariant 1 <= next <= |s| && first == next - 1
      invariant forall k :: 0 <= k < first ==> !pred(s[k], s[k + 1])
    {
      if pred(s[first], s[next]) {
        return first;
      }
      first := next;
      next := next + 1;
    }
    return |s|;
  }

  // ---------------------------------------------------------------------------
  // cnt / count_if

  /** Reference count of the elements satisfying p. */
  function CountWhere<T>(s: seq<T>, p: T -> bool): (r: nat)
    ensures r <= |s|
  {
    if |s| == 0 then 0 else CountWhere(s[..|s| - 1], p) + (if p(s[|s| - 1]) then 1 else 0)
  }

  /** Counting the elements equal to val is val's multiplicity in the range. */
  lemma {:induction false} CountWhereEqIsMultiplicity<T>(s: seq<T>, val: T)
    ensures CountWhere(s, x => x == val) == multiset(s)[val]
  {
    if |s| > 0 {
      CountWhereEqIsMultiplicity(s[..|s| - 1], val);
      assert s == s[..|s| - 1] + [s[|s| - 1]];
      assert multiset(s) == multiset(s[..|s| - 1]) + multiset{s[|s| - 1]};
    }
  }

  /** cnt(first, last, val): the number of elements equal to val. */
  method Cnt<T(==)>(s: seq<T>, val: T) returns (n: int)
    ensures n == multiset(s)[val]
  {
    n := 0;
    var i := 0;
    while i != |s|
      invariant 0 <= i <= |s|
      invariant n == CountWhere(s[..i], x => x == val)
    {
      assert s[..i + 1][..i] == s[..i];
      if s[i] == val {
        n := n + 1;
      }
      i := i + 1;
    }
    assert s[..i] == s;
    CountWhereEqIsMultiplicity(s, val);
  }

  /** count_if(first, last, pred) */
  method CountIf<T>(s: seq<T>, pred: T -> bool) returns (n: int)
    ensures n == CountWhere(s, pred)
  {
    n := 0;
    var i := 0;
    while i != |s|
      invariant 0 <= i <= |s|
      invariant n == CountWhere(s[..i], pred)
    {
      assert s[..i + 1][..i] == s[..i];
      if pred(s[i]) {
        n := n + 1;
      }
      i := i + 1;
    }
    assert s[..i] == s;
  }

  // ---------------------------------------------------------------------------
  // search, __find_end, search_n

  /** s2 occurs contiguously in s1 starting at i. */
  ghost predicate MatchAt<T>(s1: seq<T>, s2: seq<T>, i: int, pred: (T, T) -> bool)
  {
    0 <= i && i + |s2| <= |s1| && forall k :: 0 <= k < |s2| ==> pred(s1[i + k], s2[k])
  }

  /** search: the first position where s2 occurs in s1, or |s1| when it occurs nowhere
      (an empty s1 always gives |s1|; an empty s2 in a non-empty s1 gives 0). */
  method Search<T>(s1: seq<T>, s2: seq<T>, pred: (T, T) -> bool) returns (r: int)
    ensures 0 <= r <= |s1|
    ensures r < |s1| ==> MatchAt(s1, s2, r, pred)
    ensures forall i :: 0 <= i < r && i < |s1| ==> !MatchAt(s1, s2, i, pred)
    ensures r == |s1| ==> |s1| == 0 || forall i :: 0 <= i <= |s1| ==> !MatchAt(s1, s2, i, pred)
  {
    var d1 := |s1|;
    var d2 := |s2|;
    if d1 < d2 || d1 == 0 {
      return |s1|;
    }
    var first1 := 0;
    var cur1 := 0;
    var cur2 := 0;
    while cur2 != |s2|
      invariant d1 == |s1| - first1 && d1 >= d2 && first1 < |s1|
      invariant 0 <= cur2 <= |s2| && cur1 == first1 + cur2
      invariant forall k :: 0 <= k < cur2 ==> pred(s1[first1 + k], s2[k])
      invariant forall i :: 0 <= i < first1 ==> !MatchAt(s1, s2, i, pred)
      decreases d1, |s2| - cur2
    {
      if pred(s1[cur1], s2[cur2]) {
        cur1 := cur1 + 1;
        cur2 := cur2 + 1;
      } else {
        assert !MatchAt(s1, s2, first1, pred);
        if d1 == d2 {
          return |s1|;
        } else {
          first1 := first1 + 1;
          cur1 := first1;
          cur2 := 0;
          d1 := d1 - 1;
        }
      }
    }
    assert MatchAt(s1, s2, first1, pred);
    return first1;
  }

  /** __find_end for forward iterators: repeats search from one past the latest match and
      returns the last position where s2 occurs in s1, or |s1| when s2 is empty or occurs
      nowhere. */
  method FindEnd<T>(s1: seq<T>, s2: seq<T>, pred: (T, T) -> bool) returns (r: int)
    ensures 0 <= r <= |s1|
    ensures r < |s1| ==> MatchAt(s1, s2, r, pred)
    ensures r < |s1| ==> forall i :: r < i <= |s1| ==> !MatchAt(s1, s2, i, pred)
    ensures r == |s1| && |s2| > 0 ==> forall i :: 0 <= i <= |s1| ==> !MatchAt(s1, s2, i, pred)
  {
    if |s2| == 0 {
      return |s1|;
    }
    var result := |s1|;
    var first1 := 0;
    while true
      invariant 0 <= first1 <= |s1| && result <= |s1|
      invariant result < |s1| ==> first1 == result + 1 && MatchAt(s1, s2, result, pred)
      invariant result == |s1| ==> first1 == 0
      decreases |s1| - first1
    {
      var rel := Search(s1[first1..], s2, pred);
      MatchShift(s1, s2, first1, pred);
      if rel == |s1| - first1 {
        forall i | first1 <= i <= |s1|
          ensures !MatchAt(s1, s2, i, pred)
        {
          if |s1| - first1 > 0 {
            assert !MatchAt(s1[first1..], s2, i - first1, pred);
          }
        }
        return result;
      }
      result := first1 + rel;
      first1 := result + 1;
    }
  }

  /** A match in the suffix s1[from..] at i is a match in s1 at from + i. */
  lemma MatchShift<T>(s1: seq<T>, s2: seq<T>, from: int, pred: (T, T) -> bool)
    requires 0 <= from <= |s1|
    ensures forall i :: 0 <= i ==> (MatchAt(s1[from..], s2, i, pred) <==> MatchAt(s1, s2, from + i, pred))
  {
    forall i | 0 <= i
      ensures MatchAt(s1[from..], s2, i, pred) <==> MatchAt(s1, s2, from + i, pred)
    {
      if i + |s2| <= |s1| - from {
        assert forall k :: 0 <= k < |s2| ==> pred(s1[from..][i + k], s2[k]) == pred(s1[from + i + k], s2[k]);
      }
    }
  }

  /** cnt consecutive elements starting at i all match val. */
  ghost predicate RunAt<T>(s: seq<T>, i: int, cnt: int, val: T, pred: (T, T) -> bool)
  {
    0 <= i && i + cnt <= |s| && forall k :: i <= k < i + cnt ==> pred(s[k], val)
  }

  /** search_n: first when cnt <= 0; otherwise the start of the first run of cnt matches of
      val, or |s| when there is none. */
  method SearchN<T>(s: seq<T>, cnt: int, val: T, pred: (T, T) -> bool) returns (r: int)
    ensures cnt <= 0 ==> r == 0
    ensures cnt > 0 ==> 0 <= r <= |s|
    ensures cnt > 0 && r < |s| ==> RunAt(s, r, cnt, val, pred)
    ensures cnt > 0 ==> forall i :: 0 <= i < r ==> !RunAt(s, i, cnt, val, pred)
    ensures cnt > 0 && r == |s| ==> forall i :: 0 <= i <= |s| ==> !RunAt(s, i, cnt, val, pred)
  {
    if cnt <= 0 {
      return 0;
    }
    var first := 0;
    while first != |s| && !pred(s[first], val)
      invariant 0 <= first <= |s|
      invariant forall k :: 0 <= k < first ==> !pred(s[k], val)
    {
      first := first + 1;
    }
    forall i | 0 <= i < first
      ensures !RunAt(s, i, cnt, val, pred)
    {
      assert !pred(s[i], val);
    }
    while first != |s|
      invariant 0 <= first <= |s|
      invariant first < |s| ==> pred(s[first], val)
      invariant forall i :: 0 <= i < first ==> !RunAt(s, i, cnt, val, pred)
      decreases |s| - first
    {
      var n := cnt - 1;
      var i := first + 1;
      while i != |s| && n != 0 && pred(s[i], val)
        invariant first < i <= |s| && n == cnt - (i - first) && n >= 0
        invariant forall k :: first <= k < i ==> pred(s[k], val)
      {
        i := i + 1;
        n := n - 1;
      }
      if n == 0 {
        return first;
      }
      // No run starts in [first, i): it would have to cover position i.
      assert i == |s| || !pred(s[i], val);
      forall p | first <= p < i
        ensures !RunAt(s, p, cnt, val, pred)
      {
        if i < |s| {
          assert !pred(s[i], val);
        }
      }
      ghost var mid := i;
      while i != |s| && !pred(s[i], val)
        invariant mid <= i <= |s|
        invariant forall k :: mid <= k < i ==> !pred(s[k], val)
      {
        i := i + 1;
      }
      forall p | mid <= p < i
        ensures !RunAt(s, p, cnt, val, pred)
      {
        assert !pred(s[p], val);
      }
      first := i;
    }
    return |s|;
  }

  // ---------------------------------------------------------------------------
  // Binary search over a sorted range with the default comparison `<`.

  ghost predicate Sorted(s: seq<int>)
  {
    forall i, j :: 0 <= i < j < |s| ==> s[i] <= s[j]
  }

  /** lower_bound on [first, last): the first position whose element is not less than val. */
  method LowerBound(s: seq<int>, first: int, last: int, val: int) returns (r: int)
    requires 0 <= first <= last <= |s| && Sorted(s[first..last])
    ensures first <= r <= last
    ensures forall k :: first <= k < r ==> s[k] < val
    ensures forall k :: r <= k < last ==> val <= s[k]
  {
    r := first;
    var len := last - first;
    while len > 0
      invariant first <= r && 0 <= len && r + len <= last
      invariant forall k :: first <= k < r ==> s[k] < val
      invariant forall k :: r + len <= k < last ==> val <= s[k]
    {
      var half := len / 2;
      var mid := r + half;
      assert s[mid] == s[first..last][mid - first];
      if s[mid] < val {
        assert forall k :: first <= k <= mid ==> s[k] == s[first..last][k - first];
        r := mid + 1;
        len := len - half - 1;
      } else {
        assert forall k :: mid <= k < last ==> s[k] == s[first..last][k - first];
        len := half;
      }
    }
  }

  /** upper_bound on [first, last): the first position whose element is greater than val. */
  method UpperBound(s: seq<int>, first: int, last: int, val: int) returns (r: int)
    requires 0 <= first <= last <= |s| && Sorted(s[first..last])
    ensures first <= r <= last
    ensures forall k :: first <= k < r ==> s[k] <= val
    ensures forall k :: r <= k < last ==> val < s[k]
  {
    r := first;
    var len := last - first;
    while len > 0
      invariant first <= r && 0 <= len && r + len <= last
      invariant forall k :: first <= k < r ==> s[k] <= val
      invariant forall k :: r + len <= k < last ==> val < s[k]
    {
      var half := len / 2;
      var mid := r + half;
      assert s[mid] == s[first..last][mid - first];
      if val < s[mid] {
        assert forall k :: mid <= k < last ==> s[k] == s[first..last][k - first];
        len := half;
      } else {
        assert forall k :: first <= k <= mid ==> s[k] == s[first..last][k - first];
        r := mid + 1;
        len := len - half - 1;
      }
    }
  }

  /** A sorted sub-range of a sorted range. */
  lemma SortedSub(s: seq<int>, first: int, last: int, lo: int, hi: int)
    requires 0 <= first <= lo <= hi <= last <= |s| && Sorted(s[first..last])
    ensures Sorted(s[lo..hi])
  {
    forall i, j | 0 <= i < j < hi - lo
      ensures s[lo..hi][i] <= s[lo..hi][j]
    {
      assert s[lo..hi][i] == s[first..last][lo - first + i];
      assert s[lo..hi][j] == s[first..last][lo - first + j];
    }
  }

  /** equal_range: narrows as binary search does until it meets an element equivalent to
      val, then runs lower_bound to its left and upper_bound to its right. The pair is
      (lower_bound, upper_bound) over the whole range. */
  method EqualRange(s: seq<int>, val: int) returns (lo: int, hi: int)
    requires Sorted(s)
    ensures 0 <= lo <= hi <= |s|
    ensures forall k :: 0 <= k < lo ==> s[k] < val
    ensures forall k :: lo <= k < hi ==> s[k] == val
    ensures forall k :: hi <= k < |s| ==> val < s[k]
  {
    assert s[0..|s|] == s;
    var first := 0;
    var len := |s|;
    while len > 0
      invariant 0 <= first && 0 <= len && first + len <= |s|
      invariant forall k :: 0 <= k < first ==> s[k] < val
      invariant forall k :: first + len <= k < |s| ==> val < s[k]
    {
      var half := len / 2;
      var mid := first + half;
      if s[mid] < val {
        first := mid + 1;
        len := len - half - 1;
      } else if val < s[mid] {
        len := half;
      } else {
        SortedSub(s, 0, |s|, first, mid);
        lo := LowerBound(s, first, mid, val);
        var end := first + len;
        SortedSub(s, 0, |s|, mid + 1, end);
        hi := UpperBound(s, mid + 1, end, val);
        return;
      }
    }
    return first, first;
  }

  /** binary_search: lower_bound, then a test that its element is not greater than val. */
  method BinarySearch(s: seq<int>, val: int) returns (found: bool)
    requires Sorted(s)
    ensures found <==> val in s
  {
    assert s[0..|s|] == s;
    var i := LowerBound(s, 0, |s|, val);
    found := i != |s| && !(val < s[i]);
  }

  // ---------------------------------------------------------------------------
  // median, max_element, min_element

  /** median(a, b, c) with `<`: the middle value of the three. */
  function Median(a: int, b: int, c: int): (r: int)
    ensures (r == a && (b <= a <= c || c <= a <= b)) ||
            (r == b && (a <= b <= c || c <= b <= a)) ||
            (r == c && (a <= c <= b || b <= c <= a))
  {
    if a < b then
      if b < c then b
      else if a < c then c
      else a
    else if a < c then a
    else if b < c then c
    else b
  }

  /** max_element: the first position of a maximal element, or 0 (first) when empty. */
  method MaxElement(s: seq<int>) returns (r: int)
    ensures |s| == 0 ==> r == 0
    ensures |s| > 0 ==> 0 <= r < |s| && (forall k :: 0 <= k < |s| ==> s[k] <= s[r])
    ensures forall k :: 0 <= k < r ==> s[k] < s[r]
  {
    if |s| == 0 {
      return 0;
    }
    r := 0;
    var first := 1;
    while first != |s|
      invariant 0 <= r < first <= |s|
      invariant forall k :: 0 <= k < first ==> s[k] <= s[r]
      invariant forall k :: 0 <= k < r ==> s[k] < s[r]
    {
      if s[r] < s[first] {
        r := first;
      }
      first := first + 1;
    }
  }

  /** min_element: the first position of a minimal element, or 0 (first) when empty. */
  method MinElement(s: seq<int>) returns (r: int)
    ensures |s| == 0 ==> r == 0
    ensures |s| > 0 ==> 0 <= r < |s| && (forall k :: 0 <= k < |s| ==> s[r] <= s[k])
    ensures forall k :: 0 <= k < r ==> s[r] < s[k]
  {
    if |s| == 0 {
      return 0;
    }
    r := 0;
    var first := 1;
    while first != |s|
      invariant 0 <= r < first <= |s|
      invariant forall k :: 0 <= k < first ==> s[r] <= s[k]
      invariant forall k :: 0 <= k < r ==> s[r] < s[k]
    {
      if s[first] < s[r] {
        r := first;
      }
      first := first + 1;
    }
  }

  // ---------------------------------------------------------------------------
  // swap_ranges, transform

  /** swap_ranges(first1, last1, first2): exchanges [first1, last1) of a with the range of
      the same length at first2 of b (the two ranges must not overlap); returns the end of
      the second range. */
  method SwapRanges<T>(a: array<T>, first1: int, last1: int, b: array<T>, first2: int) returns (end2: int)
    requires 0 <= first1 <= last1 <= a.Length
    requires 0 <= first2 && first2 + (last1 - first1) <= b.Length
    requires a == b ==> last1 <= first2 || first2 + (last1 - first1) <= first1
    modifies a, b
    ensures end2 == first2 + (last1 - first1)
    ensures a[first1..last1] == old(b[first2..end2]) && b[first2..end2] == old(a[first1..last1])
    ensures forall k :: 0 <= k < a.Length && !(first1 <= k < last1) && !(a == b && first2 <= k < end2) ==> a[k] == old(a[k])
    ensures forall k :: 0 <= k < b.Length && !(first2 <= k < end2) && !(a == b && first1 <= k < last1) ==> b[k] == old(b[k])
  {
    ghost var sa := a[first1..last1];
    ghost var sb := b[first2..first2 + (last1 - first1)];
    var i := first1;
    end2 := first2;
    while i != last1
      invariant first1 <= i <= last1 && end2 == first2 + (i - first1)
      invariant forall k :: first1 <= k < i ==> a[k] == sb[k - first1]
      invariant forall k :: first2 <= k < end2 ==> b[k] == sa[k - first2]
      invariant forall k :: i <= k < last1 ==> a[k] == sa[k - first1]
      invariant forall k :: end2 <= k < first2 + (last1 - first1) ==> b[k] == sb[k - first2]
      invariant forall k :: 0 <= k < a.Length && !(first1 <= k < last1) && !(a == b && first2 <= k < first2 + (last1 - first1)) ==> a[k] == old(a[k])
      invariant forall k :: 0 <= k < b.Length && !(first2 <= k < first2 + (last1 - first1)) && !(a == b && first1 <= k < last1) ==> b[k] == old(b[k])
    {
      SwapAt(a, i, b, end2);
      i := i + 1;
      end2 := end2 + 1;
    }
    assert a[first1..last1] == sb;
    assert b[first2..end2] == sa;
  }

  /** One step of swap_ranges: a[i] and b[j] trade values, nothing else moves. */
  method SwapAt<T>(a: array<T>, i: int, b: array<T>, j: int)
    requires 0 <= i < a.Length && 0 <= j < b.Length && (a == b ==> i != j)
    modifies a, b
    ensures a[i] == old(b[j]) && b[j] == old(a[i])
    ensures forall k :: 0 <= k < a.Length && k != i && !(a == b && k == j) ==> a[k] == old(a[k])
    ensures forall k :: 0 <= k < b.Length && k != j && !(a == b && k == i) ==> b[k] == old(b[k])
  {
    var tmp := a[i];
    a[i] := b[j];
    b[j] := tmp;
  }

  /** transform(first, last, result, op): dst[result + i] = op(s[i]); returns the end of
      the written range. */
  method Transform<T, U>(s: seq<T>, dst: array<U>, result: int, op: T -> U) returns (end: int)
    requires 0 <= result && result + |s| <= dst.Length
    modifies dst
    ensures end == result + |s|
    ensures forall i :: 0 <= i < |s| ==> dst[result + i] == op(s[i])
    ensures forall k :: 0 <= k < dst.Length && !(result <= k < end) ==> dst[k] == old(dst[k])
  {
    var i := 0;
    end := result;
    while i != |s|
      invariant 0 <= i <= |s| && end == result + i
      invariant forall j :: 0 <= j < i ==> dst[result + j] == op(s[j])
      invariant forall k :: 0 <= k < dst.Length && !(result <= k < end) ==> dst[k] == old(dst[k])
    {
      dst[end] := op(s[i]);
      i := i + 1;
      end := end + 1;
    }
  }

  /** transform(first1, last1, first2, result, op): the binary form, reading the second
      range in step with the first. */
  method Transform2<T, U, V>(s1: seq<T>, s2: seq<U>, dst: array<V>, result: int, op: (T, U) -> V) returns (end: int)
    requires |s1| <= |s2| && 0 <= result && result + |s1| <= dst.Length
    modifies dst
    ensures end == result + |s1|
    ensures forall i :: 0 <= i < |s1| ==> dst[result + i] == op(s1[i], s2[i])
    ensures forall k :: 0 <= k < dst.Length && !(result <= k < end) ==> dst[k] == old(dst[k])
  {
    var i := 0;
    end := result;
    while i != |s1|
      invariant 0 <= i <= |s1| && end == result + i
      invariant forall j :: 0 <= j < i ==> dst[result + j] == op(s1[j], s2[j])
      invariant forall k :: 0 <= k < dst.Length && !(result <= k < end) ==> dst[k] == old(dst[k])
    {
      dst[end] := op(s1[i], s2[i]);
      i := i + 1;
      end := end + 1;
    }
  }
}
