// Algorithms/algobase.hpp: swap, min/max, copy, copy_backward, copy_n, fill, fill_n.
// Iterators into a contiguous range are indices into a Dafny array.
module AlgoBase {

  /** iter_swap(a + i, a + j): exchange the two elements through their iterators; the
      array keeps its multiset of elements. */
  method IterSwap<T>(a: array<T>, i: int, j: int)
    requires 0 <= i < a.Length && 0 <= j < a.Length
    modifies a
    ensures a[i] == old(a[j]) && a[j] == old(a[i])
    ensures forall k :: 0 <= k < a.Length && k != i && k != j ==> a[k] == old(a[k])
    ensures multiset(a[..]) == multiset(old(a[..]))
  {
    SwapPerm(a[..], i, j);
    var tmp := a[i];
    a[i] := a[j];
    a[j] := tmp;
    assert a[..] == old(a[..])[i := old(a[j])][j := old(a[i])];
  }

  /** Exchanging two entries keeps the multiset of a sequence. */
  lemma SwapPerm<T>(s: seq<T>, i: int, j: int)
    requires 0 <= i < |s| && 0 <= j < |s|
    ensures multiset(s[i := s[j]][j := s[i]]) == multiset(s)
  {
  }

  /** swap(x, y) on two values: the new x is the old y and vice versa. */
  method Swap<T>(x: T, y: T) returns (x': T, y': T)
    ensures x' == y && y' == x
  {
    var tmp := x;
    x' := y;
    y' := tmp;
  }

  /** min(x, y): y only when y < x, so a tie returns x. */
  function Min(x: int, y: int): (r: int)
    ensures r <= x && r <= y && (r == x || r == y)
    ensures x == y ==> r == x
  {
    if y < x then y else x
  }

  /** max(x, y): y only when x < y, so a tie returns x. */
  function Max(x: int, y: int): (r: int)
    ensures r >= x && r >= y && (r == x || r == y)
  {
    if x < y then y else x
  }

  /** min(x, y, comp) */
  function MinBy<T>(comp: (T, T) -> bool, x: T, y: T): T
  {
    if comp(y, x) then y else x
  }

  /** max(x, y, comp) */
  function MaxBy<T>(comp: (T, T) -> bool, x: T, y: T): T
  {
    if comp(x, y) then y else x
  }

  /** A strict weak ordering: irreflexive, transitive, with transitive incomparability. */
  ghost predicate StrictWeak<T(!new)>(comp: (T, T) -> bool)
  {
    (forall a :: !comp(a, a)) &&
    (forall a, b, c :: comp(a, b) && comp(b, c) ==> comp(a, c)) &&
    (forall a, b, c :: !comp(a, b) && !comp(b, a) && !comp(b, c) && !comp(c, b) ==> !comp(a, c) && !comp(c, a))
  }

  /** Under a strict weak ordering, min is not greater than either argument, max is not less,
      an equivalent pair yields the first argument, and the default overloads are the
      comparator overloads with `<`. */
  lemma MinMaxByProperties<T(!new)>(comp: (T, T) -> bool, x: T, y: T)
    requires StrictWeak(comp)
    ensures !comp(x, MinBy(comp, x, y)) && !comp(y, MinBy(comp, x, y))
    ensures !comp(MaxBy(comp, x, y), x) && !comp(MaxBy(comp, x, y), y)
    ensures !comp(x, y) && !comp(y, x) ==> MinBy(comp, x, y) == x && MaxBy(comp, x, y) == x
    ensures MinBy(comp, x, y) == x || MinBy(comp, x, y) == y
  {
  }

  lemma MinMaxDefaultIsLess(x: int, y: int)
    ensures Min(x, y) == MinBy((a: int, b: int) => a < b, x, y)
    ensures Max(x, y) == MaxBy((a: int, b: int) => a < b, x, y)
  {
  }

  /** copy / __copy: assign element by element from [first, last) of src to dst from result
      on; returns result + (last - first). Within one array the forward loop is exact when
      the destination does not start inside the source range after first. */
  method Copy<T>(src: array<T>, first: int, last: int, dst: array<T>, result: int) returns (end: int)
    requires 0 <= first <= last <= src.Length
    requires 0 <= result && result + (last - first) <= dst.Length
    requires src == dst ==> result <= first || last <= result
    modifies dst
    ensures end == result + (last - first)
    ensures dst[result..end] == old(src[first..last])
    ensures forall k :: 0 <= k < dst.Length && !(result <= k < end) ==> dst[k] == old(dst[k])
  {
    ghost var s := src[first..last];
    var i := first;
    end := result;
    while i < last
      invariant first <= i <= last && end == result + (i - first)
      invariant forall k :: result <= k < end ==> dst[k] == s[k - result]
      invariant forall k :: i <= k < last ==> src[k] == s[k - first]
      invariant forall k :: 0 <= k < dst.Length && !(result <= k < end) ==> dst[k] == old(dst[k])
    {
      dst[end] := src[i];
      i := i + 1;
      end := end + 1;
    }
    assert forall k :: 0 <= k < |s| ==> dst[result..end][k] == dst[result + k];
  }

  /** copy_backward / __copy_backward: `*--result = *--last` until first is reached; the
      values land in [result - (last - first), result), and that start is returned. */
  method CopyBackward<T>(src: array<T>, first: int, last: int, dst: array<T>, result: int) returns (start: int)
    requires 0 <= first <= last <= src.Length
    requires last - first <= result <= dst.Length
    requires src == dst ==> last <= result || result - (last - first) >= last || result <= first
    modifies dst
    ensures start == result - (last - first)
    ensures forall k :: start <= k < result ==> dst[k] == old(src[k - start + first])
    ensures forall k :: 0 <= k < dst.Length && !(start <= k < result) ==> dst[k] == old(dst[k])
  {
    ghost var s := src[first..last];
    var l := last;
    start := result;
    while l > first
      invariant first <= l <= last && start == result - (last - l)
      invariant forall k :: start <= k < result ==> dst[k] == s[k - start + (l - first)]
      invariant forall k :: first <= k < l ==> src[k] == s[k - first]
      invariant forall k :: 0 <= k < dst.Length && !(start <= k < result) ==> dst[k] == old(dst[k])
    {
      l := l - 1;
      start := start - 1;
      dst[start] := src[l];
    }
  }

  /** copy_n(first, count, result): copies count elements and returns both advanced iterators. */
  method CopyN<T>(src: array<T>, first: int, count: int, dst: array<T>, result: int) returns (srcEnd: int, dstEnd: int)
    requires 0 <= count && 0 <= first && first + count <= src.Length
    requires 0 <= result && result + count <= dst.Length
    requires src == dst ==> result <= first || first + count <= result
    modifies dst
    ensures srcEnd == first + count && dstEnd == result + count
    ensures dst[result..dstEnd] == old(src[first..srcEnd])
    ensures forall k :: 0 <= k < dst.Length && !(result <= k < dstEnd) ==> dst[k] == old(dst[k])
  {
    srcEnd := first + count;
    dstEnd := Copy(src, first, srcEnd, dst, result);
  }

  /** fill(first, last, value) */
  method Fill<T>(a: array<T>, first: int, last: int, value: T)
    requires 0 <= first <= last <= a.Length
    modifies a
    ensures forall k :: first <= k < last ==> a[k] == value
    ensures forall k :: 0 <= k < a.Length && !(first <= k < last) ==> a[k] == old(a[k])
  {
    var i := first;
    while i < last
      invariant first <= i <= last
      invariant forall k :: first <= k < i ==> a[k] == value
      invariant forall k :: 0 <= k < a.Length && !(first <= k < i) ==> a[k] == old(a[k])
    {
      a[i] := value;
      i := i + 1;
    }
  }

  /** fill_n(first, n, value): writes n elements and returns first + n (nothing for n <= 0). */
  method FillN<T>(a: array<T>, first: int, n: int, value: T) returns (end: int)
    requires 0 <= first && first + (if n > 0 then n else 0) <= a.Length
    modifies a
    ensures end == first + (if n > 0 then n else 0)
    ensures forall k :: first <= k < end ==> a[k] == value
    ensures forall k :: 0 <= k < a.Length && !(first <= k < end) ==> a[k] == old(a[k])
  {
    var m := n;
    end := first;
    while m > 0
      invariant end == first + (if n > 0 then n - m else 0) && (n > 0 ==> 0 <= m <= n)
      invariant n <= 0 ==> m == n
      invariant forall k :: first <= k < end ==> a[k] == value
      invariant forall k :: 0 <= k < a.Length && !(first <= k < end) ==> a[k] == old(a[k])
    {
      a[end] := value;
      m := m - 1;
      end := end + 1;
    }
  }
}
