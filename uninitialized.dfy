// Allocator/uninitialized.hpp: construct copies or fills into raw, not yet constructed
// storage. A slot of storage is either raw or holds a constructed value; the POD branches
// (copy / fill / fill_n) and the element-by-element construct loops have the same effect.
module Uninitialized {

  datatype Slot<T> = Raw | Built(value: T)

  ghost predicate AllRaw<T>(a: array<Slot<T>>, lo: int, hi: int)
    reads a
    requires 0 <= lo <= hi <= a.Length
  {
    forall k :: lo <= k < hi ==> a[k] == Raw
  }

  /** uninitialized_copy(first, last, res): construct a copy of each source element in
      [res, res + (last - first)); returns res + (last - first). */
  method UninitializedCopy<T>(src: seq<T>, dst: array<Slot<T>>, res: int) returns (cur: int)
    requires 0 <= res && res + |src| <= dst.Length && AllRaw(dst, res, res + |src|)
    modifies dst
    ensures cur == res + |src|
    ensures forall i :: 0 <= i < |src| ==> dst[res + i] == Built(src[i])
    ensures forall k :: 0 <= k < dst.Length && !(res <= k < cur) ==> dst[k] == old(dst[k])
  {
    cur := res;
    var i := 0;
    while i < |src|
      invariant 0 <= i <= |src| && cur == res + i
      invariant forall j :: 0 <= j < i ==> dst[res + j] == Built(src[j])
      invariant forall k :: 0 <= k < dst.Length && !(res <= k < cur) ==> dst[k] == old(dst[k])
    {
      dst[cur] := Built(src[i]);
      i := i + 1;
      cur := cur + 1;
    }
  }

  /** uninitialized_copy_n(first, n, res): copies the first n source elements and returns
      the advanced source and destination positions. */
  method UninitializedCopyN<T>(src: seq<T>, first: int, n: int, dst: array<Slot<T>>, res: int)
    returns (srcEnd: int, cur: int)
    requires 0 <= first && 0 <= n && first + n <= |src|
    requires 0 <= res && res + n <= dst.Length && AllRaw(dst, res, res + n)
    modifies dst
    ensures srcEnd == first + n && cur == res + n
    ensures forall k :: res <= k < cur ==> dst[k] == Built(src[first + (k - res)])
    ensures forall k :: 0 <= k < dst.Length && !(res <= k < cur) ==> dst[k] == old(dst[k])
  {
    srcEnd := first + n;
    cur := UninitializedCopy(src[first..srcEnd], dst, res);
    forall k | res <= k < cur
      ensures dst[k] == Built(src[first + (k - res)])
    {
      assert dst[res + (k - res)] == Built(src[first..srcEnd][k - res]);
    }
  }

  /** uninitialized_fill(first, last, x): construct x in every slot of [first, last). */
  method UninitializedFill<T>(a: array<Slot<T>>, first: int, last: int, x: T)
    requires 0 <= first <= last <= a.Length && AllRaw(a, first, last)
    modifies a
    ensures forall k :: first <= k < last ==> a[k] == Built(x)
    ensures forall k :: 0 <= k < a.Length && !(first <= k < last) ==> a[k] == old(a[k])
  {
    var cur := first;
    while cur != last
      invariant first <= cur <= last
      invariant forall k :: first <= k < cur ==> a[k] == Built(x)
      invariant forall k :: 0 <= k < a.Length && !(first <= k < cur) ==> a[k] == old(a[k])
    {
      a[cur] := Built(x);
      cur := cur + 1;
    }
  }

  /** uninitialized_fill_n(first, n, x): construct x in n slots and return first + n.
      The POD branch (Allocator/uninitialized.hpp:103-106) falls off its end without the
      return; the model returns first + n on both branches. */
  method UninitializedFillN<T>(a: array<Slot<T>>, first: int, n: int, x: T) returns (cur: int)
    requires 0 <= first && first + (if n > 0 then n else 0) <= a.Length
    requires AllRaw(a, first, first + (if n > 0 then n else 0))
    modifies a
    ensures cur == first + (if n > 0 then n else 0)
    ensures forall k :: first <= k < cur ==> a[k] == Built(x)
    ensures forall k :: 0 <= k < a.Length && !(first <= k < cur) ==> a[k] == old(a[k])
  {
    var m := n;
    cur := first;
    while m > 0
      invariant cur == first + (if n > 0 then n - m else 0) && (n > 0 ==> 0 <= m <= n)
      invariant n <= 0 ==> m == n
      invariant forall k :: first <= k < cur ==> a[k] == Built(x)
      invariant forall k :: 0 <= k < a.Length && !(first <= k < cur) ==> a[k] == old(a[k])
    {
      a[cur] := Built(x);
      m := m - 1;
      cur := cur + 1;
    }
  }
}
