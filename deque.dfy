// Container/Sequence/deque.hpp: a deque is a map (an array of node addresses) whose slots
// [start.node, finish.node] point to buffers of B elements each; an iterator carries the four
// pointers cur, first, last and node. Addresses are integers, the constructed elements are a
// map from address to value, and node buffers come from a bump allocator that hands out B
// fresh addresses at a time.
//
// An iterator's linear position is node * B + (cur - first). The iterator operations are
// proved to move that position exactly as a pointer into one flat array would move, and the
// container operations are proved against Elements(), the values at the positions
// [start, finish) in order.
module Deque {
  import opened Wrappers
  import AlgoBase

  /** deque_buf_size(sz): how many elements of sz bytes one node holds. */
  function BufSize(sz: nat): (r: nat)
    requires sz > 0
    ensures r >= 1
    ensures sz < 512 ==> r * sz <= 512 < (r + 1) * sz
    ensures sz >= 512 ==> r == 1
  {
    if sz < 512 then 512 / sz else 1
  }

  // ---------------------------------------------------------------------------
  // Arithmetic on positions

  /** q * B + r splits back into q and r when 0 <= r < B. */
  lemma DivModOf(q: int, r: int, B: nat)
    requires B >= 1 && 0 <= r < B
    ensures (q * B + r) / B == q && (q * B + r) % B == r
  {
    var p := q * B + r;
    var d, e := p / B, p % B;
    assert p == d * B + e;
    assert (q - d) * B == e - r;
    if q > d {
      MulAtLeast(q - d, B);
    } else if q < d {
      MulAtLeast(d - q, B);
    }
  }

  lemma MulAtLeast(x: int, B: nat)
    requires x >= 1
    ensures x * B >= B
  {
  }

  /** Multiplication by a positive B keeps a strict order. */
  lemma MulLess(x: int, y: int, B: nat)
    requires B >= 1 && x < y
    ensures x * B + B <= y * B
  {
    MulAtLeast(y - x, B);
    assert y * B - x * B == (y - x) * B;
  }

  /** The address of linear position p: slot p % B of the buffer that map slot p / B points
      to (0 outside the map). */
  function Addr(m: seq<int>, B: nat, p: int): int
  {
    if B >= 1 && 0 <= p && p / B < |m| then m[p / B] + p % B else 0
  }

  /** The buffers of map slots i and j do not overlap. */
  ghost predicate Apart(m: seq<int>, B: nat, i: int, j: int)
  {
    0 <= i < |m| && 0 <= j < |m| && (m[i] + B <= m[j] || m[j] + B <= m[i])
  }

  /** The buffers of map slots lo..hi do not overlap. */
  ghost predicate Disjoint(m: seq<int>, B: nat, lo: int, hi: int)
  {
    0 <= lo && hi < |m| && forall i, j :: lo <= i < j <= hi ==> Apart(m, B, i, j)
  }

  /** The buffer of map slot k lies below top. */
  ghost predicate Fits(m: seq<int>, B: nat, k: int, top: int)
  {
    0 <= k < |m| && m[k] + B <= top
  }

  /** The buffers of map slots lo..hi lie below top, the allocator's next address. */
  ghost predicate Below(m: seq<int>, B: nat, lo: int, hi: int, top: int)
  {
    0 <= lo && hi < |m| && forall k :: lo <= k <= hi ==> Fits(m, B, k, top)
  }

  /** A fresh buffer at top in the slot after hi or before lo keeps the buffers apart and
      below top + B. */
  lemma DisjointGrow(m: seq<int>, B: nat, lo: int, hi: int, j: int, top: int)
    requires Disjoint(m, B, lo, hi) && Below(m, B, lo, hi, top)
    requires 0 <= j < |m| && (j == hi + 1 || j == lo - 1)
    ensures j == hi + 1 ==> Disjoint(m[j := top], B, lo, j) && Below(m[j := top], B, lo, j, top + B)
    ensures j == lo - 1 ==> Disjoint(m[j := top], B, j, hi) && Below(m[j := top], B, j, hi, top + B)
  {
    var m1 := m[j := top];
    var lo', hi' := if j == lo - 1 then j else lo, if j == hi + 1 then j else hi;
    forall i, k | lo' <= i < k <= hi'
      ensures Apart(m1, B, i, k)
    {
      if i == j {
        assert Fits(m, B, k, top);
      } else if k == j {
        assert Fits(m, B, i, top);
      } else {
        assert Apart(m, B, i, k);
      }
    }
    var top' := top + B;
    forall k | lo' <= k <= hi'
      ensures Fits(m1, B, k, top')
    {
      if k != j {
        assert Fits(m, B, k, top);
      }
    }
  }

  /** A position in nodes lo..hi lies in one of them. */
  lemma PosInNodes(B: nat, lo: int, hi: int, p: int)
    requires B >= 1 && 0 <= lo && lo * B <= p < hi * B + B
    ensures lo <= p / B <= hi
  {
    DivModOf(p / B, p % B, B);
    if p / B < lo {
      MulLess(p / B, lo, B);
    }
    if p / B > hi {
      MulLess(hi, p / B, B);
    }
  }

  /** Over non-overlapping buffers, distinct positions have distinct addresses. */
  lemma {:induction false} AddrDistinct(m: seq<int>, B: nat, lo: int, hi: int, p: int, q: int)
    requires B >= 1 && Disjoint(m, B, lo, hi)
    requires lo * B <= p < hi * B + B && lo * B <= q < hi * B + B && p != q
    ensures Addr(m, B, p) != Addr(m, B, q)
  {
    PosInNodes(B, lo, hi, p);
    PosInNodes(B, lo, hi, q);
    if p / B == q / B {
      assert p == (p / B) * B + p % B && q == (q / B) * B + q % B;
    } else if p / B < q / B {
      assert Apart(m, B, p / B, q / B);
    } else {
      assert Apart(m, B, q / B, p / B);
    }
  }

  /** The quantified form of AddrDistinct for one fixed position q. */
  lemma AddrDistinctFrom(m: seq<int>, B: nat, lo: int, hi: int, q: int)
    requires B >= 1 && Disjoint(m, B, lo, hi) && lo * B <= q < hi * B + B
    ensures forall p :: lo * B <= p < hi * B + B && p != q ==> Addr(m, B, p) != Addr(m, B, q)
  {
    forall p | lo * B <= p < hi * B + B && p != q
      ensures Addr(m, B, p) != Addr(m, B, q)
    {
      AddrDistinct(m, B, lo, hi, p, q);
    }
  }

  /** The node offset computed by operator+= when the result leaves the current node: the
      positive branch divides, the negative branch rounds -offset - 1 down and steps one
      further, so both yield the floor of offset / B. */
  function NodeOffset(offset: int, B: nat): (r: int)
    requires B >= 1
    ensures r * B <= offset < r * B + B
  {
    if offset > 0 then
      DivModOf(offset / B, offset % B, B);
      offset / B
    else
      var t := (-offset - 1) / B;
      DivModOf(t, (-offset - 1) % B, B);
      assert (-t - 1) * B == -(t * B) - B;
      -t - 1
  }

  // ---------------------------------------------------------------------------
  // deque_iterator

  /** The four pointers of a deque_iterator, as a value. */
  datatype IterState = IterState(cur: int, first: int, last: int, node: int)

  /** A nonsingular iterator over the map m: first == *node, last == first + B and cur in
      [first, last), which holds for past-the-end iterators too. */
  ghost predicate IterOk(m: seq<int>, B: nat, it: IterState)
  {
    B >= 1 && 0 <= it.node < |m| && it.first == m[it.node] && it.last == it.first + B &&
    it.first <= it.cur < it.last
  }

  /** The linear position: B elements for every node before this one, plus the offset. */
  function PosOf(it: IterState, B: nat): int
  {
    it.node * B + (it.cur - it.first)
  }

  /** A valid iterator's position lies in the map, splits into node and offset, and its
      address is cur. */
  lemma StateAddr(m: seq<int>, B: nat, it: IterState)
    requires IterOk(m, B, it)
    ensures PosOf(it, B) / B == it.node && PosOf(it, B) % B == it.cur - it.first
    ensures Addr(m, B, PosOf(it, B)) == it.cur
    ensures 0 <= PosOf(it, B) < |m| * B
  {
    DivModOf(it.node, it.cur - it.first, B);
    MulLess(it.node, |m|, B);
  }

  class DequeIter {
    var cur: int
    var first: int
    var last: int
    var node: int
    /** buf_size(), fixed by the element type. */
    const B: nat

    /** The default constructor: every pointer null. */
    constructor (bufSize: nat)
      ensures B == bufSize && cur == 0 && first == 0 && last == 0 && node == 0
    {
      B := bufSize;
      cur, first, last, node := 0, 0, 0, 0;
    }

    function State(): IterState
      reads this
    {
      IterState(cur, first, last, node)
    }

    ghost predicate Valid(m: seq<int>)
      reads this
    {
      IterOk(m, B, State())
    }

    function Pos(): int
      reads this
    {
      PosOf(State(), B)
    }

    /** set_node(new_node) */
    method SetNode(m: seq<int>, newNode: int)
      requires 0 <= newNode < |m|
      modifies this
      ensures node == newNode && first == m[newNode] && last == first + B && cur == old(cur)
    {
      node := newNode;
      first := m[newNode];
      last := first + B;
    }

    /** operator++: one position on, to the first slot of the next node past the last slot. */
    method Increment(m: seq<int>)
      requires Valid(m) && Pos() + 1 < |m| * B
      modifies this
      ensures Valid(m) && Pos() == old(Pos()) + 1
    {
      cur := cur + 1;
      if cur == last {
        MulLess(node, node + 1, B);
        if node + 1 >= |m| {
          MulLessEq(|m|, node + 1, B);
        }
        SetNode(m, node + 1);
        cur := first;
      }
    }

    /** operator++(int): advances and returns a copy of the iterator as it was. */
    method PostIncrement(m: seq<int>) returns (temp: DequeIter)
      requires Valid(m) && Pos() + 1 < |m| * B
      modifies this
      ensures fresh(temp) && temp.B == B && temp.Valid(m) && temp.Pos() == old(Pos())
      ensures Valid(m) && Pos() == old(Pos()) + 1
    {
      temp := Clone();
      Increment(m);
    }

    /** operator--: one position back, to the last slot of the previous node from the first. */
    method Decrement(m: seq<int>)
      requires Valid(m) && Pos() >= 1
      modifies this
      ensures Valid(m) && Pos() == old(Pos()) - 1
    {
      if cur == first {
        MulLess(node - 1, node, B);
        if node <= 0 {
          MulLessEq(node, 0, B);
        }
        SetNode(m, node - 1);
        cur := last;
      }
      cur := cur - 1;
    }

    /** operator--(int) */
    method PostDecrement(m: seq<int>) returns (temp: DequeIter)
      requires Valid(m) && Pos() >= 1
      modifies this
      ensures fresh(temp) && temp.B == B && temp.Valid(m) && temp.Pos() == old(Pos())
      ensures Valid(m) && Pos() == old(Pos()) - 1
    {
      temp := Clone();
      Decrement(m);
    }

    /** operator+=(n): within the node cur moves by n; otherwise the iterator moves
        NodeOffset(offset) nodes and lands at the remainder. The target must lie in the map. */
    method AddAssign(m: seq<int>, n: int)
      requires Valid(m) && 0 <= Pos() + n < |m| * B
      modifies this
      ensures Valid(m) && Pos() == old(Pos()) + n
    {
      var offset := n + (cur - first);
      if offset >= 0 && offset < B {
        cur := cur + n;
      } else {
        var nodeOffset := NodeOffset(offset, B);
        assert (node + nodeOffset) * B == node * B + nodeOffset * B;
        if node + nodeOffset >= |m| {
          MulLess(|m| - 1, node + nodeOffset, B);
        }
        if node + nodeOffset < 0 {
          MulLess(node + nodeOffset, 0, B);
        }
        SetNode(m, node + nodeOffset);
        cur := first + (offset - nodeOffset * B);
      }
    }

    /** operator-=(n) is operator+=(-n). */
    method SubAssign(m: seq<int>, n: int)
      requires Valid(m) && 0 <= Pos() - n < |m| * B
      modifies this
      ensures Valid(m) && Pos() == old(Pos()) - n
    {
      AddAssign(m, -n);
    }

    /** The copy constructor. */
    method Clone() returns (r: DequeIter)
      ensures fresh(r) && r.B == B
      ensures r.cur == cur && r.first == first && r.last == last && r.node == node
    {
      r := new DequeIter(B);
      r.cur, r.first, r.last, r.node := cur, first, last, node;
    }

    /** operator+(n): a moved copy; this iterator is left alone. */
    method Plus(m: seq<int>, n: int) returns (r: DequeIter)
      requires Valid(m) && 0 <= Pos() + n < |m| * B
      ensures fresh(r) && r.B == B && r.Valid(m) && r.Pos() == Pos() + n
    {
      r := Clone();
      r.AddAssign(m, n);
    }

    /** operator-(n) */
    method Minus(m: seq<int>, n: int) returns (r: DequeIter)
      requires Valid(m) && 0 <= Pos() - n < |m| * B
      ensures fresh(r) && r.B == B && r.Valid(m) && r.Pos() == Pos() - n
    {
      r := Clone();
      r.SubAssign(m, n);
    }

    /** operator==: the cur pointers coincide. */
    function Eq(x: DequeIter): bool
      reads this, x
    {
      cur == x.cur
    }

    /** operator<: by node, and by cur within one node. */
    function Less(x: DequeIter): bool
      reads this, x
    {
      if node == x.node then cur < x.cur else node < x.node
    }

    /** x - y for iterators (this is x): B * (x.node - y.node - 1) + (x.cur - x.first) +
        (y.last - y.cur). */
    function Diff(y: DequeIter): int
      reads this, y
    {
      B * (node - y.node - 1) + (cur - first) + (y.last - y.cur)
    }
  }

  // ---------------------------------------------------------------------------
  // What the iterator operations mean

  /** A valid iterator's position lies in the map, splits into node and offset, and its
      address is cur. */
  /** A position before that of a valid iterator lies within the map. */
  lemma PosFits(m: seq<int>, B: nat, it: DequeIter, p: int)
    requires it.Valid(m) && it.B == B && 0 <= p <= it.Pos()
    ensures 0 <= p < |m| * B
  {
    CurIsAddr(m, it);
  }

  lemma CurIsAddr(m: seq<int>, it: DequeIter)
    requires it.Valid(m)
    ensures it.Pos() / it.B == it.node && it.Pos() % it.B == it.cur - it.first
    ensures Addr(m, it.B, it.Pos()) == it.cur
    ensures 0 <= it.Pos() < |m| * it.B
  {
    StateAddr(m, it.B, it.State());
  }

  /** The position says everything: two valid iterators at one position are field for field
      the same, so ensuring Valid and Pos determines the new state. */
  lemma PosDetermines(m: seq<int>, x: DequeIter, y: DequeIter)
    requires x.Valid(m) && y.Valid(m) && x.B == y.B && x.Pos() == y.Pos()
    ensures x.node == y.node && x.cur == y.cur && x.first == y.first && x.last == y.last
  {
    CurIsAddr(m, x);
    CurIsAddr(m, y);
  }

  /** The iterator difference is the difference of positions, so (it + n) - it == n. */
  lemma DiffIsDistance(m: seq<int>, x: DequeIter, y: DequeIter)
    requires x.Valid(m) && y.Valid(m) && x.B == y.B
    ensures x.Diff(y) == x.Pos() - y.Pos()
  {
    assert x.B * (x.node - y.node - 1) == x.node * x.B - y.node * x.B - x.B;
  }

  /** operator< orders iterators by position. */
  lemma LessIsPosOrder(m: seq<int>, x: DequeIter, y: DequeIter)
    requires x.Valid(m) && y.Valid(m) && x.B == y.B
    ensures x.Less(y) <==> x.Pos() < y.Pos()
  {
    if x.node < y.node {
      MulLess(x.node, y.node, x.B);
    } else if y.node < x.node {
      MulLess(y.node, x.node, x.B);
    }
  }

  /** operator== compares cur pointers only; over non-overlapping buffers that is equality
      of positions. */
  lemma EqIsSamePos(m: seq<int>, lo: int, hi: int, x: DequeIter, y: DequeIter)
    requires x.Valid(m) && y.Valid(m) && x.B == y.B && Disjoint(m, x.B, lo, hi)
    requires lo <= x.node <= hi && lo <= y.node <= hi
    ensures x.Eq(y) <==> x.Pos() == y.Pos()
  {
    CurIsAddr(m, x);
    CurIsAddr(m, y);
    MulLessEq(lo, x.node, x.B);
    MulLessEq(lo, y.node, x.B);
    MulLessEq(x.node, hi, x.B);
    MulLessEq(y.node, hi, x.B);
    if x.Pos() != y.Pos() {
      AddrDistinct(m, x.B, lo, hi, x.Pos(), y.Pos());
    }
  }

  lemma MulLessEq(x: int, y: int, B: nat)
    requires B >= 1 && x <= y
    ensures x * B <= y * B
  {
    if x < y {
      MulLess(x, y, B);
    }
  }

  /** Map slots lo..hi are the same in m and m', so are the addresses of their positions. */
  lemma AddrFrame(m: seq<int>, m': seq<int>, B: nat, lo: int, hi: int)
    requires B >= 1 && 0 <= lo && hi < |m| && hi < |m'|
    requires forall k :: lo <= k <= hi ==> m'[k] == m[k]
    ensures forall p :: lo * B <= p < hi * B + B ==> Addr(m', B, p) == Addr(m, B, p)
  {
    forall p | lo * B <= p < hi * B + B
      ensures Addr(m', B, p) == Addr(m, B, p)
    {
      PosInNodes(B, lo, hi, p);
    }
  }

  /** initialize_map's last node holds n % B elements: finish lands n positions after start. */
  lemma InitLayout(n: nat, B: nat, nstart: int, nlast: int)
    requires B >= 1 && nlast == nstart + n / B
    ensures nlast * B + n % B - nstart * B == n
  {
    assert (nstart + n / B) * B == nstart * B + (n / B) * B;
  }

  /** create_nodes(nstart, nfinish): each slot gets a fresh buffer of B addresses. */
  method CreateNodes(mp: array<int>, nstart: int, nfinish: int, heap: int, B: nat) returns (top: int)
    requires 0 <= nstart <= nfinish <= mp.Length
    modifies mp
    ensures Disjoint(mp[..], B, nstart, nfinish - 1) && Below(mp[..], B, nstart, nfinish - 1, top)
  {
    top := heap;
    var c := nstart;
    while c != nfinish
      invariant nstart <= c <= nfinish
      invariant Disjoint(mp[..], B, nstart, c - 1) && Below(mp[..], B, nstart, c - 1, top)
    {
      DisjointGrow(mp[..], B, nstart, c - 1, c, top);
      mp[c] := top;
      top := top + B;
      c := c + 1;
    }
  }

  /** start.set_node(node); start.cur = start.first + off, on a fresh iterator. */
  method NodeIter(m: seq<int>, B: nat, node: int, off: int) returns (it: DequeIter)
    requires B >= 1 && 0 <= node < |m| && 0 <= off < B
    ensures fresh(it) && it.B == B && it.Valid(m) && it.node == node && it.cur == it.first + off
  {
    it := new DequeIter(B);
    it.SetNode(m, node);
    it.cur := it.first + off;
  }

  /** initialize_map(n) on its own: the map, its size, start and finish, and the allocator's
      new top. */
  method InitializeMap(B: nat, n: nat, heap: int) returns (mp: array<int>, size: nat, s: DequeIter, f: DequeIter, top: int)
    requires B >= 1
    ensures fresh(mp) && fresh(s) && fresh(f) && s != f && s.B == B && f.B == B
    ensures size == mp.Length == AlgoBase.Max(8, 2 * (n / B + 1))
    ensures s.Valid(mp[..]) && f.Valid(mp[..])
    ensures s.node == (size - (n / B + 1)) / 2 && f.node == s.node + n / B
    ensures s.cur == s.first && f.cur == f.first + n % B
    ensures f.Pos() - s.Pos() == n
    ensures Layout(mp[..], B, s.State(), f.State(), top)
  {
    var numNodes := n / B + 1;
    size := AlgoBase.Max(8, numNodes * 2);
    mp := new int[size];
    var nstart := (size - numNodes) / 2;
    var nfinish := nstart + numNodes;
    top := CreateNodes(mp, nstart, nfinish, heap, B);
    s := NodeIter(mp[..], B, nstart, 0);
    f := NodeIter(mp[..], B, nfinish - 1, n % B);
    InitLayout(n, B, nstart, nfinish - 1);
  }

  // ---------------------------------------------------------------------------
  // Constructed elements

  /** Every position in [s, f) has a constructed element at its address. */
  ghost predicate Stored<T>(m: seq<int>, B: nat, mm: map<int, T>, s: int, f: int)
  {
    s <= f && forall p :: s <= p < f ==> Addr(m, B, p) in mm
  }

  /** The values at the positions [s, f), in order. */
  ghost function Els<T>(m: seq<int>, B: nat, mm: map<int, T>, s: int, f: int): (r: seq<T>)
    requires Stored(m, B, mm, s, f)
    ensures |r| == f - s
  {
    seq(f - s, k requires 0 <= k < f - s && Addr(m, B, s + k) in mm => mm[Addr(m, B, s + k)])
  }

  /** Constructing v at a fresh address a that position f of m' has appends v. */
  lemma ElsAppend<T>(m: seq<int>, m': seq<int>, B: nat, mm: map<int, T>, s: int, f: int, a: int, v: T)
    requires Stored(m, B, mm, s, f)
    requires forall p :: s <= p < f ==> Addr(m', B, p) == Addr(m, B, p) && Addr(m, B, p) != a
    requires Addr(m', B, f) == a
    ensures Stored(m', B, mm[a := v], s, f + 1)
    ensures Els(m', B, mm[a := v], s, f + 1) == Els(m, B, mm, s, f) + [v]
  {
    assert Stored(m', B, mm[a := v], s, f + 1);
    var e0, e1 := Els(m, B, mm, s, f), Els(m', B, mm[a := v], s, f + 1);
    assert forall k :: 0 <= k < f - s ==> e1[k] == e0[k];
    assert e1 == e0 + [v];
  }

  /** Constructing v at a fresh address a that position s - 1 of m' has prepends v. */
  lemma ElsPrepend<T>(m: seq<int>, m': seq<int>, B: nat, mm: map<int, T>, s: int, f: int, a: int, v: T)
    requires Stored(m, B, mm, s, f)
    requires forall p :: s <= p < f ==> Addr(m', B, p) == Addr(m, B, p) && Addr(m, B, p) != a
    requires Addr(m', B, s - 1) == a
    ensures Stored(m', B, mm[a := v], s - 1, f)
    ensures Els(m', B, mm[a := v], s - 1, f) == [v] + Els(m, B, mm, s, f)
  {
    assert Stored(m', B, mm[a := v], s - 1, f);
    var e0, e1 := Els(m, B, mm, s, f), Els(m', B, mm[a := v], s - 1, f);
    assert forall k :: 1 <= k < f - s + 1 ==> e1[k] == e0[k - 1];
    assert e1 == [v] + e0;
  }

  /** Destroying the element at the address of position s, which no other position shares,
      drops the first element. */
  lemma ElsDropFront<T>(m: seq<int>, m': seq<int>, B: nat, mm: map<int, T>, s: int, f: int)
    requires Stored(m, B, mm, s, f) && s < f
    requires forall p :: s < p < f ==> Addr(m', B, p) == Addr(m, B, p) && Addr(m, B, p) != Addr(m, B, s)
    ensures Stored(m', B, mm - {Addr(m, B, s)}, s + 1, f)
    ensures Els(m', B, mm - {Addr(m, B, s)}, s + 1, f) == Els(m, B, mm, s, f)[1..]
  {
    var a := Addr(m, B, s);
    assert Stored(m', B, mm - {a}, s + 1, f);
    var e0, e1 := Els(m, B, mm, s, f), Els(m', B, mm - {a}, s + 1, f);
    assert forall k :: 0 <= k < f - s - 1 ==> e1[k] == e0[k + 1];
  }

  /** Destroying the element at the address of position f - 1, which no other position
      shares, drops the last element. */
  lemma ElsDropBack<T>(m: seq<int>, m': seq<int>, B: nat, mm: map<int, T>, s: int, f: int)
    requires Stored(m, B, mm, s, f) && s < f
    requires forall p :: s <= p < f - 1 ==> Addr(m', B, p) == Addr(m, B, p) && Addr(m, B, p) != Addr(m, B, f - 1)
    ensures Stored(m', B, mm - {Addr(m, B, f - 1)}, s, f - 1)
    ensures Els(m', B, mm - {Addr(m, B, f - 1)}, s, f - 1) == Els(m, B, mm, s, f)[..f - s - 1]
  {
    var a := Addr(m, B, f - 1);
    assert Stored(m', B, mm - {a}, s, f - 1);
    var e0, e1 := Els(m, B, mm, s, f), Els(m', B, mm - {a}, s, f - 1);
    assert forall k :: 0 <= k < f - s - 1 ==> e1[k] == e0[k];
  }

  /** Assigning v at the address of position q in [s, f), over non-overlapping buffers,
      replaces element q - s. */
  lemma ElsWrite<T>(m: seq<int>, B: nat, mm: map<int, T>, s: int, f: int, lo: int, hi: int, q: int, v: T)
    requires B >= 1 && Disjoint(m, B, lo, hi) && lo * B <= s && f <= hi * B + B
    requires Stored(m, B, mm, s, f) && s <= q < f
    ensures Stored(m, B, mm[Addr(m, B, q) := v], s, f)
    ensures Els(m, B, mm[Addr(m, B, q) := v], s, f) == Els(m, B, mm, s, f)[q - s := v]
  {
    AddrDistinctFrom(m, B, lo, hi, q);
    var a := Addr(m, B, q);
    assert Stored(m, B, mm[a := v], s, f);
    var e0, e1 := Els(m, B, mm, s, f), Els(m, B, mm[a := v], s, f);
    assert forall k :: 0 <= k < f - s ==> e1[k] == e0[q - s := v][k];
  }

  /** Buffers below top give addresses below top. */
  lemma AddrBelow(m: seq<int>, B: nat, lo: int, hi: int, top: int)
    requires B >= 1 && Below(m, B, lo, hi, top)
    ensures forall p :: lo * B <= p < hi * B + B ==> Addr(m, B, p) < top
  {
    forall p | lo * B <= p < hi * B + B
      ensures Addr(m, B, p) < top
    {
      PosInNodes(B, lo, hi, p);
      assert Fits(m, B, p / B, top);
    }
  }

  // ---------------------------------------------------------------------------
  // The deque's layout, and how push and pop change it

  /** start and finish are nonsingular iterators over the map, start.node <= finish.node,
      start is not after finish, and the buffers of [start.node, finish.node] are apart and
      below top, the allocator's next address. */
  ghost predicate Layout(m: seq<int>, B: nat, s: IterState, f: IterState, top: int)
  {
    IterOk(m, B, s) && IterOk(m, B, f) && s.node <= f.node && PosOf(s, B) <= PosOf(f, B) &&
    Disjoint(m, B, s.node, f.node) && Below(m, B, s.node, f.node, top)
  }

  /** push_back's fast path keeps the layout: f.cur is not the last slot, so it steps on
      within its node. */
  lemma PushBackFastLayout(m: seq<int>, B: nat, s: IterState, f: IterState, top: int)
    requires Layout(m, B, s, f, top) && f.cur != f.last - 1
    ensures Layout(m, B, s, f.(cur := f.cur + 1), top)
    ensures PosOf(f.(cur := f.cur + 1), B) == PosOf(f, B) + 1
  {
  }

  /** push_back_aux keeps the layout: a fresh buffer at top goes into the slot after
      f.node and f moves from the last slot of its node to the first slot of the new one. */
  lemma PushBackAuxLayout(m: seq<int>, B: nat, s: IterState, f: IterState, top: int)
    requires Layout(m, B, s, f, top) && f.cur == f.last - 1 && f.node + 1 < |m|
    ensures Layout(m[f.node + 1 := top], B, s, IterState(top, top, top + B, f.node + 1), top + B)
    ensures PosOf(IterState(top, top, top + B, f.node + 1), B) == PosOf(f, B) + 1
  {
    assert (f.node + 1) * B == f.node * B + B;
    DisjointGrow(m, B, s.node, f.node, f.node + 1, top);
  }

  /** Constructing v at the address of f's position appends v, when the map keeps slots
      s.node..f.node. */
  lemma PushBackEls<T>(m: seq<int>, m': seq<int>, B: nat, mm: map<int, T>, s: IterState, f: IterState, top: int, v: T)
    requires Layout(m, B, s, f, top) && Stored(m, B, mm, PosOf(s, B), PosOf(f, B))
    requires f.node < |m'| && forall k :: s.node <= k <= f.node ==> m'[k] == m[k]
    ensures Stored(m', B, mm[f.cur := v], PosOf(s, B), PosOf(f, B) + 1)
    ensures Els(m', B, mm[f.cur := v], PosOf(s, B), PosOf(f, B) + 1) ==
            Els(m, B, mm, PosOf(s, B), PosOf(f, B)) + [v]
  {
    StateAddr(m, B, f);
    AddrDistinctFrom(m, B, s.node, f.node, PosOf(f, B));
    AddrFrame(m, m', B, s.node, f.node);
    ElsAppend(m, m', B, mm, PosOf(s, B), PosOf(f, B), f.cur, v);
  }

  /** push_front's fast path keeps the layout: s.cur is not the first slot, so it steps
      back within its node. */
  lemma PushFrontFastLayout(m: seq<int>, B: nat, s: IterState, f: IterState, top: int)
    requires Layout(m, B, s, f, top) && s.cur != s.first
    ensures Layout(m, B, s.(cur := s.cur - 1), f, top)
    ensures PosOf(s.(cur := s.cur - 1), B) == PosOf(s, B) - 1
  {
  }

  /** Constructing v just before s.cur prepends v. */
  lemma PushFrontFastEls<T>(m: seq<int>, B: nat, mm: map<int, T>, s: IterState, f: IterState, top: int, v: T)
    requires Layout(m, B, s, f, top) && Stored(m, B, mm, PosOf(s, B), PosOf(f, B))
    requires s.cur != s.first
    ensures Stored(m, B, mm[s.cur - 1 := v], PosOf(s, B) - 1, PosOf(f, B))
    ensures Els(m, B, mm[s.cur - 1 := v], PosOf(s, B) - 1, PosOf(f, B)) ==
            [v] + Els(m, B, mm, PosOf(s, B), PosOf(f, B))
  {
    StateAddr(m, B, s.(cur := s.cur - 1));
    AddrDistinctFrom(m, B, s.node, f.node, PosOf(s, B) - 1);
    ElsPrepend(m, m, B, mm, PosOf(s, B), PosOf(f, B), s.cur - 1, v);
  }

  /** push_front_aux keeps the layout: a fresh buffer at top goes into the slot before
      s.node and s moves from the first slot of its node to the last slot of the new one. */
  lemma PushFrontAuxLayout(m: seq<int>, B: nat, s: IterState, f: IterState, top: int)
    requires Layout(m, B, s, f, top) && s.cur == s.first && s.node > 0
    ensures Layout(m[s.node - 1 := top], B, IterState(top + B - 1, top, top + B, s.node - 1), f, top + B)
    ensures PosOf(IterState(top + B - 1, top, top + B, s.node - 1), B) == PosOf(s, B) - 1
  {
    assert (s.node - 1) * B == s.node * B - B;
    DisjointGrow(m, B, s.node, f.node, s.node - 1, top);
  }

  /** Constructing v in the last slot of the fresh buffer at top, which the slot before
      s.node now holds, prepends v. */
  lemma PushFrontAuxEls<T>(m: seq<int>, B: nat, mm: map<int, T>, s: IterState, f: IterState, top: int, v: T)
    requires Layout(m, B, s, f, top) && Stored(m, B, mm, PosOf(s, B), PosOf(f, B))
    requires s.cur == s.first && s.node > 0
    ensures Stored(m[s.node - 1 := top], B, mm[top + B - 1 := v], PosOf(s, B) - 1, PosOf(f, B))
    ensures Els(m[s.node - 1 := top], B, mm[top + B - 1 := v], PosOf(s, B) - 1, PosOf(f, B)) ==
            [v] + Els(m, B, mm, PosOf(s, B), PosOf(f, B))
  {
    var m1 := m[s.node - 1 := top];
    var s1 := IterState(top + B - 1, top, top + B, s.node - 1);
    AddrBelow(m, B, s.node, f.node, top);
    AddrFrame(m, m1, B, s.node, f.node);
    StateAddr(m1, B, s1);
    assert (s.node - 1) * B == s.node * B - B;
    ElsPrepend(m, m1, B, mm, PosOf(s, B), PosOf(f, B), top + B - 1, v);
  }

  /** pop_front's fast path keeps the layout: s.cur is not the last slot and the deque is
      not empty, so s steps on within its node. */
  lemma PopFrontFastLayout(m: seq<int>, B: nat, s: IterState, f: IterState, top: int)
    requires Layout(m, B, s, f, top) && PosOf(s, B) < PosOf(f, B) && s.cur != s.last - 1
    ensures Layout(m, B, s.(cur := s.cur + 1), f, top)
    ensures PosOf(s.(cur := s.cur + 1), B) == PosOf(s, B) + 1
  {
  }

  /** pop_front_aux keeps the layout: s.cur is the last slot of its node and the deque is
      not empty, so a next node exists and s moves to its first slot. */
  lemma PopFrontAuxLayout(m: seq<int>, B: nat, s: IterState, f: IterState, top: int)
    requires Layout(m, B, s, f, top) && PosOf(s, B) < PosOf(f, B) && s.cur == s.last - 1
    ensures s.node < f.node
    ensures Layout(m, B, IterState(m[s.node + 1], m[s.node + 1], m[s.node + 1] + B, s.node + 1), f, top)
    ensures PosOf(IterState(m[s.node + 1], m[s.node + 1], m[s.node + 1] + B, s.node + 1), B) == PosOf(s, B) + 1
  {
    assert (s.node + 1) * B == s.node * B + B;
  }

  /** Destroying the element at s.cur drops the first element. */
  lemma PopFrontEls<T>(m: seq<int>, B: nat, mm: map<int, T>, s: IterState, f: IterState, top: int)
    requires Layout(m, B, s, f, top) && Stored(m, B, mm, PosOf(s, B), PosOf(f, B))
    requires PosOf(s, B) < PosOf(f, B)
    ensures Stored(m, B, mm - {s.cur}, PosOf(s, B) + 1, PosOf(f, B))
    ensures Els(m, B, mm - {s.cur}, PosOf(s, B) + 1, PosOf(f, B)) ==
            Els(m, B, mm, PosOf(s, B), PosOf(f, B))[1..]
  {
    StateAddr(m, B, s);
    AddrDistinctFrom(m, B, s.node, f.node, PosOf(s, B));
    ElsDropFront(m, m, B, mm, PosOf(s, B), PosOf(f, B));
  }

  /** pop_back's fast path keeps the layout: f.cur is not the first slot and the deque is
      not empty, so f steps back within its node. */
  lemma PopBackFastLayout(m: seq<int>, B: nat, s: IterState, f: IterState, top: int)
    requires Layout(m, B, s, f, top) && PosOf(s, B) < PosOf(f, B) && f.cur != f.first
    ensures Layout(m, B, s, f.(cur := f.cur - 1), top)
    ensures PosOf(f.(cur := f.cur - 1), B) == PosOf(f, B) - 1
  {
  }

  /** pop_back_aux keeps the layout: f.cur is the first slot of its node and the deque is
      not empty, so a previous node exists and f moves to its last slot. */
  lemma PopBackAuxLayout(m: seq<int>, B: nat, s: IterState, f: IterState, top: int)
    requires Layout(m, B, s, f, top) && PosOf(s, B) < PosOf(f, B) && f.cur == f.first
    ensures s.node < f.node
    ensures Layout(m, B, s, IterState(m[f.node - 1] + B - 1, m[f.node - 1], m[f.node - 1] + B, f.node - 1), top)
    ensures PosOf(IterState(m[f.node - 1] + B - 1, m[f.node - 1], m[f.node - 1] + B, f.node - 1), B) == PosOf(f, B) - 1
  {
    assert (f.node - 1) * B == f.node * B - B;
  }

  /** Destroying the element at the address of position f - 1 drops the last element; that
      address is f.cur - 1, or the last slot of the previous node when f.cur is the first
      slot of its own. */
  lemma PopBackEls<T>(m: seq<int>, B: nat, mm: map<int, T>, s: IterState, f: IterState, top: int)
    requires Layout(m, B, s, f, top) && Stored(m, B, mm, PosOf(s, B), PosOf(f, B))
    requires PosOf(s, B) < PosOf(f, B)
    ensures f.cur != f.first ==> Addr(m, B, PosOf(f, B) - 1) == f.cur - 1
    ensures f.cur == f.first ==> 0 < f.node && Addr(m, B, PosOf(f, B) - 1) == m[f.node - 1] + B - 1
    ensures Stored(m, B, mm - {Addr(m, B, PosOf(f, B) - 1)}, PosOf(s, B), PosOf(f, B) - 1)
    ensures Els(m, B, mm - {Addr(m, B, PosOf(f, B) - 1)}, PosOf(s, B), PosOf(f, B) - 1) ==
            Els(m, B, mm, PosOf(s, B), PosOf(f, B))[..PosOf(f, B) - PosOf(s, B) - 1]
  {
    if f.cur != f.first {
      StateAddr(m, B, f.(cur := f.cur - 1));
    } else {
      PopBackAuxLayout(m, B, s, f, top);
      StateAddr(m, B, IterState(m[f.node - 1] + B - 1, m[f.node - 1], m[f.node - 1] + B, f.node - 1));
    }
    AddrDistinctFrom(m, B, s.node, f.node, PosOf(f, B) - 1);
    ElsDropBack(m, m, B, mm, PosOf(s, B), PosOf(f, B));
  }

  /** One round of copy_backward: *--result = *--last, where [a, b) (indices from s)
      already holds the values from D before them. */
  method CopyBackwardStep<T>(m: seq<int>, B: nat, mm: map<int, T>, s: int, f: int, lo: int, hi: int,
                             l: DequeIter, r: DequeIter, ghost E0: seq<T>, ghost a: int, ghost b: int, ghost D: int)
    returns (mm': map<int, T>)
    requires B >= 1 && Disjoint(m, B, lo, hi) && lo * B <= s && f <= hi * B + B && Stored(m, B, mm, s, f)
    requires l != r && l.B == B && r.B == B && l.Valid(m) && r.Valid(m)
    requires |E0| == f - s && 0 <= D && r.Pos() - s == a && l.Pos() == r.Pos() - D && 1 + D <= a <= b <= f - s
    requires Moved(E0, Els(m, B, mm, s, f), a, b, D)
    modifies l, r
    ensures l.Valid(m) && r.Valid(m) && l.Pos() == old(l.Pos()) - 1 && r.Pos() == old(r.Pos()) - 1
    ensures Stored(m, B, mm', s, f)
    ensures Moved(E0, Els(m, B, mm', s, f), a - 1, b, D)
  {
    r.Decrement(m);
    l.Decrement(m);
    CurIsAddr(m, r);
    CurIsAddr(m, l);
    ghost var E := Els(m, B, mm, s, f);
    assert mm[l.cur] == E[a - 1 - D] == E0[a - 1 - D];
    ElsWrite(m, B, mm, s, f, lo, hi, r.Pos(), mm[l.cur]);
    mm' := mm[r.cur := mm[l.cur]];
  }

  /** One round of copy: *result = *first; ++first; ++result, where [a, b) (indices from
      s) already holds the values from D after them. */
  method CopyStep<T>(m: seq<int>, B: nat, mm: map<int, T>, s: int, f: int, lo: int, hi: int,
                     i: DequeIter, r: DequeIter, ghost E0: seq<T>, ghost a: int, ghost b: int, ghost D: int)
    returns (mm': map<int, T>)
    requires B >= 1 && Disjoint(m, B, lo, hi) && lo * B <= s && f <= hi * B + B && Stored(m, B, mm, s, f)
    requires f < |m| * B
    requires i != r && i.B == B && r.B == B && i.Valid(m) && r.Valid(m)
    requires |E0| == f - s && 0 <= D && r.Pos() - s == b && i.Pos() == r.Pos() + D && 0 <= a <= b && b + D < f - s
    requires Moved(E0, Els(m, B, mm, s, f), a, b, -D)
    modifies i, r
    ensures i.Valid(m) && r.Valid(m) && i.Pos() == old(i.Pos()) + 1 && r.Pos() == old(r.Pos()) + 1
    ensures Stored(m, B, mm', s, f)
    ensures Moved(E0, Els(m, B, mm', s, f), a, b + 1, -D)
  {
    CurIsAddr(m, r);
    CurIsAddr(m, i);
    ghost var E := Els(m, B, mm, s, f);
    assert mm[i.cur] == E[b + D] == E0[b + D];
    ElsWrite(m, B, mm, s, f, lo, hi, r.Pos(), mm[i.cur]);
    mm' := mm[r.cur := mm[i.cur]];
    i.Increment(m);
    r.Increment(m);
  }

  /** copy_backward(first, last, result) for deque iterators over the map m and the
      constructed elements mm, positions [s, f) (the random-access version: n = last - first
      assignments *--result = *--last). The elements of [first, last) move to the n
      positions before result, the rest stay, and the start of the destination is returned.
      Moving towards f is exact when result is not before last. */
  method CopyBackwardMap<T>(m: seq<int>, B: nat, mm: map<int, T>, s: int, f: int, lo: int, hi: int,
                            first: DequeIter, last: DequeIter, result: DequeIter) returns (mm': map<int, T>, r: DequeIter)
    requires B >= 1 && Disjoint(m, B, lo, hi) && lo * B <= s && f <= hi * B + B && Stored(m, B, mm, s, f)
    requires first.B == B && last.B == B && result.B == B
    requires first.Valid(m) && last.Valid(m) && result.Valid(m)
    requires s <= first.Pos() <= last.Pos() <= result.Pos() <= f
    ensures fresh(r) && r.B == B && r.Valid(m) && r.Pos() == result.Pos() - (last.Pos() - first.Pos())
    ensures Stored(m, B, mm', s, f)
    ensures Moved(Els(m, B, mm, s, f), Els(m, B, mm', s, f), r.Pos() - s, result.Pos() - s, result.Pos() - last.Pos())
  {
    DiffIsDistance(m, last, first);
    var n := last.Diff(first);
    var l := last.Clone();
    r := result.Clone();
    mm' := CopyBackwardRounds(m, B, mm, s, f, lo, hi, l, r, n, Els(m, B, mm, s, f), result.Pos() - s, result.Pos() - last.Pos());
  }

  /** The loop of copy_backward: n rounds of *--result = *--last, the window [a, b) that
      already holds the values from D before it growing downwards by one each round. */
  method CopyBackwardRounds<T>(m: seq<int>, B: nat, mm: map<int, T>, s: int, f: int, lo: int, hi: int,
                               l: DequeIter, r: DequeIter, n: int, ghost E0: seq<T>, ghost b: int, ghost D: int)
    returns (mm': map<int, T>)
    requires B >= 1 && Disjoint(m, B, lo, hi) && lo * B <= s && f <= hi * B + B && Stored(m, B, mm, s, f)
    requires l != r && l.B == B && r.B == B && l.Valid(m) && r.Valid(m)
    requires |E0| == f - s && 0 <= D && 0 <= n && l.Pos() == r.Pos() - D && n + D <= r.Pos() - s <= b <= f - s
    requires Moved(E0, Els(m, B, mm, s, f), r.Pos() - s, b, D)
    modifies l, r
    ensures r.B == B && r.Valid(m) && r.Pos() == old(r.Pos()) - n
    ensures Stored(m, B, mm', s, f)
    ensures Moved(E0, Els(m, B, mm', s, f), r.Pos() - s, b, D)
  {
    var k := n;
    mm' := mm;
    while k > 0
      invariant 0 <= k <= n && l.B == B && r.B == B && l.Valid(m) && r.Valid(m)
      invariant r.Pos() == old(r.Pos()) - (n - k) && l.Pos() == r.Pos() - D
      invariant Stored(m, B, mm', s, f)
      invariant Moved(E0, Els(m, B, mm', s, f), r.Pos() - s, b, D)
    {
      mm' := CopyBackwardStep(m, B, mm', s, f, lo, hi, l, r, E0, r.Pos() - s, b, D);
      k := k - 1;
    }
  }

  /** copy(first, last, result) for deque iterators over the map m and the constructed
      elements mm, positions [s, f) (the random-access version: n = last - first rounds of
      *result = *first; ++first; ++result). The elements of [first, last) move to the n
      positions from result on, the rest stay, and the end of the destination is returned.
      Moving towards s is exact when result is not after first. */
  method CopyMap<T>(m: seq<int>, B: nat, mm: map<int, T>, s: int, f: int, lo: int, hi: int,
                    first: DequeIter, last: DequeIter, result: DequeIter) returns (mm': map<int, T>, r: DequeIter)
    requires B >= 1 && Disjoint(m, B, lo, hi) && lo * B <= s && f <= hi * B + B && Stored(m, B, mm, s, f)
    requires f < |m| * B
    requires first.B == B && last.B == B && result.B == B
    requires first.Valid(m) && last.Valid(m) && result.Valid(m)
    requires s <= result.Pos() <= first.Pos() <= last.Pos() <= f
    ensures fresh(r) && r.B == B && r.Valid(m) && r.Pos() == result.Pos() + (last.Pos() - first.Pos())
    ensures Stored(m, B, mm', s, f)
    ensures Moved(Els(m, B, mm, s, f), Els(m, B, mm', s, f), result.Pos() - s, r.Pos() - s, result.Pos() - first.Pos())
  {
    DiffIsDistance(m, last, first);
    var n := last.Diff(first);
    var i := first.Clone();
    r := result.Clone();
    mm' := CopyRounds(m, B, mm, s, f, lo, hi, i, r, n, Els(m, B, mm, s, f), result.Pos() - s, first.Pos() - result.Pos());
  }

  /** The loop of copy: n rounds of *result = *first; ++first; ++result, the window [a, b)
      that already holds the values from D after it growing upwards by one each round. */
  method CopyRounds<T>(m: seq<int>, B: nat, mm: map<int, T>, s: int, f: int, lo: int, hi: int,
                       i: DequeIter, r: DequeIter, n: int, ghost E0: seq<T>, ghost a: int, ghost D: int)
    returns (mm': map<int, T>)
    requires B >= 1 && Disjoint(m, B, lo, hi) && lo * B <= s && f <= hi * B + B && Stored(m, B, mm, s, f)
    requires f < |m| * B
    requires i != r && i.B == B && r.B == B && i.Valid(m) && r.Valid(m)
    requires |E0| == f - s && 0 <= D && 0 <= n && i.Pos() == r.Pos() + D && 0 <= a <= r.Pos() - s && r.Pos() - s + D + n <= f - s
    requires Moved(E0, Els(m, B, mm, s, f), a, r.Pos() - s, -D)
    modifies i, r
    ensures r.B == B && r.Valid(m) && r.Pos() == old(r.Pos()) + n
    ensures Stored(m, B, mm', s, f)
    ensures Moved(E0, Els(m, B, mm', s, f), a, r.Pos() - s, -D)
  {
    var k := n;
    mm' := mm;
    while k > 0
      invariant 0 <= k <= n && i.B == B && r.B == B && i.Valid(m) && r.Valid(m)
      invariant r.Pos() == old(r.Pos()) + (n - k) && i.Pos() == r.Pos() + D
      invariant Stored(m, B, mm', s, f)
      invariant Moved(E0, Els(m, B, mm', s, f), a, r.Pos() - s, -D)
    {
      mm' := CopyStep(m, B, mm', s, f, lo, hi, i, r, E0, a, r.Pos() - s, D);
      k := k - 1;
    }
  }

  /** E1 is E0 with the window [lo, hi) filled from D places earlier (D < 0: later) and
      everything else unchanged: what copy and copy_backward do to a deque's contents. */
  ghost predicate Moved<T>(E0: seq<T>, E1: seq<T>, lo: int, hi: int, D: int)
  {
    |E1| == |E0| && 0 <= lo && hi <= |E0| && 0 <= lo - D && hi - D <= |E0| &&
    (forall k :: lo <= k < hi ==> E1[k] == E0[k - D]) &&
    (forall k :: 0 <= k < |E1| && !(lo <= k < hi) ==> E1[k] == E0[k])
  }

  /** The front half of erase(pos) at index hi - 1: [1, hi) shifted up by one, then the
      first element dropped, leaves everything but element hi - 1. */
  lemma EraseByFront<T>(E0: seq<T>, E1: seq<T>, E2: seq<T>, hi: int)
    requires 1 <= hi <= |E0| && Moved(E0, E1, 1, hi, 1)
    requires E2 == E1[1..]
    ensures E2 == E0[..hi - 1] + E0[hi..]
  {
    var R := E0[..hi - 1] + E0[hi..];
    forall k | 0 <= k < |E2|
      ensures E2[k] == R[k]
    {
      assert E2[k] == E1[k + 1];
      if k < hi - 1 {
        assert R[k] == E0[k];
      } else {
        assert R[k] == E0[hi..][k - (hi - 1)] == E0[k + 1];
      }
    }
  }

  /** The back half of erase(pos) at index lo: [lo, hi) shifted down by one, then the last
      element dropped, leaves everything but element lo. */
  lemma EraseByBack<T>(E0: seq<T>, E1: seq<T>, E2: seq<T>, lo: int)
    requires 0 <= lo < |E0| && Moved(E0, E1, lo, |E0| - 1, -1)
    requires E2 == E1[..|E1| - 1]
    ensures E2 == E0[..lo] + E0[lo + 1..]
  {
    var R := E0[..lo] + E0[lo + 1..];
    forall k | 0 <= k < |E2|
      ensures E2[k] == R[k]
    {
      assert E2[k] == E1[k];
      if k < lo {
        assert R[k] == E0[k];
      } else {
        assert R[k] == E0[lo + 1..][k - lo] == E0[k + 1];
      }
    }
  }

  // ---------------------------------------------------------------------------
  // deque

  class Deque<T> {
    /** buf_size() */
    const B: nat
    /** The map: slot k holds the address of node k's buffer. */
    var nodeMap: array<int>
    var mapSize: nat
    const start: DequeIter
    const finish: DequeIter
    /** The constructed elements, by address. */
    var mem: map<int, T>
    /** The first address the node allocator has not handed out. */
    var brk: int

    /** The layout the header comment of the source describes, over this deque's map. */
    ghost predicate Shape()
      reads this`nodeMap, this`mapSize, this`brk, start, finish, nodeMap
    {
      B >= 1 && start != finish && start.B == B && finish.B == B &&
      nodeMap.Length == mapSize && Layout(nodeMap[..], B, start.State(), finish.State(), brk)
    }

    /** Shape(), and [start, finish) holds constructed elements. */
    ghost predicate Valid()
      reads this, start, finish, nodeMap
    {
      Shape() && Stored(nodeMap[..], B, mem, start.Pos(), finish.Pos())
    }

    /** The elements from start to finish, in order. */
    ghost function Elements(): (r: seq<T>)
      reads this, start, finish, nodeMap
      requires Valid()
      ensures |r| == finish.Pos() - start.Pos()
    {
      Els(nodeMap[..], B, mem, start.Pos(), finish.Pos())
    }

    /** deque(n) / initialize_map(n): n / B + 1 nodes, centred in a map of
        max(8, 2 * nodes) slots; finish - start == n. Only initialize_map's layout is
        modelled, so the elements are constructed only when n == 0 (deque()). */
    constructor (bufSize: nat, n: nat, heap: int)
      requires bufSize >= 1
      ensures B == bufSize && Shape() && Size() == n && (n == 0 ==> Valid())
      ensures mapSize == AlgoBase.Max(8, 2 * (n / B + 1))
      ensures start.node == (mapSize - (n / B + 1)) / 2 && finish.node == start.node + n / B
      ensures start.cur == start.first && finish.cur == finish.first + n % B
      ensures mem == map[]
    {
      var mp, size, s, f, top := InitializeMap(bufSize, n, heap);
      B, nodeMap, mapSize, start, finish, mem, brk := bufSize, mp, size, s, f, map[], top;
    }

    /** size(): finish - start, which is the number of positions between them. */
    function Size(): (r: int)
      reads this, start, finish, nodeMap
      requires Shape()
      ensures r == finish.Pos() - start.Pos()
    {
      DiffIsDistance(nodeMap[..], finish, start);
      finish.Diff(start)
    }

    /** empty(): start == finish, which compares cur pointers only. */
    function Empty(): (r: bool)
      reads this, start, finish, nodeMap
      requires Shape()
      ensures r <==> Size() == 0
    {
      EqIsSamePos(nodeMap[..], start.node, finish.node, start, finish);
      start.Eq(finish)
    }

    /** range_check(n) as written: throws only when n > size(). */
    function RangeCheckAsWritten(n: nat): bool
      reads this, start, finish, nodeMap
      requires Shape()
    {
      !(n > Size())
    }

    /** range_check(n) as intended: n must index one of the elements. */
    function RangeCheck(n: nat): (r: bool)
      reads this, start, finish, nodeMap
      requires Shape()
      ensures r <==> n < Size()
    {
      n < Size()
    }

    /** The guard as written lets n == size() through, so at(size()) reads *finish, which is
        past the last element; the intended guard refuses it. */
    lemma RangeCheckAdmitsSize()
      requires Shape()
      ensures RangeCheckAsWritten(Size()) && !RangeCheck(Size())
      ensures forall n: nat :: RangeCheck(n) ==> RangeCheckAsWritten(n)
    {
    }

    /** operator[](n): *(start + n), with no check. */
    function Index(n: nat): (r: T)
      reads this, start, finish, nodeMap
      requires Valid() && n < Size()
      ensures r == Elements()[n]
    {
      mem[Addr(nodeMap[..], B, start.Pos() + n)]
    }

    /** at(n) with the intended check: the element, or None where out_of_range is thrown. */
    function At(n: nat): (r: Option<T>)
      reads this, start, finish, nodeMap
      requires Valid()
      ensures r.Some? <==> n < |Elements()|
      ensures r.Some? ==> r.value == Elements()[n]
    {
      if RangeCheck(n) then Some(Index(n)) else None
    }

    /** front(): *start. */
    function Front(): (r: T)
      reads this, start, finish, nodeMap
      requires Valid() && Size() > 0
      ensures r == Elements()[0]
    {
      CurIsAddr(nodeMap[..], start);
      mem[start.cur]
    }

    /** back(): a copy of finish, decremented once and dereferenced. */
    method Back() returns (r: T)
      requires Valid() && Size() > 0
      ensures r == Elements()[|Elements()| - 1]
    {
      var tmp := finish.Clone();
      tmp.Decrement(nodeMap[..]);
      CurIsAddr(nodeMap[..], tmp);
      r := mem[tmp.cur];
    }

    /** push_back(val): the fast path constructs at finish.cur and moves it on; when
        finish.cur is the last slot of its node, push_back_aux runs instead. */
    method PushBack(val: T)
      requires Valid() && (finish.cur == finish.last - 1 ==> finish.node + 1 < mapSize)
      modifies this, finish, nodeMap
      ensures Valid() && Elements() == old(Elements()) + [val]
    {
      if finish.cur != finish.last - 1 {
        PushBackFastLayout(nodeMap[..], B, start.State(), finish.State(), brk);
        PushBackEls(nodeMap[..], nodeMap[..], B, mem, start.State(), finish.State(), brk, val);
        mem := mem[finish.cur := val];
        finish.cur := finish.cur + 1;
      } else {
        PushBackAux(val);
      }
    }

    /** push_back_aux(val): a fresh node goes into the map slot after finish.node, val is
        constructed in the last slot of the old node and finish moves to the new node's first
        slot. The slot must exist: reserve_map_at_back would otherwise call reallocate_map,
        which is not modelled. The source writes finish.set_node(finish + 1); the node
        pointer finish.node + 1 is meant. */
    method PushBackAux(val: T)
      requires Valid() && finish.cur == finish.last - 1 && finish.node + 1 < mapSize
      modifies this, finish, nodeMap
      ensures Valid() && Elements() == old(Elements()) + [val]
    {
      var buf := brk;
      PushBackAuxLayout(nodeMap[..], B, start.State(), finish.State(), buf);
      PushBackEls(nodeMap[..], nodeMap[..][finish.node + 1 := buf], B, mem, start.State(), finish.State(), buf, val);
      brk := brk + B;
      nodeMap[finish.node + 1] := buf;
      mem := mem[finish.cur := val];
      finish.SetNode(nodeMap[..], finish.node + 1);
      finish.cur := finish.first;
    }

    /** push_front(val): the fast path constructs just before start.cur and moves it back;
        at the first slot of its node, push_front_aux runs instead. */
    method PushFront(val: T)
      requires Valid() && (start.cur == start.first ==> start.node > 0)
      modifies this, start, nodeMap
      ensures Valid() && Elements() == [val] + old(Elements())
    {
      if start.cur != start.first {
        PushFrontFastLayout(nodeMap[..], B, start.State(), finish.State(), brk);
        PushFrontFastEls(nodeMap[..], B, mem, start.State(), finish.State(), brk, val);
        mem := mem[start.cur - 1 := val];
        start.cur := start.cur - 1;
      } else {
        PushFrontAux(val);
      }
    }

    /** push_front_aux(val): a fresh node goes into the map slot before start.node, start
        moves to its last slot and val is constructed there. The slot must exist:
        reserve_map_at_front would otherwise call reallocate_map, which is not modelled. */
    method PushFrontAux(val: T)
      requires Valid() && start.cur == start.first && start.node > 0
      modifies this, start, nodeMap
      ensures Valid() && Elements() == [val] + old(Elements())
    {
      var buf := brk;
      PushFrontAuxLayout(nodeMap[..], B, start.State(), finish.State(), buf);
      PushFrontAuxEls(nodeMap[..], B, mem, start.State(), finish.State(), buf, val);
      brk := brk + B;
      nodeMap[start.node - 1] := buf;
      start.SetNode(nodeMap[..], start.node - 1);
      start.cur := start.last - 1;
      mem := mem[start.cur := val];
    }

    /** pop_front(): the fast path destroys *start.cur and moves it on; at the last slot
        of its node, pop_front_aux runs instead. */
    method PopFront()
      requires Valid() && Size() > 0
      modifies this, start
      ensures Valid() && Elements() == old(Elements())[1..]
    {
      if start.cur != start.last - 1 {
        PopFrontFastLayout(nodeMap[..], B, start.State(), finish.State(), brk);
        PopFrontEls(nodeMap[..], B, mem, start.State(), finish.State(), brk);
        mem := mem - {start.cur};
        start.cur := start.cur + 1;
      } else {
        PopFrontAux();
      }
    }

    /** pop_front_aux(): destroys the last element of the first node, frees that node and
        moves start to the first slot of the next one. */
    method PopFrontAux()
      requires Valid() && Size() > 0 && start.cur == start.last - 1
      modifies this, start
      ensures Valid() && Elements() == old(Elements())[1..]
    {
      PopFrontAuxLayout(nodeMap[..], B, start.State(), finish.State(), brk);
      PopFrontEls(nodeMap[..], B, mem, start.State(), finish.State(), brk);
      mem := mem - {start.cur};
      start.SetNode(nodeMap[..], start.node + 1);
      start.cur := start.first;
    }

    /** pop_back(): the fast path moves finish.cur back and destroys the element there; at
        the first slot of its node, pop_back_aux runs instead. The source tests
        finish.cur != finish.start, a member deque_iterator does not have; the test against
        finish.first is meant. */
    method PopBack()
      requires Valid() && Size() > 0
      modifies this, finish
      ensures Valid() && Elements() == old(Elements())[..|old(Elements())| - 1]
    {
      if finish.cur != finish.first {
        PopBackFastLayout(nodeMap[..], B, start.State(), finish.State(), brk);
        PopBackEls(nodeMap[..], B, mem, start.State(), finish.State(), brk);
        finish.cur := finish.cur - 1;
        mem := mem - {finish.cur};
      } else {
        PopBackAux();
      }
    }

    /** pop_back_aux(): frees the empty last node, moves finish to the last slot of the
        previous one and destroys the element there. */
    method PopBackAux()
      requires Valid() && Size() > 0 && finish.cur == finish.first
      modifies this, finish
      ensures Valid() && Elements() == old(Elements())[..|old(Elements())| - 1]
    {
      PopBackAuxLayout(nodeMap[..], B, start.State(), finish.State(), brk);
      PopBackEls(nodeMap[..], B, mem, start.State(), finish.State(), brk);
      finish.SetNode(nodeMap[..], finish.node - 1);
      finish.cur := finish.last - 1;
      mem := mem - {finish.cur};
    }

    /** An iterator over this deque's map, at a position from start to finish. */
    ghost predicate Within(it: DequeIter)
      reads this, start, finish, nodeMap, it
    {
      it.B == B && it.Valid(nodeMap[..]) && start.Pos() <= it.Pos() <= finish.Pos()
    }

    /** copy_backward(first, last, result) over this deque's iterators; see
        CopyBackwardMap. */
    method CopyBackwardWithin(first: DequeIter, last: DequeIter, result: DequeIter) returns (r: DequeIter)
      requires Valid() && Within(first) && Within(last) && Within(result)
      requires first.Pos() <= last.Pos() <= result.Pos()
      modifies this`mem
      ensures Valid() && fresh(r) && r.B == B && r.Valid(nodeMap[..])
      ensures r.Pos() == result.Pos() - (last.Pos() - first.Pos())
      ensures Moved(old(Elements()), Elements(), r.Pos() - start.Pos(), result.Pos() - start.Pos(), result.Pos() - last.Pos())
    {
      StateAddr(nodeMap[..], B, start.State());
      ghost var m, s, f := nodeMap[..], start.Pos(), finish.Pos();
      var mm;
      mm, r := CopyBackwardMap(nodeMap[..], B, mem, start.Pos(), finish.Pos(), start.node, finish.node, first, last, result);
      mem := mm;
      assert nodeMap[..] == m && start.Pos() == s && finish.Pos() == f;
    }

    /** copy(first, last, result) over this deque's iterators; see CopyMap. */
    method CopyWithin(first: DequeIter, last: DequeIter, result: DequeIter) returns (r: DequeIter)
      requires Valid() && Within(first) && Within(last) && Within(result)
      requires result.Pos() <= first.Pos() <= last.Pos()
      modifies this`mem
      ensures Valid() && fresh(r) && r.B == B && r.Valid(nodeMap[..])
      ensures r.Pos() == result.Pos() + (last.Pos() - first.Pos())
      ensures Moved(old(Elements()), Elements(), result.Pos() - start.Pos(), r.Pos() - start.Pos(), result.Pos() - first.Pos())
    {
      StateAddr(nodeMap[..], B, start.State());
      StateAddr(nodeMap[..], B, finish.State());
      ghost var m, s, f := nodeMap[..], start.Pos(), finish.Pos();
      var mm;
      mm, r := CopyMap(nodeMap[..], B, mem, start.Pos(), finish.Pos(), start.node, finish.node, first, last, result);
      mem := mm;
      assert nodeMap[..] == m && start.Pos() == s && finish.Pos() == f;
    }

    /** erase(pos) when pos is in the first half: copy_backward(start, pos, next) moves the
        elements before pos one step towards finish, then pop_front. */
    method EraseFront(pos: DequeIter, next: DequeIter, idx: int, ghost E0: seq<T>) returns (r: DequeIter)
      requires Valid() && Within(pos) && Within(next) && next.Pos() == pos.Pos() + 1
      requires E0 == Elements() && idx == pos.Pos() - start.Pos() && idx < |E0|
      modifies this, start
      ensures Valid() && Elements() == E0[..idx] + E0[idx + 1..]
      ensures fresh(r) && r.B == B && r.Valid(nodeMap[..]) && r.Pos() == start.Pos() + idx
    {
      ShiftFront(pos, next, idx, E0);
      PosFits(nodeMap[..], B, finish, start.Pos() + idx);
      r := start.Plus(nodeMap[..], idx);
    }

    /** The element moves of EraseFront: copy_backward(start, pos, next), then pop_front. */
    method ShiftFront(pos: DequeIter, next: DequeIter, idx: int, ghost E0: seq<T>)
      requires Valid() && Within(pos) && Within(next) && next.Pos() == pos.Pos() + 1
      requires E0 == Elements() && idx == pos.Pos() - start.Pos() && idx < |E0|
      modifies this, start
      ensures Valid() && Elements() == E0[..idx] + E0[idx + 1..]
    {
      var q := CopyBackwardWithin(start, pos, next);
      assert q.Pos() - start.Pos() == 1 && next.Pos() - start.Pos() == idx + 1;
      DropFront(idx, E0);
    }

    /** The pop_front that ends EraseFront, once [1, idx + 1) holds the values of [0, idx). */
    method DropFront(idx: int, ghost E0: seq<T>)
      requires Valid() && 0 <= idx < |E0| && Moved(E0, Elements(), 1, idx + 1, 1)
      modifies this, start
      ensures Valid() && Elements() == E0[..idx] + E0[idx + 1..]
    {
      ghost var E1 := Elements();
      PopFront();
      EraseByFront(E0, E1, Elements(), idx + 1);
    }

    /** erase(pos) otherwise: copy(next, finish, pos) moves the elements after pos one step
        towards start, then pop_back. */
    method EraseBack(pos: DequeIter, next: DequeIter, idx: int, ghost E0: seq<T>) returns (r: DequeIter)
      requires Valid() && Within(pos) && Within(next) && next.Pos() == pos.Pos() + 1
      requires E0 == Elements() && idx == pos.Pos() - start.Pos() && idx < |E0|
      modifies this, finish
      ensures Valid() && Elements() == E0[..idx] + E0[idx + 1..]
      ensures fresh(r) && r.B == B && r.Valid(nodeMap[..]) && r.Pos() == start.Pos() + idx
    {
      ShiftBack(pos, next, idx, E0);
      PosFits(nodeMap[..], B, finish, start.Pos() + idx);
      r := start.Plus(nodeMap[..], idx);
    }

    /** The element moves of EraseBack: copy(next, finish, pos), then pop_back. */
    method ShiftBack(pos: DequeIter, next: DequeIter, idx: int, ghost E0: seq<T>)
      requires Valid() && Within(pos) && Within(next) && next.Pos() == pos.Pos() + 1
      requires E0 == Elements() && idx == pos.Pos() - start.Pos() && idx < |E0|
      modifies this, finish
      ensures Valid() && Elements() == E0[..idx] + E0[idx + 1..] && start.Pos() == old(start.Pos())
    {
      var q := CopyWithin(next, finish, pos);
      assert q.Pos() - start.Pos() == |E0| - 1;
      DropBack(idx, E0);
    }

    /** The pop_back that ends EraseBack, once [idx, size() - 1) holds the values after idx. */
    method DropBack(idx: int, ghost E0: seq<T>)
      requires Valid() && 0 <= idx < |E0| && Moved(E0, Elements(), idx, |E0| - 1, -1)
      modifies this, finish
      ensures Valid() && Elements() == E0[..idx] + E0[idx + 1..] && start.Pos() == old(start.Pos())
    {
      ghost var E1 := Elements();
      PopBack();
      EraseByBack(E0, E1, Elements(), idx);
    }

    /** erase(pos): the elements before pos move one step towards finish and the front is
        popped when pos is in the first half (idx < size() / 2); otherwise the elements
        after pos move one step towards start and the back is popped. Either way the
        element at pos is gone, the others keep their order, and start + idx is returned. */
    method Erase(pos: DequeIter) returns (r: DequeIter)
      requires Valid() && pos.B == B && pos.Valid(nodeMap[..]) && start.Pos() <= pos.Pos() < finish.Pos()
      modifies this, start, finish
      ensures Valid() && fresh(r) && r.B == B && r.Valid(nodeMap[..])
      ensures Elements() == old(Elements()[..pos.Pos() - start.Pos()] + Elements()[pos.Pos() - start.Pos() + 1..])
      ensures r.Pos() == start.Pos() + old(pos.Pos() - start.Pos())
    {
      ghost var E0 := Elements();
      CurIsAddr(nodeMap[..], finish);
      var next := pos.Clone();
      next.Increment(nodeMap[..]);
      DiffIsDistance(nodeMap[..], pos, start);
      var idx := pos.Diff(start);
      if idx < Size() / 2 {
        r := EraseFront(pos, next, idx, E0);
      } else {
        r := EraseBack(pos, next, idx, E0);
      }
    }
  }
}
