// Iterator/iterator_base.hpp: distance and advance for the three iterator categories.
// An iterator is modelled by its position in the underlying sequence; ++ and -- move it
// by one, and random-access iterators also support adding any offset.
module IteratorBase {

  /** Random-access __distance: last - first. */
  function RandomDistance(first: int, last: int): (d: int)
    ensures first + d == last
  {
    last - first
  }

  /** Input __distance: count the increments from first until last is reached. */
  method InputDistance(first: int, last: int) returns (n: int)
    requires first <= last
    ensures n == RandomDistance(first, last)
    ensures n >= 0
  {
    n := 0;
    var it := first;
    while it != last
      invariant first <= it <= last && n == it - first
      decreases last - it
    {
      n := n + 1;
      it := it + 1;
    }
  }

  /** Random-access __advance: i += n. */
  function RandomAdvance(i: int, n: int): (r: int)
    ensures RandomDistance(i, r) == n
  {
    i + n
  }

  /** Bidirectional __advance: n increments for n >= 0, otherwise -n decrements. */
  method BidirectionalAdvance(i: int, n: int) returns (r: int)
    ensures r == RandomAdvance(i, n)
  {
    r := i;
    var m := n;
    if n >= 0 {
      while m > 0
        invariant 0 <= m <= n && r == i + (n - m)
      {
        m := m - 1;
        r := r + 1;
      }
    } else {
      while m < 0
        invariant n <= m <= 0 && r == i + (n - m)
      {
        m := m + 1;
        r := r - 1;
      }
    }
  }

  /** Input __advance: `while(n--) ++i`, which only terminates for n >= 0. */
  method InputAdvance(i: int, n: int) returns (r: int)
    requires n >= 0
    ensures r == RandomAdvance(i, n)
  {
    r := i;
    var m := n;
    while m != 0
      invariant 0 <= m <= n && r == i + (n - m)
    {
      m := m - 1;
      r := r + 1;
    }
  }

  /** For input iterators, advancing by n >= 0 and then counting the distance from the
      start gives back n. */
  method AdvanceThenDistance(i: int, n: int) returns (d: int)
    requires n >= 0
    ensures d == n
  {
    var j := InputAdvance(i, n);
    d := InputDistance(i, j);
  }

  /** For bidirectional iterators, whose distance is the counting one, advancing by any n
      and then counting from the earlier of the two iterators to the later gives back |n|. */
  method BidirectionalAdvanceThenDistance(i: int, n: int) returns (d: int)
    ensures d == if n >= 0 then n else -n
  {
    var j := BidirectionalAdvance(i, n);
    if n >= 0 {
      d := InputDistance(i, j);
    } else {
      d := InputDistance(j, i);
    }
  }

  /** For random-access iterators, advancing by any n and then taking last - first gives
      back n. */
  method RandomAdvanceThenDistance(i: int, n: int) returns (d: int)
    ensures d == n
  {
    var j := RandomAdvance(i, n);
    d := RandomDistance(i, j);
  }
}
