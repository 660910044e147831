// Iterator/iterator_adaptor.hpp: back_insert_iterator, front_insert_iterator,
// insert_iterator and __reverse_iterator. Positions are indices into a sequence.
module IteratorAdaptor {

  /** A sequence container offering push_back, push_front and insert(pos, v), the
      operations the inserters call. */
  class Container<T> {
    var items: seq<T>

    constructor (init: seq<T>)
      ensures items == init
    {
      items := init;
    }

    method PushBack(v: T)
      modifies this
      ensures items == old(items) + [v]
    {
      items := items + [v];
    }

    method PushFront(v: T)
      modifies this
      ensures items == [v] + old(items)
    {
      items := [v] + items;
    }

    /** insert(pos, v): v is placed just before position pos. */
    method Insert(pos: nat, v: T)
      requires pos <= |items|
      modifies this
      ensures items == old(items)[..pos] + [v] + old(items)[pos..]
    {
      items := items[..pos] + [v] + items[pos..];
    }
  }

  /** back_insert_iterator: assignment appends. */
  class BackInsertIterator<T> {
    const container: Container<T>

    constructor (c: Container<T>)
      ensures container == c
    {
      container := c;
    }

    method Assign(v: T)
      modifies container
      ensures container.items == old(container.items) + [v]
    {
      container.PushBack(v);
    }

    /** Assigning vs one after the other appends them in order. */
    method AssignAll(vs: seq<T>)
      modifies container
      ensures container.items == old(container.items) + vs
    {
      var i := 0;
      while i < |vs|
        invariant 0 <= i <= |vs|
        invariant container.items == old(container.items) + vs[..i]
      {
        Assign(vs[i]);
        assert vs[..i + 1] == vs[..i] + [vs[i]];
        i := i + 1;
      }
    }
  }

  function Reverse<T>(s: seq<T>): (r: seq<T>)
    ensures |r| == |s|
    ensures forall k :: 0 <= k < |s| ==> r[k] == s[|s| - 1 - k]
  {
    if s == [] then [] else Reverse(s[1..]) + [s[0]]
  }

  /** front_insert_iterator: assignment prepends. */
  class FrontInsertIterator<T> {
    const container: Container<T>

    constructor (c: Container<T>)
      ensures container == c
    {
      container := c;
    }

    method Assign(v: T)
      modifies container
      ensures container.items == [v] + old(container.items)
    {
      container.PushFront(v);
    }

    /** Assigning vs one after the other leaves them in reverse order at the front. */
    method AssignAll(vs: seq<T>)
      modifies container
      ensures container.items == Reverse(vs) + old(container.items)
    {
      var i := 0;
      while i < |vs|
        invariant 0 <= i <= |vs|
        invariant container.items == Reverse(vs[..i]) + old(container.items)
      {
        Assign(vs[i]);
        assert Reverse(vs[..i + 1]) == [vs[i]] + Reverse(vs[..i]);
        i := i + 1;
      }
      assert vs[..i] == vs;
    }
  }

  /** insert_iterator: assignment inserts at iter and then advances iter past the new element.
      Positions are indices into the container, as in a vector-like container. */
  class InsertIterator<T> {
    const container: Container<T>
    var iter: nat

    constructor (c: Container<T>, i: nat)
      ensures container == c && iter == i
    {
      container := c;
      iter := i;
    }

    method Assign(v: T)
      requires iter <= |container.items|
      modifies this, container
      ensures iter == old(iter) + 1 && iter <= |container.items|
      ensures container.items == old(container.items)[..old(iter)] + [v] + old(container.items)[old(iter)..]
    {
      container.Insert(iter, v);
      iter := iter + 1;
    }

    /** Successive assignments appear at the insertion point in assignment order. */
    method AssignAll(vs: seq<T>)
      requires iter <= |container.items|
      modifies this, container
      ensures iter == old(iter) + |vs|
      ensures container.items == old(container.items)[..old(iter)] + vs + old(container.items)[old(iter)..]
    {
      ghost var s0, p0 := container.items, iter;
      var i := 0;
      while i < |vs|
        invariant 0 <= i <= |vs| && iter == p0 + i
        invariant container.items == s0[..p0] + vs[..i] + s0[p0..]
      {
        assert container.items[..iter] == s0[..p0] + vs[..i];
        assert container.items[iter..] == s0[p0..];
        Assign(vs[i]);
        assert vs[..i + 1] == vs[..i] + [vs[i]];
        i := i + 1;
      }
      assert vs[..i] == vs;
    }
  }

  /** __reverse_iterator over a base iterator, itself a position. */
  class ReverseIterator {
    var cur: int

    constructor (i: int)
      ensures cur == i
    {
      cur := i;
    }

    function Base(): int reads this { cur }

    /** operator*: the element just before the base. */
    function Deref<T>(s: seq<T>): (r: T)
      reads this
      requires 0 < cur <= |s|
      ensures r == s[Base() - 1]
    {
      s[cur - 1]
    }

    /** operator++ (prefix): the base moves back. */
    method Increment()
      modifies this
      ensures cur == old(cur) - 1
    {
      cur := cur - 1;
    }

    /** operator++(int): moves back and returns the old value. */
    method PostIncrement() returns (old_base: int)
      modifies this
      ensures old_base == old(cur) && cur == old(cur) - 1
    {
      old_base := cur;
      cur := cur - 1;
    }

    /** operator-- (prefix): the base moves forward. */
    method Decrement()
      modifies this
      ensures cur == old(cur) + 1
    {
      cur := cur + 1;
    }

    /** operator--(int) */
    method PostDecrement() returns (old_base: int)
      modifies this
      ensures old_base == old(cur) && cur == old(cur) + 1
    {
      old_base := cur;
      cur := cur + 1;
    }

    /** operator+(n): a reverse iterator whose base is n positions back. */
    method Add(n: int) returns (r: ReverseIterator)
      ensures fresh(r) && r.cur == cur - n
    {
      r := new ReverseIterator(cur - n);
    }

    /** operator-(n): base n positions forward. */
    method Sub(n: int) returns (r: ReverseIterator)
      ensures fresh(r) && r.cur == cur + n
    {
      r := new ReverseIterator(cur + n);
    }

    /** operator+=(n) */
    method AddAssign(n: int)
      modifies this
      ensures cur == old(cur) - n
    {
      cur := cur - n;
    }

    /** operator-=(n) as written at Iterator/iterator_adaptor.hpp:191-194: `cur -= n`,
        the same as +=. */
    method SubAssignAsWritten(n: int)
      modifies this
      ensures cur == old(cur) - n
    {
      cur := cur - n;
    }

    /** operator-=(n) as intended: the inverse of +=. */
    method SubAssign(n: int)
      modifies this
      ensures cur == old(cur) + n
    {
      cur := cur + n;
    }

    /** operator[](n): *(*this + n). */
    function At<T>(s: seq<T>, n: int): (r: T)
      reads this
      requires 0 < cur - n <= |s|
      ensures r == s[Base() - n - 1]
    {
      s[cur - n - 1]
    }
  }

  /** As written, `it += 1; it -= 1` moves the iterator two places instead of back to where it was. */
  method SubAssignAsWrittenDoesNotUndo() returns (start: int, finish: int)
    ensures start == 5 && finish == 3
  {
    var it := new ReverseIterator(5);
    start := it.cur;
    it.AddAssign(1);
    it.SubAssignAsWritten(1);
    finish := it.cur;
  }

  /** With the intended -=, `it += n; it -= n` restores the iterator. */
  method SubAssignUndoesAddAssign(it: ReverseIterator, n: int)
    modifies it
    ensures it.cur == old(it.cur)
  {
    it.AddAssign(n);
    it.SubAssign(n);
  }

  /** operator==: equal bases. */
  predicate Equal(x: ReverseIterator, y: ReverseIterator)
    reads x, y
  {
    x.cur == y.cur
  }

  /** operator-(x, y): y.base() - x.base(), the number of reverse steps from y to x. */
  function Difference(x: ReverseIterator, y: ReverseIterator): (d: int)
    reads x, y
    ensures Equal(x, y) <==> d == 0
  {
    y.cur - x.cur
  }

  /** operator< as written at Iterator/iterator_adaptor.hpp:207-211: x.base() < y.base(). */
  predicate LessAsWritten(x: ReverseIterator, y: ReverseIterator)
    reads x, y
  {
    x.cur < y.cur
  }

  /** operator< as intended (the reverse of the base order): y.base() < x.base(). */
  predicate Less(x: ReverseIterator, y: ReverseIterator)
    reads x, y
  {
    y.cur < x.cur
  }

  /** The intended < agrees with the difference: x < y exactly when x - y < 0, and !=, >, <=
      and >= follow from == and <. The as-written < says the opposite of the difference. */
  lemma LessMatchesDifference(x: ReverseIterator, y: ReverseIterator)
    ensures Less(x, y) <==> Difference(x, y) < 0
    ensures LessAsWritten(x, y) <==> Difference(x, y) > 0
    ensures Less(x, y) || Equal(x, y) || Less(y, x)
  {
  }

  /** y is x advanced once: x - y == -1, so x comes first, which the intended < confirms and
      the as-written < denies. */
  method LessAsWrittenDisagrees() returns (x: ReverseIterator, y: ReverseIterator)
    ensures Difference(x, y) == -1
    ensures Less(x, y) && !LessAsWritten(x, y)
  {
    x := new ReverseIterator(2);
    y := new ReverseIterator(2);
    y.Increment();
  }
}
