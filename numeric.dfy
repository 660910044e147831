// Algorithms/numeric.hpp: accumulate, inner_product, adjacent_difference, power and iota.
// Input ranges are sequences, output ranges are arrays written from index `result`.
module Numeric {
  import opened FunctionBase

  /** The left fold op(...op(op(init, s[0]), s[1])..., s[n-1]). */
  function FoldLeft<A, B>(op: (A, B) -> A, init: A, s: seq<B>): A
    decreases |s|
  {
    if s == [] then init else FoldLeft(op, op(init, s[0]), s[1..])
  }

  /** Folding a concatenation folds the second part over the fold of the first. */
  lemma {:induction false} FoldLeftAppend<A, B>(op: (A, B) -> A, init: A, s: seq<B>, t: seq<B>)
    ensures FoldLeft(op, init, s + t) == FoldLeft(op, FoldLeft(op, init, s), t)
    decreases |s|
  {
    if s != [] {
      assert (s + t)[0] == s[0] && (s + t)[1..] == s[1..] + t;
      FoldLeftAppend(op, op(init, s[0]), s[1..], t);
    } else {
      assert s + t == t;
    }
  }

  function Sum(s: seq<int>): int { if s == [] then 0 else s[0] + Sum(s[1..]) }

  /** With plus, the fold from init is init plus the sum of the range. */
  lemma {:induction false} FoldPlusIsSum(init: int, s: seq<int>)
    ensures FoldLeft((a: int, b: int) => a + b, init, s) == init + Sum(s)
    decreases |s|
  {
    if s != [] {
      FoldPlusIsSum(init + s[0], s[1..]);
    }
  }

  /** accumulate(first, last, init, op): fold op from left to right starting at init. */
  method Accumulate<A, B>(s: seq<B>, init: A, op: (A, B) -> A) returns (r: A)
    ensures r == FoldLeft(op, init, s)
  {
    r := init;
    var i := 0;
    while i < |s|
      invariant 0 <= i <= |s|
      invariant FoldLeft(op, r, s[i..]) == FoldLeft(op, init, s)
    {
      assert s[i..][1..] == s[i + 1..];
      r := op(r, s[i]);
      i := i + 1;
    }
  }

  /** inner_product as written: `init = op1(init, op1(*first1++, *first2++))`, so op2 is
      never used (Algorithms/numeric.hpp:21). */
  method InnerProductAsWritten(a: seq<int>, b: seq<int>, init: int,
                               op1: (int, int) -> int, op2: (int, int) -> int) returns (r: int)
    requires |a| <= |b|
    ensures r == FoldLeft(op1, init, seq(|a|, k requires 0 <= k < |a| => op1(a[k], b[k])))
  {
    ghost var terms := seq(|a|, k requires 0 <= k < |a| => op1(a[k], b[k]));
    r := init;
    var i := 0;
    while i < |a|
      invariant 0 <= i <= |a|
      invariant FoldLeft(op1, r, terms[i..]) == FoldLeft(op1, init, terms)
    {
      assert terms[i..][1..] == terms[i + 1..];
      r := op1(r, op1(a[i], b[i]));
      i := i + 1;
    }
  }

  /** With the default operators the as-written version sums instead of multiplying:
      for [1] and [2] it yields 3, the intended inner product is 2. */
  method InnerProductAsWrittenExample() returns (asWritten: int, intended: int)
    ensures asWritten == 3 && intended == 2
  {
    asWritten := InnerProductAsWritten([1], [2], 0, Plus, Multiplies);
    intended := InnerProduct([1], [2], 0, Plus, Multiplies);
    var a, b := [1], [2];
    assert seq(|a|, k requires 0 <= k < |a| => Plus(a[k], b[k])) == [3];
    assert seq(|a|, k requires 0 <= k < |a| => Multiplies(a[k], b[k])) == [2];
    assert FoldLeft(Plus, 0, [3]) == FoldLeft(Plus, 3, [3][1..]);
    assert FoldLeft(Plus, 0, [2]) == FoldLeft(Plus, 2, [2][1..]);
  }

  /** inner_product as intended: `init = op1(init, op2(*first1++, *first2++))`. */
  method InnerProduct(a: seq<int>, b: seq<int>, init: int,
                      op1: (int, int) -> int, op2: (int, int) -> int) returns (r: int)
    requires |a| <= |b|
    ensures r == FoldLeft(op1, init, seq(|a|, k requires 0 <= k < |a| => op2(a[k], b[k])))
  {
    ghost var terms := seq(|a|, k requires 0 <= k < |a| => op2(a[k], b[k]));
    r := init;
    var i := 0;
    while i < |a|
      invariant 0 <= i <= |a|
      invariant FoldLeft(op1, r, terms[i..]) == FoldLeft(op1, init, terms)
    {
      assert terms[i..][1..] == terms[i + 1..];
      r := op1(r, op2(a[i], b[i]));
      i := i + 1;
    }
  }

  function Dot(a: seq<int>, b: seq<int>): int
    requires |a| <= |b|
  {
    if a == [] then 0 else a[0] * b[0] + Dot(a[1..], b[1..])
  }

  /** With plus and multiplies the intended inner product is init + sum of a[k] * b[k]. */
  lemma {:induction false} InnerProductDefaultIsDot(a: seq<int>, b: seq<int>, init: int)
    requires |a| <= |b|
    ensures FoldLeft(Plus, init, seq(|a|, k requires 0 <= k < |a| => Multiplies(a[k], b[k])))
            == init + Dot(a, b)
    decreases |a|
  {
    if a != [] {
      var terms := seq(|a|, k requires 0 <= k < |a| => Multiplies(a[k], b[k]));
      var rest := seq(|a| - 1, k requires 0 <= k < |a| - 1 => Multiplies(a[1..][k], b[1..][k]));
      assert terms[1..] == rest;
      InnerProductDefaultIsDot(a[1..], b[1..], init + a[0] * b[0]);
    }
  }

  /** adjacent_difference(first, last, result, op): out[0] = in[0] and
      out[i] = op(in[i], in[i - 1]); returns one past the last element written. */
  method AdjacentDifference(s: seq<int>, out: array<int>, result: int, op: (int, int) -> int)
    returns (end: int)
    requires 0 <= result && result + |s| <= out.Length
    modifies out
    ensures end == result + |s|
    ensures |s| > 0 ==> out[result] == s[0]
    ensures forall i :: 0 < i < |s| ==> out[result + i] == op(s[i], s[i - 1])
    ensures out[..result] == old(out[..result]) && out[end..] == old(out[end..])
  {
    if |s| == 0 {
      return result;
    }
    out[result] := s[0];
    var tmp := s[0];
    var i := 1;
    while i < |s|
      invariant 1 <= i <= |s| && tmp == s[i - 1]
      invariant out[result] == s[0]
      invariant forall j :: 0 < j < i ==> out[result + j] == op(s[j], s[j - 1])
      invariant out[..result] == old(out[..result]) && out[result + i..] == old(out[result + i..])
    {
      var v := s[i];
      out[result + i] := op(v, tmp);
      tmp := v;
      i := i + 1;
    }
    end := result + |s|;
  }

  /** Running sums undo adjacent differences taken with minus: out[0] + ... + out[i] == s[i]. */
  lemma {:induction false} AdjacentDifferenceTelescopes(s: seq<int>, d: seq<int>, i: nat)
    requires |d| == |s| && i < |s| && (|s| > 0 ==> d[0] == s[0])
    requires forall j :: 0 < j < |s| ==> d[j] == Minus(s[j], s[j - 1])
    ensures Sum(d[..i + 1]) == s[i]
  {
    if i == 0 {
      assert d[..1] == [d[0]];
    } else {
      AdjacentDifferenceTelescopes(s, d, i - 1);
      SumSnoc(d[..i], d[i]);
      assert d[..i + 1] == d[..i] + [d[i]];
    }
  }

  lemma {:induction false} SumSnoc(s: seq<int>, x: int)
    ensures Sum(s + [x]) == Sum(s) + x
  {
    if s != [] {
      assert (s + [x])[1..] == s[1..] + [x];
      SumSnoc(s[1..], x);
    }
  }

  /** x combined with itself n times; n == 0 gives identity_element(op). */
  function PowSpec(op: ArithOp, x: int, n: nat): int
  {
    if n == 0 then IdentityElement(op) else Apply(op, x, PowSpec(op, x, n - 1))
  }

  lemma ApplyAssoc(op: ArithOp, a: int, b: int, c: int)
    ensures Apply(op, Apply(op, a, b), c) == Apply(op, a, Apply(op, b, c))
    ensures Apply(op, a, b) == Apply(op, b, a)
  {
    if op == MultipliesOp {
      assert (a * b) * c == a * (b * c);
    }
  }

  lemma {:induction false} PowAdd(op: ArithOp, x: int, m: nat, n: nat)
    ensures PowSpec(op, x, m + n) == Apply(op, PowSpec(op, x, m), PowSpec(op, x, n))
  {
    if m == 0 {
      assert Apply(op, IdentityElement(op), PowSpec(op, x, n)) == PowSpec(op, x, n);
    } else {
      PowAdd(op, x, m - 1, n);
      ApplyAssoc(op, x, PowSpec(op, x, m - 1), PowSpec(op, x, n));
    }
  }

  /** (x op x) combined n times is x combined 2n times. */
  lemma {:induction false} PowSquare(op: ArithOp, x: int, n: nat)
    ensures PowSpec(op, Apply(op, x, x), n) == PowSpec(op, x, 2 * n)
  {
    if n > 0 {
      PowSquare(op, x, n - 1);
      PowAdd(op, x, 2, 2 * (n - 1));
      assert PowSpec(op, x, 1) == x;
      assert PowSpec(op, x, 2) == Apply(op, x, x);
    }
  }

  /** One iteration of the second loop of power as written: x is squared and result may
      absorb it, but `n >> 1;` (Algorithms/numeric.hpp:77) discards the shifted value. */
  function PowerStepAsWritten(op: ArithOp, x: int, n: nat, result: int): (int, nat, int)
  {
    var x' := Apply(op, x, x);
    (x', n, if n % 2 != 0 then Apply(op, result, x') else result)
  }

  /** Hence the loop condition n != 0 never changes: for n = 3 the second loop starts with
      n = 1 and stays there forever. */
  lemma PowerStepAsWrittenKeepsN(op: ArithOp, x: int, n: nat, result: int)
    ensures PowerStepAsWritten(op, x, n, result).1 == n
    ensures PowerStepAsWritten(op, x, 1, result).1 != 0
  {
  }

  /** power(x, n, op) by repeated squaring, with line 77 as the evident `n >>= 1`. */
  method Power(x: int, n: nat, op: ArithOp) returns (r: int)
    ensures r == PowSpec(op, x, n)
  {
    if n == 0 {
      return IdentityElement(op);
    }
    var x1 := x;
    var n1: nat := n;
    while n1 % 2 == 0
      invariant n1 > 0 && PowSpec(op, x1, n1) == PowSpec(op, x, n)
      decreases n1
    {
      PowSquare(op, x1, n1 / 2);
      x1 := Apply(op, x1, x1);
      n1 := n1 / 2;
    }
    r := x1;
    PowAdd(op, x1, 1, n1 - 1);
    PowSquare(op, x1, n1 / 2);
    n1 := n1 / 2;
    while n1 != 0
      invariant Apply(op, r, PowSpec(op, Apply(op, x1, x1), n1)) == PowSpec(op, x, n)
      decreases n1
    {
      var sq := Apply(op, x1, x1);
      PowSquare(op, sq, n1 / 2);
      if n1 % 2 != 0 {
        PowAdd(op, sq, 1, n1 - 1);
        ApplyAssoc(op, r, sq, PowSpec(op, Apply(op, sq, sq), n1 / 2));
      }
      x1 := sq;
      if n1 % 2 != 0 {
        r := Apply(op, r, x1);
      }
      n1 := n1 / 2;
    }
  }

  /** iota(first, last, init): successive values init, init + 1, ... (the source's
      `fisrt` at Algorithms/numeric.hpp:86 is read as `first`). */
  method Iota(a: array<int>, first: int, last: int, init: int)
    requires 0 <= first <= last <= a.Length
    modifies a
    ensures forall k :: first <= k < last ==> a[k] == init + (k - first)
    ensures forall k :: 0 <= k < a.Length && !(first <= k < last) ==> a[k] == old(a[k])
  {
    var i := first;
    var v := init;
    while i < last
      invariant first <= i <= last && v == init + (i - first)
      invariant forall k :: first <= k < i ==> a[k] == init + (k - first)
      invariant forall k :: 0 <= k < a.Length && !(first <= k < i) ==> a[k] == old(a[k])
    {
      a[i] := v;
      i := i + 1;
      v := v + 1;
    }
  }
}
