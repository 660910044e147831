// Function/function_base.hpp: arithmetic, relational and logical functors,
// identity elements, pair selectors and the subtractive random number generator.
module FunctionBase {
  import opened Pair

  /** Number of values of `unsigned int` (32 bits). */
  const U32: int := 0x1_0000_0000

  // ---- arithmetic functors, instantiated at a signed integer type ----

  function Plus(x: int, y: int): int { x + y }
  function Minus(x: int, y: int): int { x - y }
  function Multiplies(x: int, y: int): int { x * y }
  function Negate(x: int): int { -x }

  /** divides: C++ integer division, which truncates toward zero (unlike Dafny's `/`). */
  function Divides(x: int, y: int): int
    requires y != 0
  {
    var q := Abs(x) / Abs(y);
    if (x < 0) != (y < 0) then -q else q
  }

  /** modulus: C++ `%`, whose result takes the sign of the dividend. */
  function Modulus(x: int, y: int): int
    requires y != 0
  {
    if x < 0 then -(Abs(x) % Abs(y)) else Abs(x) % Abs(y)
  }

  function Abs(x: int): nat { if x < 0 then -x else x }

  /** divides and modulus agree with the C++ rule x == (x / y) * y + x % y,
      the remainder is smaller than the divisor and never has the opposite sign of x,
      and the quotient is rounded toward zero. */
  lemma {:induction false} DivModIdentity(x: int, y: int)
    requires y != 0
    ensures Multiplies(Divides(x, y), y) + Modulus(x, y) == x
    ensures Abs(Modulus(x, y)) < Abs(y)
    ensures x >= 0 ==> Modulus(x, y) >= 0
    ensures x <= 0 ==> Modulus(x, y) <= 0
    ensures Abs(Multiplies(Divides(x, y), y)) <= Abs(x)
  {
    var a: int, b: int := Abs(x), Abs(y);
    var q: int, m: int := a / b, a % b;
    assert a == q * b + m;
    assert q >= 0 && 0 <= m < b;
    var d := Divides(x, y);
    if x >= 0 && y > 0 {
      assert d == q && y == b;
    } else if x >= 0 && y < 0 {
      assert d == -q && y == -b;
      NegMul(q, b);
    } else if x < 0 && y > 0 {
      assert d == -q && y == b;
      NegMul(q, b);
    } else {
      assert d == q && y == -b;
      NegMul(q, b);
    }
  }

  lemma NegMul(a: int, b: int)
    ensures (-a) * b == -(a * b) && a * (-b) == -(a * b) && (-a) * (-b) == a * b
  {
  }

  // ---- identity elements ----

  /** The two operators that have an identity_element overload. */
  datatype ArithOp = PlusOp | MultipliesOp

  function Apply(op: ArithOp, x: int, y: int): int
  {
    match op
    case PlusOp => Plus(x, y)
    case MultipliesOp => Multiplies(x, y)
  }

  /** identity_element: 0 for plus, 1 for multiplies; combining with it changes nothing. */
  function IdentityElement(op: ArithOp): (e: int)
    ensures forall x :: Apply(op, x, e) == x && Apply(op, e, x) == x
  {
    match op
    case PlusOp => 0
    case MultipliesOp => 1
  }

  // ---- relational and logical functors ----

  predicate EqualTo(x: int, y: int) { x == y }
  predicate NotEqualTo(x: int, y: int) { x != y }
  predicate Greater(x: int, y: int) { x > y }
  predicate Less(x: int, y: int) { x < y }
  predicate GreaterEqual(x: int, y: int) { x >= y }

  /** less_equal as written at Function/function_base.hpp:131-133: it returns x == y. */
  predicate LessEqualAsWritten(x: int, y: int) { x == y }

  /** The as-written less_equal rejects a pair that is strictly less. */
  lemma LessEqualAsWrittenRejectsLess()
    ensures Less(1, 2) && !LessEqualAsWritten(1, 2)
  {
  }

  /** less_equal as intended: x <= y. */
  predicate LessEqual(x: int, y: int) { x <= y }

  /** The relational functors are mutually consistent: <= is < or ==, >= is > or ==,
      > is < with the arguments swapped, and != negates ==. */
  lemma RelationalConsistent(x: int, y: int)
    ensures LessEqual(x, y) <==> Less(x, y) || EqualTo(x, y)
    ensures LessEqual(x, y) <==> !Greater(x, y)
    ensures GreaterEqual(x, y) <==> Greater(x, y) || EqualTo(x, y)
    ensures Greater(x, y) <==> Less(y, x)
    ensures NotEqualTo(x, y) <==> !EqualTo(x, y)
  {
  }

  predicate LogicalAnd(x: bool, y: bool) { x && y }
  predicate LogicalOr(x: bool, y: bool) { x || y }
  /** The unary functor at Function/function_base.hpp:151-156 reuses the name equal_to
      (a redefinition); its body is logical negation, which is what is modelled. */
  predicate LogicalNot(x: bool) { !x }

  lemma LogicalDeMorgan(x: bool, y: bool)
    ensures LogicalNot(LogicalAnd(x, y)) == LogicalOr(LogicalNot(x), LogicalNot(y))
    ensures LogicalNot(LogicalOr(x, y)) == LogicalAnd(LogicalNot(x), LogicalNot(y))
  {
  }

  // ---- selectors and projections ----

  function Identity<T>(x: T): T { x }
  function Select1st<A, B>(p: Pair<A, B>): A { p.first }
  function Select2nd<A, B>(p: Pair<A, B>): B { p.second }
  function Project1st<A, B>(x: A, y: B): A { x }
  function Project2nd<A, B>(x: A, y: B): B { y }

  /** select1st/select2nd recover what make_pair was given. */
  lemma SelectMakePair<A, B>(a: A, b: B)
    ensures Select1st(MakePair(a, b)) == a && Select2nd(MakePair(a, b)) == b
    ensures Project1st(a, b) == Identity(a) && Project2nd(a, b) == Identity(b)
  {
  }

  // ---- subtractive random number generator ----

  /** The slot written by step i (0 <= i < 54) of the seeding loop. */
  function WriteIndex(i: int): int { (21 * (i + 1)) % 55 - 1 }

  /** Because 21 and 55 are coprime, every slot WriteIndex writes lies in [0, 54)
      (the index never wraps to -1). */
  lemma WriteIndexInRange(i: int)
    requires 0 <= i < 54
    ensures 0 <= WriteIndex(i) < 54
  {
  }

  lemma ModOfSum(x: int, k: int, a: int)
    requires x == a + 55 * k && 0 <= a < 55
    ensures x % 55 == a
  {
  }

  /** WriteIndex is its own inverse on [0, 54), since 21 * 21 = 1 modulo 55; so the
      54 steps of the seeding loop write the 54 slots [0, 54) once each. */
  lemma {:induction false} WriteIndexInverse(i: int)
    requires 0 <= i < 54
    ensures 0 <= WriteIndex(i) < 54
    ensures WriteIndex(WriteIndex(i)) == i
  {
    WriteIndexInRange(i);
    var a := i + 1;
    var q := (21 * a) / 55;
    var r := (21 * a) % 55;
    assert 21 * a == 55 * q + r;
    assert 21 * r == a + 55 * (8 * a - 21 * q);
    ModOfSum(21 * r, 8 * a - 21 * q, a);
  }

  /** State of the seeding loop: the table, k and the running seed. */
  datatype FillState = FillState(t: seq<int>, k: int, s: int)

  /** The seeding loop after its first n steps, starting from table t0. */
  function Filled(t0: seq<int>, seed: int, n: nat): (st: FillState)
    requires |t0| == 55 && n <= 54
    ensures |st.t| == 55
    ensures st.t[54] == seed
  {
    if n == 0 then FillState(t0[54 := seed], 1, seed)
    else
      var prev := Filled(t0, seed, n - 1);
      WriteIndexInRange(n - 1);
      var j := WriteIndex(n - 1);
      FillState(prev.t[j := prev.k], (prev.s - prev.k) % U32, prev.k)
  }

  /** After n steps, the slots written so far do not depend on the table's previous contents. */
  lemma {:induction false} FilledAgree(t0: seq<int>, t1: seq<int>, seed: int, n: nat)
    requires |t0| == 55 && |t1| == 55 && n <= 54
    ensures Filled(t0, seed, n).k == Filled(t1, seed, n).k
    ensures Filled(t0, seed, n).s == Filled(t1, seed, n).s
    ensures forall i :: 0 <= i < n ==> (0 <= WriteIndex(i) < 54 &&
      Filled(t0, seed, n).t[WriteIndex(i)] == Filled(t1, seed, n).t[WriteIndex(i)])
  {
    if n > 0 {
      FilledAgree(t0, t1, seed, n - 1);
      forall i | 0 <= i < n ensures 0 <= WriteIndex(i) < 54 {
        WriteIndexInRange(i);
      }
    }
  }

  /** The seeded table is a function of the seed alone: its previous contents are all overwritten. */
  lemma SeedingIgnoresOldTable(t0: seq<int>, t1: seq<int>, seed: int)
    requires |t0| == 55 && |t1| == 55
    ensures Filled(t0, seed, 54).t == Filled(t1, seed, 54).t
  {
    FilledAgree(t0, t1, seed, 54);
    var a, b := Filled(t0, seed, 54).t, Filled(t1, seed, 54).t;
    forall j | 0 <= j < 55 ensures a[j] == b[j] {
      if j < 54 {
        WriteIndexInverse(j);
        var i := WriteIndex(j);
        assert WriteIndex(i) == j;
      }
    }
  }

  /** One mixing pass from slot i on: t[i] -= t[(i + 31) % 55], in slot order, modulo 2^32. */
  function MixPass(t: seq<int>, i: nat): (r: seq<int>)
    requires |t| == 55 && i <= 55
    ensures |r| == 55
    decreases 55 - i
  {
    if i == 55 then t
    else MixPass(t[i := (t[i] - t[(1 + i + 30) % 55]) % U32], i + 1)
  }

  /** r mixing passes. */
  function Mix(t: seq<int>, r: nat): (m: seq<int>)
    requires |t| == 55
    ensures |m| == 55
    decreases r
  {
    if r == 0 then t else MixPass(Mix(t, r - 1), 0)
  }

  ghost predicate Words(t: seq<int>) { forall i :: 0 <= i < |t| ==> 0 <= t[i] < U32 }

  lemma {:induction false} MixPassWords(t: seq<int>, i: nat)
    requires |t| == 55 && i <= 55 && Words(t)
    ensures Words(MixPass(t, i))
    decreases 55 - i
  {
    if i < 55 {
      MixPassWords(t[i := (t[i] - t[(1 + i + 30) % 55]) % U32], i + 1);
    }
  }

  function Zeros(): (z: seq<int>)
    ensures |z| == 55
  {
    seq(55, _ => 0)
  }

  class SubtractiveRng {
    var table: array<int>
    var index1: int
    var index2: int

    ghost predicate Valid()
      reads this, table
    {
      table.Length == 55 && 0 <= index1 < 55 && 0 <= index2 < 55 && Words(table[..])
    }

    /** substractive_rng(seed). */
    constructor (seed: int)
      requires 0 <= seed < U32
      ensures Valid() && fresh(table)
      ensures index1 == 0 && index2 == 31
      ensures table[..] == Mix(Filled(Zeros(), seed, 54).t, 4)
    {
      table := new int[55];
      new;
      ghost var t0 := table[..];
      Initialized(seed);
      SeedingIgnoresOldTable(t0, Zeros(), seed);
    }

    /** substractive_rng(): the default seed. */
    constructor Default()
      ensures Valid() && fresh(table)
      ensures index1 == 0 && index2 == 31
      ensures table[..] == Mix(Filled(Zeros(), 161803398, 54).t, 4)
    {
      table := new int[55];
      new;
      ghost var t0 := table[..];
      Initialized(161803398);
      SeedingIgnoresOldTable(t0, Zeros(), 161803398);
    }

    /** initialized(seed): seed the table, then run four mixing passes. */
    method Initialized(seed: int)
      requires table.Length == 55 && 0 <= seed < U32
      modifies this`index1, this`index2, table
      ensures Valid()
      ensures index1 == 0 && index2 == 31
      ensures table[..] == Mix(Filled(old(table[..]), seed, 54).t, 4)
    {
      SeedTable(seed);
      MixTable();
      index1 := 0;
      index2 := 31;
    }

    /** The first loop of initialized: 54 writes at WriteIndex(i), then table[54] holds the seed. */
    method SeedTable(seed: int)
      requires table.Length == 55 && 0 <= seed < U32
      modifies table
      ensures Words(table[..])
      ensures table[..] == Filled(old(table[..]), seed, 54).t
    {
      ghost var t0 := table[..];
      var k := 1;
      var s := seed;
      table[54] := seed;
      var i := 0;
      while i < 54
        invariant 0 <= i <= 54
        invariant Filled(t0, seed, i) == FillState(table[..], k, s)
        invariant 0 <= k < U32 && 0 <= s < U32
      {
        WriteIndexInRange(i);
        var j := (21 * (i + 1)) % 55 - 1;
        table[j] := k;
        k := (s - k) % U32;
        s := table[j];
        i := i + 1;
      }
      SeededWords(t0, seed);
    }

    /** The four mixing passes of initialized. */
    method MixTable()
      requires table.Length == 55 && Words(table[..])
      modifies table
      ensures Words(table[..])
      ensures table[..] == Mix(old(table[..]), 4)
    {
      ghost var filled := table[..];
      var loop := 0;
      while loop < 4
        invariant 0 <= loop <= 4
        invariant table[..] == Mix(filled, loop)
        invariant Words(table[..])
      {
        MixOnePass();
        loop := loop + 1;
      }
    }

    /** One pass of the inner mixing loop over all 55 slots. */
    method MixOnePass()
      requires table.Length == 55 && Words(table[..])
      modifies table
      ensures Words(table[..])
      ensures table[..] == MixPass(old(table[..]), 0)
    {
      ghost var start := table[..];
      var n := 0;
      while n < 55
        invariant 0 <= n <= 55 && table.Length == 55
        invariant MixPass(table[..], n) == MixPass(start, 0)
      {
        ghost var before := table[..];
        var v := (table[n] - table[(1 + n + 30) % 55]) % U32;
        assert MixPass(before, n) == MixPass(before[n := v], n + 1);
        table[n] := v;
        assert table[..] == before[n := v];
        n := n + 1;
      }
      MixPassWords(start, 0);
    }

    /** operator()(limit): advance both indices, subtract modulo 2^32 and reduce. */
    method Next(limit: int) returns (r: int)
      requires Valid() && 0 < limit
      modifies this, table
      ensures Valid() && table == old(table)
      ensures index1 == (old(index1) + 1) % 55 && index2 == (old(index2) + 1) % 55
      ensures table[..] == old(table[..])[index1 := (old(table[..])[index1] - old(table[..])[index2]) % U32]
      ensures r == table[index1] % limit
      ensures 0 <= r < limit
    {
      index1 := (index1 + 1) % 55;
      index2 := (index2 + 1) % 55;
      table[index1] := (table[index1] - table[index2]) % U32;
      r := table[index1] % limit;
    }
  }

  /** Every slot of the seeded table holds a 32-bit value. */
  lemma SeededWords(t0: seq<int>, seed: int)
    requires |t0| == 55 && 0 <= seed < U32
    ensures Words(Filled(t0, seed, 54).t)
  {
    FilledWords(t0, seed, 54);
    var t := Filled(t0, seed, 54).t;
    forall j | 0 <= j < 54 ensures 0 <= t[j] < U32 {
      WriteIndexInverse(j);
      assert t[j] == t[WriteIndex(WriteIndex(j))];
    }
  }

  lemma {:induction false} FilledWords(t0: seq<int>, seed: int, n: nat)
    requires |t0| == 55 && n <= 54 && 0 <= seed < U32
    ensures 0 <= Filled(t0, seed, n).k < U32 && 0 <= Filled(t0, seed, n).s < U32
    ensures forall i :: 0 <= i < n ==> (0 <= WriteIndex(i) < 54 &&
      0 <= Filled(t0, seed, n).t[WriteIndex(i)] < U32)
  {
    if n > 0 {
      FilledWords(t0, seed, n - 1);
      forall i | 0 <= i < n ensures 0 <= WriteIndex(i) < 54 {
        WriteIndexInRange(i);
      }
    }
  }
}
