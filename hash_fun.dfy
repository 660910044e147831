// Container/Associative/hash_fun.hpp: the string hash and the integral hash<> specialisations.
// size_t and unsigned long are 64 bits wide and plain char is signed, as on the
// usual LP64 targets.
module HashFun {

  /** Number of values of a 64-bit size_t / unsigned long. */
  const ULONG: int := 0x1_0000_0000_0000_0000

  type SChar = c: int | -128 <= c < 128
  type UChar = c: int | 0 <= c < 256
  type Short = x: int | -0x8000 <= x < 0x8000
  type UShort = x: int | 0 <= x < 0x1_0000
  type Int = x: int | -0x8000_0000 <= x < 0x8000_0000
  type UInt = x: int | 0 <= x < 0x1_0000_0000
  type Long = x: int | -0x8000_0000_0000_0000 <= x < 0x8000_0000_0000_0000
  type ULong = x: int | 0 <= x < 0x1_0000_0000_0000_0000

  /** The value of h in __hash_string after the loop has consumed the characters of s. */
  function StrHash(s: seq<SChar>): ULong
  {
    if s == [] then 0 else (5 * StrHash(s[..|s| - 1]) + s[|s| - 1]) % ULONG
  }

  function Pow5(n: nat): nat { if n == 0 then 1 else 5 * Pow5(n - 1) }

  /** The unbounded polynomial sum of s[i] * 5^(|s| - 1 - i). */
  function Poly(s: seq<SChar>): int
  {
    if s == [] then 0 else s[0] * Pow5(|s| - 1) + Poly(s[1..])
  }

  lemma {:induction false} PolySnoc(s: seq<SChar>, c: SChar)
    ensures Poly(s + [c]) == 5 * Poly(s) + c
  {
    if s == [] {
      assert s + [c] == [c];
    } else {
      assert (s + [c])[1..] == s[1..] + [c];
      PolySnoc(s[1..], c);
      assert Pow5(|s|) == 5 * Pow5(|s| - 1);
    }
  }

  lemma ModAddMultiple(x: int, k: int)
    ensures (x + k * ULONG) % ULONG == x % ULONG
  {
  }

  lemma ModLinear(a: int, c: int)
    ensures (5 * (a % ULONG) + c) % ULONG == (5 * a + c) % ULONG
  {
    var q := a / ULONG;
    assert a == q * ULONG + a % ULONG;
    assert 5 * a + c == 5 * (a % ULONG) + c + (5 * q) * ULONG;
    ModAddMultiple(5 * (a % ULONG) + c, 5 * q);
  }

  /** The wrap-around at every step of the loop gives the same value as evaluating
      the polynomial exactly and reducing once modulo 2^64. */
  lemma {:induction false} StrHashIsPolynomial(s: seq<SChar>)
    ensures StrHash(s) == Poly(s) % ULONG
  {
    if s != [] {
      var init, c := s[..|s| - 1], s[|s| - 1];
      assert s == init + [c];
      StrHashIsPolynomial(init);
      PolySnoc(init, c);
      ModLinear(Poly(init), c);
    }
  }

  /** Appending one character updates the hash by h = 5h + c modulo 2^64, and the empty string hashes to 0. */
  lemma StrHashStep(s: seq<SChar>, c: SChar)
    ensures StrHash([]) == 0
    ensures StrHash(s + [c]) == (5 * StrHash(s) + c) % ULONG
  {
    assert (s + [c])[..|s|] == s;
  }

  /** The index of the terminating NUL character. */
  function NulIndex(s: seq<SChar>): (n: nat)
    requires 0 in s
    ensures n < |s| && s[n] == 0 && 0 !in s[..n]
  {
    if s[0] == 0 then 0 else
      assert 0 in s[1..];
      var n := 1 + NulIndex(s[1..]);
      assert s[..n] == [s[0]] + s[1..][..n - 1];
      n
  }

  /** __hash_string(s): hash the characters up to the terminating NUL. */
  method HashString(s: seq<SChar>) returns (h: ULong)
    requires 0 in s
    ensures h == StrHash(s[..NulIndex(s)])
    ensures h == Poly(s[..NulIndex(s)]) % ULONG
  {
    var n := NulIndex(s);
    h := 0;
    var i := 0;
    while s[i] != 0
      invariant 0 <= i <= n
      invariant h == StrHash(s[..i])
      decreases n - i
    {
      assert s[i] in s[..n] by { assert s[..n][i] == s[i]; }
      StrHashStep(s[..i], s[i]);
      assert s[..i + 1] == s[..i] + [s[i]];
      h := (5 * h + s[i]) % ULONG;
      i := i + 1;
    }
    StrHashIsPolynomial(s[..n]);
  }

  /** hash<char*> */
  method HashCharPtr(s: seq<SChar>) returns (h: ULong)
    requires 0 in s
    ensures h == StrHash(s[..NulIndex(s)])
  {
    h := HashString(s);
  }

  /** hash<const char*> */
  method HashConstCharPtr(s: seq<SChar>) returns (h: ULong)
    requires 0 in s
    ensures h == StrHash(s[..NulIndex(s)])
  {
    h := HashString(s);
  }

  /** Conversion of an integer value to size_t: the congruent value in [0, 2^64). */
  function ToSizeT(x: int): (r: ULong)
    requires -ULONG <= x < ULONG
    ensures (r - x) % ULONG == 0
    ensures x >= 0 ==> r == x
  {
    if x < 0 then x + ULONG else x
  }

  function HashChar(x: SChar): ULong { ToSizeT(x) }
  function HashUChar(x: UChar): ULong { ToSizeT(x) }
  /** hash<signed char> declares its parameter as unsigned char, so the argument is
      first converted to [0, 256). */
  function HashSignedChar(x: SChar): (r: ULong)
    ensures r < 256 && (r - x) % 256 == 0
  {
    ToSizeT(if x < 0 then x + 256 else x)
  }
  function HashShort(x: Short): ULong { ToSizeT(x) }
  function HashUShort(x: UShort): ULong { ToSizeT(x) }
  function HashIntValue(x: Int): ULong { ToSizeT(x) }
  function HashUInt(x: UInt): ULong { ToSizeT(x) }
  function HashLong(x: Long): ULong { ToSizeT(x) }
  function HashULong(x: ULong): ULong { ToSizeT(x) }

  /** Every integral hash is injective on its type: equal hashes mean equal arguments,
      and non-negative arguments hash to themselves. */
  lemma IntegralHashesInjective(x: Long, y: Long, u: ULong)
    ensures HashLong(x) == HashLong(y) ==> x == y
    ensures HashULong(u) == u
    ensures x >= 0 ==> HashLong(x) == x
  {
  }

  /** hash<signed char> and hash<char> disagree on negative characters. */
  lemma SignedCharHashOfMinusOne()
    ensures HashSignedChar(-1) == 255
    ensures HashChar(-1) == ULONG - 1
  {
  }
}
