// Util/pair.hpp: the pair value type and its comparison operators.
module Pair {

  datatype Pair<A, B> = Pair(first: A, second: B)

  /** A strict total order on a type given as a "less than" function. */
  ghost predicate StrictTotal<T(!new)>(lt: (T, T) -> bool)
  {
    (forall a :: !lt(a, a)) &&
    (forall a, b, c :: lt(a, b) && lt(b, c) ==> lt(a, c)) &&
    (forall a, b :: a != b ==> lt(a, b) || lt(b, a))
  }

  /** make_pair(a, b). The two-argument constructor initialises `first` twice
      and never `second` (Util/pair.hpp:15); the model builds the evident pair. */
  function MakePair<A, B>(a: A, b: B): (p: Pair<A, B>)
    ensures p.first == a && p.second == b
  {
    Pair(a, b)
  }

  /** operator==: both components equal. */
  predicate Equal<A(==), B(==)>(x: Pair<A, B>, y: Pair<A, B>)
  {
    x.first == y.first && x.second == y.second
  }

  /** operator<: lexicographic, comparing `second` only when neither `first` is less. */
  predicate Less<A, B>(lt1: (A, A) -> bool, lt2: (B, B) -> bool, x: Pair<A, B>, y: Pair<A, B>)
  {
    lt1(x.first, y.first) || (!lt1(y.first, x.first) && lt2(x.second, y.second))
  }

  predicate NotEqual<A(==), B(==)>(x: Pair<A, B>, y: Pair<A, B>) { !Equal(x, y) }

  predicate Greater<A, B>(lt1: (A, A) -> bool, lt2: (B, B) -> bool, x: Pair<A, B>, y: Pair<A, B>)
  {
    Less(lt1, lt2, y, x)
  }

  predicate LessEq<A, B>(lt1: (A, A) -> bool, lt2: (B, B) -> bool, x: Pair<A, B>, y: Pair<A, B>)
  {
    !Less(lt1, lt2, y, x)
  }

  predicate GreaterEq<A, B>(lt1: (A, A) -> bool, lt2: (B, B) -> bool, x: Pair<A, B>, y: Pair<A, B>)
  {
    !Less(lt1, lt2, x, y)
  }

  lemma EqualIsStructural<A, B>(x: Pair<A, B>, y: Pair<A, B>)
    ensures Equal(x, y) <==> x == y
  {
  }

  /** With strict total component orders, the pair order is a strict total order too. */
  lemma LessIsStrictTotal<A(!new), B(!new)>(lt1: (A, A) -> bool, lt2: (B, B) -> bool)
    requires StrictTotal(lt1) && StrictTotal(lt2)
    ensures StrictTotal((x: Pair<A, B>, y: Pair<A, B>) => Less(lt1, lt2, x, y))
  {
    var lt := (x: Pair<A, B>, y: Pair<A, B>) => Less(lt1, lt2, x, y);
    forall x: Pair<A, B>, y: Pair<A, B>, z: Pair<A, B> | lt(x, y) && lt(y, z)
      ensures lt(x, z)
    {
      if lt1(x.first, y.first) {
        if lt1(y.first, z.first) {
        } else {
          assert y.first == z.first;
        }
      } else {
        assert x.first == y.first;
      }
    }
    forall x: Pair<A, B>, y: Pair<A, B> | x != y
      ensures lt(x, y) || lt(y, x)
    {
      if x.first == y.first {
        assert x.second != y.second;
      }
    }
  }

  /** With strict total component orders, exactly one of <, == and > holds,
      and <= is < or ==. */
  lemma Trichotomy<A(!new), B(!new)>(lt1: (A, A) -> bool, lt2: (B, B) -> bool, x: Pair<A, B>, y: Pair<A, B>)
    requires StrictTotal(lt1) && StrictTotal(lt2)
    ensures Less(lt1, lt2, x, y) || x == y || Greater(lt1, lt2, x, y)
    ensures !(Less(lt1, lt2, x, y) && Greater(lt1, lt2, x, y))
    ensures !(Less(lt1, lt2, x, y) && x == y)
    ensures LessEq(lt1, lt2, x, y) <==> Less(lt1, lt2, x, y) || x == y
    ensures GreaterEq(lt1, lt2, x, y) <==> Greater(lt1, lt2, x, y) || x == y
  {
    if x.first == y.first && x.second != y.second {
      assert lt2(x.second, y.second) || lt2(y.second, x.second);
    }
  }

  /** pair::swap and the free swap: exchange both components of two pairs. */
  method Swap<A, B>(x: Pair<A, B>, y: Pair<A, B>) returns (x': Pair<A, B>, y': Pair<A, B>)
    ensures x'.first == y.first && x'.second == y.second
    ensures y'.first == x.first && y'.second == x.second
  {
    x' := Pair(y.first, y.second);
    y' := Pair(x.first, x.second);
  }

  method SwapTwiceRestores<A, B>(x: Pair<A, B>, y: Pair<A, B>) returns (x'': Pair<A, B>, y'': Pair<A, B>)
    ensures x'' == x && y'' == y
  {
    var x', y' := Swap(x, y);
    x'', y'' := Swap(x', y');
  }
}
