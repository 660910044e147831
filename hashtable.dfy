// Container/Associative/hashtable.hpp: a vector of buckets, each a singly linked chain of
// nodes; an element with key k lives in bucket hash(k) % bucket_count. A chain is modelled
// by the sequence of values its nodes hold, the vector by a sequence of chains, and an
// iterator by the position (bucket, index in the chain) of its node, or End for the null
// node. The hash function, the key extractor and the key equality of the source are
// parameters: the hash is any function from keys to naturals, the key extractor any
// function from values to keys, and key equality is `==` on keys.
//
// The iterator visits the chains in bucket order, so the table's elements in iteration
// order are Flat(buckets), and an iterator's place in that order is Pos.
module Hashtable {
  import Algo

  // ---------------------------------------------------------------------------
  // Bucket counts

  /** __prime_list: the 28 bucket counts the table uses. */
  const Primes: seq<int> := [
    53, 97, 193, 389, 769,
    1543, 3079, 6151, 12289, 24593,
    49157, 98317, 196613, 393241, 786433,
    1572869, 3145739, 6291469, 12582917, 25165843,
    50331653, 100663319, 201326611, 402653189, 805306457,
    1610612741, 3221225473, 4294967291]

  /** Each listed prime is larger than the one before it. */
  lemma PrimesAscending()
    ensures |Primes| == 28 && Algo.Sorted(Primes)
    ensures Ascending(Primes)
  {
    forall i | 0 <= i < 27 ensures Primes[i] < Primes[i + 1] {
    }
    forall i, j | 0 <= i < j < 28 ensures Primes[i] < Primes[j] {
      Climb(i, j);
    }
  }

  /** Each entry of P is smaller than every later one. */
  ghost predicate Ascending(P: seq<int>)
  {
    forall a, b :: 0 <= a < b < |P| ==> P[a] < P[b]
  }

  lemma {:induction false} Climb(i: int, j: int)
    requires 0 <= i < j < 28 && forall k :: 0 <= k < 27 ==> Primes[k] < Primes[k + 1]
    ensures Primes[i] < Primes[j]
    decreases j - i
  {
    if i + 1 < j {
      Climb(i + 1, j);
    }
  }

  /** The index of the first entry of P from index i on that is at least n, or of the last
      entry: a linear search where __next_prime does a binary one. */
  function FirstFrom(P: seq<int>, n: int, i: nat): (r: nat)
    requires i < |P|
    ensures i <= r < |P|
    decreases |P| - i
  {
    if i == |P| - 1 || n <= P[i] then i else FirstFrom(P, n, i + 1)
  }

  /** next_size(n): the bucket count the table uses for n elements. */
  function NextSize(n: int): (r: int)
  {
    Primes[FirstFrom(Primes, n, 0)]
  }

  /** In an ascending P, FirstFrom finds the smallest entry not below n, or the last entry
      when n exceeds them all. */
  lemma {:induction false} FirstLeast(P: seq<int>, n: int, i: nat)
    requires i < |P| && Ascending(P)
    requires forall k :: 0 <= k < i ==> P[k] < n
    ensures n <= P[|P| - 1] ==> n <= P[FirstFrom(P, n, i)]
    ensures forall k :: 0 <= k < |P| && n <= P[k] ==> P[FirstFrom(P, n, i)] <= P[k]
    ensures P[|P| - 1] < n ==> FirstFrom(P, n, i) == |P| - 1
    decreases |P| - i
  {
    if i < |P| - 1 && P[i] < n {
      FirstLeast(P, n, i + 1);
    }
  }

  /** NextSize(n) is the smallest listed prime not below n ... */
  lemma {:induction false} NextSizeLeast(n: int)
    ensures n <= Primes[|Primes| - 1] ==> n <= NextSize(n)
    ensures forall k :: 0 <= k < |Primes| && n <= Primes[k] ==> NextSize(n) <= Primes[k]
  {
    PrimesAscending();
    FirstLeast(Primes, n, 0);
  }

  /** ... or the largest listed prime 4294967291 when n exceeds them all, and never below
      53. */
  lemma NextSizeRange(n: int)
    ensures 53 <= NextSize(n) <= 4294967291
    ensures Primes[27] < n ==> NextSize(n) == 4294967291
  {
    PrimesEnds();
    PrimesAscending();
    FirstBetween(Primes, n, 0);
  }

  lemma PrimesEnds()
    ensures |Primes| == 28 && Primes[0] == 53 && Primes[27] == 4294967291
  {
  }

  /** FirstFrom lands between the first and the last entry of an ascending P. */
  lemma {:induction false} FirstBetween(P: seq<int>, n: int, i: nat)
    requires i < |P| && Ascending(P)
    requires forall k :: 0 <= k < i ==> P[k] < n
    ensures P[0] <= P[FirstFrom(P, n, i)] <= P[|P| - 1]
    ensures P[|P| - 1] < n ==> FirstFrom(P, n, i) == |P| - 1
    decreases |P| - i
  {
    if i < |P| - 1 && P[i] < n {
      FirstBetween(P, n, i + 1);
    }
  }

  /** __next_prime(n): lower_bound over the list, or the last entry past its end. */
  method NextPrime(n: int) returns (r: int)
    ensures r == NextSize(n)
  {
    PrimesAscending();
    var pos := Algo.LowerBound(Primes, 0, 28, n);
    assert Primes[0..28] == Primes;
    r := if pos == 28 then Primes[27] else Primes[pos];
    LowerIsFirst(Primes, n, pos, 0);
  }

  /** lower_bound's answer is where the linear search stops. */
  lemma {:induction false} LowerIsFirst(P: seq<int>, n: int, pos: int, i: nat)
    requires 0 <= pos <= |P| && i < |P| && i <= pos
    requires forall k :: 0 <= k < pos ==> P[k] < n
    requires forall k :: pos <= k < |P| ==> n <= P[k]
    ensures FirstFrom(P, n, i) == if pos == |P| then |P| - 1 else pos
    decreases |P| - i
  {
    if i < |P| - 1 && i < pos {
      LowerIsFirst(P, n, pos, i + 1);
    }
  }

  // ---------------------------------------------------------------------------
  // Chains and the table's iteration order

  /** The chains of buckets [m, n), one after the other, as the iterator visits them. */
  function Chains<V>(bs: seq<seq<V>>, m: int, n: int): (r: seq<V>)
    requires 0 <= m <= n <= |bs|
    decreases n
  {
    if n == m then [] else Chains(bs, m, n - 1) + bs[n - 1]
  }

  /** The elements of the table in iteration order. */
  function Flat<V>(bs: seq<seq<V>>): (r: seq<V>)
  {
    Chains(bs, 0, |bs|)
  }

  /** Chains splits at any bucket in between. */
  lemma {:induction false} ChainsSplit<V>(bs: seq<seq<V>>, l: int, m: int, n: int)
    requires 0 <= l <= m <= n <= |bs|
    ensures Chains(bs, l, n) == Chains(bs, l, m) + Chains(bs, m, n)
    decreases n
  {
    if m < n {
      ChainsSplit(bs, l, m, n - 1);
    }
  }

  /** Bucket b's chain sits in the table's order at offset |Chains(bs, 0, b)|. */
  lemma ChainsAt<V>(bs: seq<seq<V>>, b: int, i: int)
    requires 0 <= b < |bs| && 0 <= i < |bs[b]|
    ensures |Chains(bs, 0, b)| + i < |Flat(bs)| && Flat(bs)[|Chains(bs, 0, b)| + i] == bs[b][i]
  {
    ChainsSplit(bs, 0, b + 1, |bs|);
  }

  /** Empty buckets add nothing. */
  lemma {:induction false} ChainsSkip<V>(bs: seq<seq<V>>, m: int, n: int)
    requires 0 <= m <= n <= |bs| && forall b :: m <= b < n ==> bs[b] == []
    ensures Chains(bs, m, n) == []
    decreases n
  {
    if m < n {
      ChainsSkip(bs, m, n - 1);
    }
  }

  /** Chains looks only at the buckets it spans. */
  lemma {:induction false} ChainsSame<V>(bs: seq<seq<V>>, cs: seq<seq<V>>, m: int, n: int)
    requires 0 <= m <= n <= |bs| && n <= |cs| && forall b :: m <= b < n ==> bs[b] == cs[b]
    ensures Chains(bs, m, n) == Chains(cs, m, n)
    decreases n
  {
    if m < n {
      ChainsSame(bs, cs, m, n - 1);
    }
  }

  /** The table's order is the buckets before b, bucket b, and the buckets after it. */
  lemma FlatAround<V>(bs: seq<seq<V>>, b: int)
    requires 0 <= b < |bs|
    ensures Flat(bs) == Chains(bs, 0, b) + bs[b] + Chains(bs, b + 1, |bs|)
  {
    ChainsSplit(bs, 0, b, |bs|);
    ChainsSplit(bs, b, b + 1, |bs|);
    assert Chains(bs, b, b + 1) == bs[b];
  }

  /** Replacing bucket b's chain by c replaces its elements in the table's order. */
  lemma FlatUpdate<V>(bs: seq<seq<V>>, b: int, c: seq<V>)
    requires 0 <= b < |bs|
    ensures Flat(bs) == Chains(bs, 0, b) + bs[b] + Chains(bs, b + 1, |bs|)
    ensures Flat(bs[b := c]) == Chains(bs, 0, b) + c + Chains(bs, b + 1, |bs|)
  {
    var bs2 := bs[b := c];
    FlatAround(bs, b);
    FlatAround(bs2, b);
    ChainsSame(bs, bs2, 0, b);
    ChainsSame(bs, bs2, b + 1, |bs|);
  }

  /** ... and its values in the table's multiset of values. */
  lemma FlatUpdateValues<V>(bs: seq<seq<V>>, b: int, c: seq<V>)
    requires 0 <= b < |bs|
    ensures multiset(Flat(bs[b := c])) + multiset(bs[b]) == multiset(Flat(bs)) + multiset(c)
  {
    FlatUpdate(bs, b, c);
    var A, B := Chains(bs, 0, b), Chains(bs, b + 1, |bs|);
    assert multiset(Flat(bs)) == multiset(A) + multiset(bs[b]) + multiset(B);
    assert multiset(Flat(bs[b := c])) == multiset(A) + multiset(c) + multiset(B);
  }

  /** Replacing the run [i, j) of bucket b's chain by ins replaces the same run of the
      table's order, which starts |Chains(bs, 0, b)| further on; the buckets before b keep
      their places. */
  lemma FlatSplice<V>(bs: seq<seq<V>>, b: int, i: int, j: int, ins: seq<V>)
    requires 0 <= b < |bs| && 0 <= i <= j <= |bs[b]|
    ensures |Chains(bs, 0, b)| + j <= |Flat(bs)|
    ensures Flat(bs[b := bs[b][..i] + ins + bs[b][j..]])
         == Flat(bs)[..|Chains(bs, 0, b)| + i] + ins + Flat(bs)[|Chains(bs, 0, b)| + j..]
    ensures Chains(bs[b := bs[b][..i] + ins + bs[b][j..]], 0, b) == Chains(bs, 0, b)
  {
    var c2 := bs[b][..i] + ins + bs[b][j..];
    FlatUpdate(bs, b, c2);
    SpliceCut(Chains(bs, 0, b), bs[b], Chains(bs, b + 1, |bs|), i, j, ins);
    ChainsSame(bs, bs[b := c2], 0, b);
  }

  /** Replacing the run [i, j) of c by ins inside A + c + B replaces the run that starts |A|
      further on. */
  lemma SpliceCut<V>(A: seq<V>, c: seq<V>, B: seq<V>, i: int, j: int, ins: seq<V>)
    requires 0 <= i <= j <= |c|
    ensures |A| + j <= |A + c + B|
    ensures A + (c[..i] + ins + c[j..]) + B
         == (A + c + B)[..|A| + i] + ins + (A + c + B)[|A| + j..]
  {
    var F := A + c + B;
    assert F[..|A| + i] == A + c[..i];
    assert F[|A| + j..] == c[j..] + B;
  }

  /** Chains are as long as the buckets they span together. */
  lemma {:induction false} ChainsLength<V>(bs: seq<seq<V>>, n: int)
    requires 0 <= n <= |bs|
    ensures |Chains(bs, 0, n)| == BucketSizes(bs, n)
    decreases n
  {
    if 0 < n {
      ChainsLength(bs, n - 1);
    }
  }

  /** The sum of the chain lengths of buckets [0, n). */
  function BucketSizes<V>(bs: seq<seq<V>>, n: int): int
    requires 0 <= n <= |bs|
  {
    if n == 0 then 0 else BucketSizes(bs, n - 1) + |bs[n - 1]|
  }

  // ---------------------------------------------------------------------------
  // Keys

  /** The elements of s whose key is k (want) or is not k (!want), in order. */
  function Select<V, K(==)>(s: seq<V>, key: V -> K, k: K, want: bool): (r: seq<V>)
    ensures |r| <= |s|
    decreases |s|
  {
    if s == [] then []
    else
      var last := s[|s| - 1];
      Select(s[..|s| - 1], key, k, want) + (if (key(last) == k) == want then [last] else [])
  }

  /** The elements with key k. */
  function Hits<V, K(==)>(s: seq<V>, key: V -> K, k: K): seq<V>
  {
    Select(s, key, k, true)
  }

  /** The elements whose key is not k. */
  function Kept<V, K(==)>(s: seq<V>, key: V -> K, k: K): seq<V>
  {
    Select(s, key, k, false)
  }

  /** Selecting from a concatenation selects from both halves. */
  lemma {:induction false} SelectAppend<V, K>(a: seq<V>, b: seq<V>, key: V -> K, k: K, want: bool)
    ensures Select(a + b, key, k, want) == Select(a, key, k, want) + Select(b, key, k, want)
    decreases |b|
  {
    if b == [] {
      assert a + b == a;
    } else {
      var b0, last := b[..|b| - 1], b[|b| - 1];
      var T := if (key(last) == k) == want then [last] else [];
      SelectAppend(a, b0, key, k, want);
      assert (a + b)[..|a + b| - 1] == a + b0 && (a + b)[|a + b| - 1] == last;
      var SA, S0 := Select(a, key, k, want), Select(b0, key, k, want);
      calc {
        Select(a + b, key, k, want);
        Select(a + b0, key, k, want) + T;
        (SA + S0) + T;
        SA + (S0 + T);
        SA + Select(b, key, k, want);
      }
    }
  }

  /** Every selected element comes from s and has the wanted key. */
  lemma {:induction false} SelectFrom<V, K>(s: seq<V>, key: V -> K, k: K, want: bool)
    ensures forall x :: x in Select(s, key, k, want) ==> x in s && (key(x) == k) == want
    decreases |s|
  {
    if s != [] {
      var t, last := s[..|s| - 1], s[|s| - 1];
      SelectFrom(t, key, k, want);
      assert s == t + [last];
    }
  }

  /** The hits and the rest partition s. */
  lemma {:induction false} SelectSplit<V, K>(s: seq<V>, key: V -> K, k: K)
    ensures multiset(Hits(s, key, k)) + multiset(Kept(s, key, k)) == multiset(s)
    ensures |Hits(s, key, k)| + |Kept(s, key, k)| == |s|
    decreases |s|
  {
    if s != [] {
      var t, last := s[..|s| - 1], s[|s| - 1];
      SelectSplit(t, key, k);
      assert s == t + [last];
      SplitStep(Hits(t, key, k), Kept(t, key, k), t, last, Hits(s, key, k), Kept(s, key, k));
    }
  }

  /** Adding x to one of two parts of t makes them parts of t + [x]. */
  lemma SplitStep<V>(h: seq<V>, p: seq<V>, t: seq<V>, x: V, H: seq<V>, P: seq<V>)
    requires multiset(h) + multiset(p) == multiset(t) && |h| + |p| == |t|
    requires (H == h + [x] && P == p) || (H == h && P == p + [x])
    ensures multiset(H) + multiset(P) == multiset(t + [x]) && |H| + |P| == |t| + 1
  {
    assert multiset(t + [x]) == multiset(t) + multiset{x};
    if H == h + [x] && P == p {
      assert multiset(h + [x]) == multiset(h) + multiset{x};
    } else {
      assert multiset(p + [x]) == multiset(p) + multiset{x};
    }
  }

  /** A sequence without key k has no hits and keeps everything. */
  lemma {:induction false} SelectNone<V, K>(s: seq<V>, key: V -> K, k: K)
    requires forall x :: x in s ==> key(x) != k
    ensures Hits(s, key, k) == [] && Kept(s, key, k) == s
    decreases |s|
  {
    if s != [] {
      assert s[|s| - 1] in s;
      forall x | x in s[..|s| - 1] ensures key(x) != k {
        assert x in s;
      }
      SelectNone(s[..|s| - 1], key, k);
      assert s == s[..|s| - 1] + [s[|s| - 1]];
    }
  }

  /** No element of s has key k. */
  ghost predicate Absent<V, K>(s: seq<V>, key: V -> K, k: K)
  {
    forall x :: x in s ==> key(x) != k
  }

  /** The index of the first element of s with key k, or |s| when there is none. */
  function FirstKey<V, K(==)>(s: seq<V>, key: V -> K, k: K): (r: nat)
    ensures r <= |s| && (r < |s| ==> key(s[r]) == k)
  {
    if s == [] || key(s[0]) == k then 0 else 1 + FirstKey(s[1..], key, k)
  }

  /** No element before FirstKey has key k. */
  lemma {:induction false} FirstKeyBefore<V, K>(s: seq<V>, key: V -> K, k: K)
    ensures forall j :: 0 <= j < FirstKey(s, key, k) ==> key(s[j]) != k
  {
    if s != [] && key(s[0]) != k {
      FirstKeyBefore(s[1..], key, k);
      forall j | 0 < j < FirstKey(s, key, k) ensures key(s[j]) != k {
        assert s[j] == s[1..][j - 1];
      }
    }
  }

  /** Any index with the properties of FirstKey is FirstKey. */
  lemma FirstKeyIs<V, K>(s: seq<V>, key: V -> K, k: K, r: nat)
    requires r <= |s| && (r < |s| ==> key(s[r]) == k)
    requires forall j :: 0 <= j < r ==> key(s[j]) != k
    ensures FirstKey(s, key, k) == r
  {
    FirstKeyBefore(s, key, k);
  }

  /** FirstKey runs off the end exactly when no element has key k. */
  lemma FirstKeyAbsent<V, K>(s: seq<V>, key: V -> K, k: K)
    ensures FirstKey(s, key, k) == |s| <==> Absent(s, key, k)
  {
    var r := FirstKey(s, key, k);
    FirstKeyBefore(s, key, k);
    if r == |s| {
      forall x | x in s ensures key(x) != k {
        var j :| 0 <= j < |s| && s[j] == x;
      }
    } else {
      assert s[r] in s;
    }
  }

  /** Whether a key is present depends on the elements only, not on their order. */
  lemma AbsentValues<V, K>(s: seq<V>, t: seq<V>, key: V -> K, k: K)
    requires multiset(s) == multiset(t)
    ensures Absent(s, key, k) <==> Absent(t, key, k)
  {
    forall x ensures x in s <==> x in t {
      assert x in s <==> x in multiset(s);
      assert x in t <==> x in multiset(t);
    }
  }

  // ---------------------------------------------------------------------------
  // Placement

  /** Every element of chain c hashes to bucket b of nb. */
  ghost predicate InBucket<V, K>(c: seq<V>, hash: K -> nat, key: V -> K, nb: nat, b: nat)
  {
    nb > 0 && forall x :: x in c ==> hash(key(x)) % nb == b
  }

  /** There is at least one bucket, and every element lives in the bucket its key hashes to. */
  ghost predicate Placed<V, K>(bs: seq<seq<V>>, hash: K -> nat, key: V -> K)
  {
    |bs| > 0 && forall b :: 0 <= b < |bs| ==> InBucket(bs[b], hash, key, |bs|, b)
  }

  /** Splicing elements that belong in bucket b into its chain keeps every element placed. */
  lemma PlacedSplice<V, K>(bs: seq<seq<V>>, hash: K -> nat, key: V -> K, b: int, i: int, j: int,
                           ins: seq<V>)
    requires Placed(bs, hash, key) && 0 <= b < |bs| && 0 <= i <= j <= |bs[b]|
    requires InBucket(ins, hash, key, |bs|, b)
    ensures Placed(bs[b := bs[b][..i] + ins + bs[b][j..]], hash, key)
  {
    var c := bs[b];
    assert InBucket(c, hash, key, |bs|, b);
    forall x | x in c[..i] + ins + c[j..] ensures hash(key(x)) % |bs| == b {
      if x in c[..i] {
        assert x in c;
      } else if x in c[j..] {
        assert x in c;
      }
    }
    assert InBucket(c[..i] + ins + c[j..], hash, key, |bs|, b);
  }

  /** Buckets other than k's hold no element with key k. */
  lemma {:induction false} ChainsAvoid<V, K>(bs: seq<seq<V>>, hash: K -> nat, key: V -> K, k: K,
                                             m: int, n: int)
    requires Placed(bs, hash, key) && 0 <= m <= n <= |bs|
    requires !(m <= hash(k) % |bs| < n)
    ensures forall x :: x in Chains(bs, m, n) ==> key(x) != k
    decreases n
  {
    if m < n {
      ChainsAvoid(bs, hash, key, k, m, n - 1);
      assert InBucket(bs[n - 1], hash, key, |bs|, n - 1);
    }
  }

  /** The table's order around k's bucket n: nothing before or after it has key k. */
  lemma AroundKey<V, K>(bs: seq<seq<V>>, hash: K -> nat, key: V -> K, k: K)
    requires Placed(bs, hash, key)
    ensures var n := hash(k) % |bs|;
      && Flat(bs) == Chains(bs, 0, n) + bs[n] + Chains(bs, n + 1, |bs|)
      && (forall x :: x in Chains(bs, 0, n) ==> key(x) != k)
      && (forall x :: x in Chains(bs, n + 1, |bs|) ==> key(x) != k)
  {
    var n := hash(k) % |bs|;
    FlatAround(bs, n);
    ChainsAvoid(bs, hash, key, k, 0, n);
    ChainsAvoid(bs, hash, key, k, n + 1, |bs|);
  }

  /** Where find's scan of k's bucket stops decides the first element with key k in the
      table's order. */
  lemma FindSpot<V, K>(bs: seq<seq<V>>, hash: K -> nat, key: V -> K, k: K, i: int)
    requires Placed(bs, hash, key)
    requires var c := bs[hash(k) % |bs|];
      && 0 <= i <= |c| && (i < |c| ==> key(c[i]) == k)
      && forall j :: 0 <= j < i ==> key(c[j]) != k
    ensures var n := hash(k) % |bs|;
      FirstKey(Flat(bs), key, k) == if i < |bs[n]| then |Chains(bs, 0, n)| + i else |Flat(bs)|
    ensures var n := hash(k) % |bs|; i < |bs[n]| ==> |Chains(bs, 0, n)| + i < |Flat(bs)|
  {
    var n := hash(k) % |bs|;
    AroundKey(bs, hash, key, k);
    var A, c, B := Chains(bs, 0, n), bs[n], Chains(bs, n + 1, |bs|);
    var F := Flat(bs);
    var r := if i < |c| then |A| + i else |F|;
    forall j | 0 <= j < r ensures key(F[j]) != k {
      if j < |A| {
        assert F[j] == A[j] && A[j] in A;
      } else if j < |A| + |c| {
        assert F[j] == c[j - |A|];
      } else {
        assert F[j] == B[j - |A| - |c|] && B[j - |A| - |c|] in B;
      }
    }
    if i < |c| {
      assert F[r] == c[i];
    }
    FirstKeyIs(F, key, k, r);
  }

  /** count(k) needs only k's bucket. */
  lemma {:induction false} CountSpot<V, K>(bs: seq<seq<V>>, hash: K -> nat, key: V -> K, k: K)
    requires Placed(bs, hash, key)
    ensures Hits(Flat(bs), key, k) == Hits(bs[hash(k) % |bs|], key, k)
  {
    var n := hash(k) % |bs|;
    AroundKey(bs, hash, key, k);
    var A, c, B := Chains(bs, 0, n), bs[n], Chains(bs, n + 1, |bs|);
    SelectAppend(A + c, B, key, k, true);
    SelectAppend(A, c, key, k, true);
    SelectNone(A, key, k);
    SelectNone(B, key, k);
  }

  /** The elements of k's run in its bucket's chain, [i, j), sit at [|A| + i, |A| + j) of
      the table's order (A being the buckets before), and the element just after the run
      has another key: the rest of the chain's, or a later bucket's. */
  lemma RunSpot<V, K>(bs: seq<seq<V>>, hash: K -> nat, key: V -> K, k: K, i: int, j: int)
    requires Placed(bs, hash, key)
    requires var c := bs[hash(k) % |bs|];
      && 0 <= i <= j <= |c| && (j < |c| ==> key(c[j]) != k)
      && forall q :: i <= q < j ==> key(c[q]) == k
    ensures var n := hash(k) % |bs|; var a := |Chains(bs, 0, n)|;
      && a + j <= |Flat(bs)|
      && (forall p :: a + i <= p < a + j ==> key(Flat(bs)[p]) == k)
      && (a + j < |Flat(bs)| ==> key(Flat(bs)[a + j]) != k)
  {
    var n := hash(k) % |bs|;
    AroundKey(bs, hash, key, k);
    var A, c, B := Chains(bs, 0, n), bs[n], Chains(bs, n + 1, |bs|);
    var F := Flat(bs);
    forall p | |A| + i <= p < |A| + j ensures key(F[p]) == k {
      assert F[p] == c[p - |A|];
    }
    if |A| + j < |F| {
      if j < |c| {
        assert F[|A| + j] == c[j];
      } else {
        assert F[|A| + j] == B[0] && B[0] in B;
      }
    }
  }

  /** Replacing k's bucket by what erase(k) leaves of it removes exactly the elements with
      key k from the table's order ... */
  lemma KeptFlat<V, K>(bs: seq<seq<V>>, hash: K -> nat, key: V -> K, k: K)
    requires Placed(bs, hash, key)
    ensures var n := hash(k) % |bs|;
      Flat(bs[n := Kept(bs[n], key, k)]) == Kept(Flat(bs), key, k)
  {
    var n := hash(k) % |bs|;
    var c := bs[n];
    AroundKey(bs, hash, key, k);
    FlatUpdate(bs, n, Kept(c, key, k));
    var A, B := Chains(bs, 0, n), Chains(bs, n + 1, |bs|);
    SelectAppend(A + c, B, key, k, false);
    SelectAppend(A, c, key, k, false);
    SelectNone(A, key, k);
    SelectNone(B, key, k);
  }

  /** ... and keeps every element placed. */
  lemma KeptPlaced<V, K>(bs: seq<seq<V>>, hash: K -> nat, key: V -> K, k: K)
    requires Placed(bs, hash, key)
    ensures var n := hash(k) % |bs|; Placed(bs[n := Kept(bs[n], key, k)], hash, key)
  {
    var n := hash(k) % |bs|;
    var c := bs[n];
    var c2 := Kept(c, key, k);
    SelectFrom(c, key, k, false);
    assert InBucket(c, hash, key, |bs|, n);
    assert InBucket(c2, hash, key, |bs|, n);
    assert c[..0] + c2 + c[|c|..] == c2;
    PlacedSplice(bs, hash, key, n, 0, |c|, c2);
  }

  /** The loop of erase(k) over one chain c: keeps the head, unlinks every later node with
      key k, then drops the head if its key is k. What is left is Kept(c), and the count is
      that of the hits. */
  method EraseInChain<V, K(==)>(c: seq<V>, key: V -> K, k: K) returns (ch: seq<V>, erased: nat)
    ensures ch == Kept(c, key, k) && erased == |Hits(c, key, k)|
  {
    erased := 0;
    if c == [] {
      return [], 0;
    }
    ch := c;
    var j := 1;
    ghost var i := 1;
    assert c[1..1] == [];
    while j < |ch|
      invariant 1 <= i <= |c| && ch == [c[0]] + Kept(c[1..i], key, k) + c[i..]
      invariant j == 1 + |Kept(c[1..i], key, k)|
      invariant erased == |Hits(c[1..i], key, k)|
      decreases |ch| - j
    {
      UnlinkStep(c, key, k, i, ch, j);
      if key(ch[j]) == k {
        ch := ch[..j] + ch[j + 1..];
        erased := erased + 1;
      } else {
        j := j + 1;
      }
      i := i + 1;
    }
    HeadStep(c, key, k, i);
    if key(c[0]) == k {
      ch := ch[1..];
      erased := erased + 1;
    }
  }

  /** One turn of erase(k)'s loop, at the node of index i of the original chain c. */
  lemma {:induction false} UnlinkStep<V, K>(c: seq<V>, key: V -> K, k: K, i: int, ch: seq<V>, j: int)
    requires 1 <= i < |c| && ch == [c[0]] + Kept(c[1..i], key, k) + c[i..]
    requires j == 1 + |Kept(c[1..i], key, k)|
    ensures j < |ch| && ch[j] == c[i]
    ensures key(c[i]) == k ==>
      && ch[..j] + ch[j + 1..] == [c[0]] + Kept(c[1..i + 1], key, k) + c[i + 1..]
      && j == 1 + |Kept(c[1..i + 1], key, k)|
      && |Hits(c[1..i + 1], key, k)| == |Hits(c[1..i], key, k)| + 1
    ensures key(c[i]) != k ==>
      && ch == [c[0]] + Kept(c[1..i + 1], key, k) + c[i + 1..]
      && j + 1 == 1 + |Kept(c[1..i + 1], key, k)|
      && |Hits(c[1..i + 1], key, k)| == |Hits(c[1..i], key, k)|
  {
    assert c[1..i + 1] == c[1..i] + [c[i]];
    SelectAppend(c[1..i], [c[i]], key, k, true);
    SelectAppend(c[1..i], [c[i]], key, k, false);
    assert [c[i]][..0] == [];
    var P := Kept(c[1..i], key, k);
    assert ch[..j] == [c[0]] + P && ch[j..] == c[i..];
    assert c[i..] == [c[i]] + c[i + 1..];
    if key(c[i]) == k {
      assert ch[j + 1..] == c[i + 1..];
    } else {
      assert ch == [c[0]] + (P + [c[i]]) + c[i + 1..];
    }
  }

  /** The end of erase(k)'s loop, and its final look at the head. */
  lemma HeadStep<V, K>(c: seq<V>, key: V -> K, k: K, i: int)
    requires 1 <= i <= |c| && |[c[0]] + Kept(c[1..i], key, k) + c[i..]| <= 1 + |Kept(c[1..i], key, k)|
    ensures i == |c|
    ensures Kept(c, key, k) == (if key(c[0]) == k then [] else [c[0]]) + Kept(c[1..i], key, k)
    ensures |Hits(c, key, k)| == (if key(c[0]) == k then 1 else 0) + |Hits(c[1..i], key, k)|
  {
    assert c[1..] == c[1..i];
    assert c == [c[0]] + c[1..];
    SelectAppend([c[0]], c[1..], key, k, true);
    SelectAppend([c[0]], c[1..], key, k, false);
    assert [c[0]][..0] == [];
  }

  /** Inserting x at index p of s adds x to its values. */
  lemma InsertValues<V>(s: seq<V>, p: int, x: V)
    requires 0 <= p <= |s|
    ensures (s[..p] + [x] + s[p..])[p] == x
    ensures multiset(s[..p] + [x] + s[p..]) == multiset(s) + multiset{x}
  {
    assert s == s[..p] + s[p..];
  }

  /** One more element of vals taken. */
  lemma TakeOneMore<V>(vals: seq<V>, f: int)
    requires 0 <= f < |vals|
    ensures multiset(vals[..f + 1]) == multiset(vals[..f]) + multiset{vals[f]}
  {
    assert vals[..f + 1] == vals[..f] + [vals[f]];
  }

  /** A table of empty buckets has every element placed. */
  lemma PlacedEmpty<V, K>(bs: seq<seq<V>>, hash: K -> nat, key: V -> K)
    requires |bs| > 0 && forall b :: 0 <= b < |bs| ==> bs[b] == []
    ensures Placed(bs, hash, key) && Flat(bs) == []
  {
    ChainsSkip(bs, 0, |bs|);
  }

  // ---------------------------------------------------------------------------
  // The table

  /** An iterator: the node at index idx of bucket bkt's chain, or the null node. */
  datatype Cursor = At(bkt: nat, idx: nat) | End

  class Hashtable<V, K(==)> {
    const hash: K -> nat
    const key: V -> K
    var buckets: seq<seq<V>>
    var numElements: nat

    /** At least one bucket, every element in its key's bucket, and num_elements counting
        them all. */
    ghost predicate Valid()
      reads this
    {
      Placed(buckets, hash, key) && numElements == |Flat(buckets)|
    }

    /** The iterator designates a node of the table, or is end(). */
    ghost predicate Points(it: Cursor)
      reads this
    {
      match it
      case End => true
      case At(b, i) => b < |buckets| && i < |buckets[b]|
    }

    /** The iterator's place in the table's order. */
    ghost function Pos(it: Cursor): nat
      reads this
      requires Points(it)
    {
      match it
      case End => |Flat(buckets)|
      case At(b, i) => |Chains(buckets, 0, b)| + i
    }

    /** hashtable(n, hf, eql[, ext]) with initialize_buckets(n): next_size(n) empty buckets. */
    constructor (n: nat, hash: K -> nat, key: V -> K)
      ensures Valid() && Flat(buckets) == [] && |buckets| == NextSize(n)
      ensures forall b :: 0 <= b < |buckets| ==> buckets[b] == []
      ensures this.hash == hash && this.key == key
    {
      this.hash := hash;
      this.key := key;
      var nb := NextPrime(n);
      NextSizeRange(n);
      buckets := seq(nb, _ => []);
      numElements := 0;
      new;
      ChainsSkip(buckets, 0, |buckets|);
    }

    /** bucket_count(). */
    function BucketCount(): (r: nat)
      reads this
      requires Valid()
      ensures r == |buckets| && 0 < r
    {
      |buckets|
    }

    /** size(): the number of elements the iterator visits. */
    function Size(): (r: nat)
      reads this
      requires Valid()
      ensures r == |Flat(buckets)|
    {
      numElements
    }

    /** empty(). */
    function Empty(): (r: bool)
      reads this
      requires Valid()
      ensures r <==> Flat(buckets) == []
    {
      Size() == 0
    }

    /** bkt_num_key(k): the bucket k's elements live in. */
    function BucketOf(k: K): (r: nat)
      reads this
      requires |buckets| > 0
      ensures r < |buckets|
    {
      hash(k) % |buckets|
    }

    /** *it: the element at the iterator's place in the table's order. */
    function Deref(it: Cursor): (r: V)
      reads this
      requires Points(it) && it.At?
      ensures Pos(it) < |Flat(buckets)| && r == Flat(buckets)[Pos(it)]
    {
      ChainsAt(buckets, it.bkt, it.idx);
      buckets[it.bkt][it.idx]
    }

    /** elems_in_bucket(b): walks bucket b's chain. */
    method ElemsInBucket(b: nat) returns (r: nat)
      requires b < |buckets|
      ensures r == |buckets[b]|
    {
      r := 0;
      var cur := 0;
      while cur < |buckets[b]|
        invariant r == cur <= |buckets[b]|
      {
        r := r + 1;
        cur := cur + 1;
      }
    }

    /** find(k): scans k's bucket for the first element with key k. */
    method Find(k: K) returns (it: Cursor)
      requires Valid()
      ensures Points(it) && Pos(it) == FirstKey(Flat(buckets), key, k)
    {
      var n := BucketOf(k);
      var i := 0;
      while i < |buckets[n]| && key(buckets[n][i]) != k
        invariant 0 <= i <= |buckets[n]|
        invariant forall j :: 0 <= j < i ==> key(buckets[n][j]) != k
      {
        i := i + 1;
      }
      it := if i < |buckets[n]| then At(n, i) else End;
      FindSpot(buckets, hash, key, k, i);
    }

    /** count(k): the number of elements with key k, counted in k's bucket. */
    method Count(k: K) returns (r: nat)
      requires Valid()
      ensures r == |Hits(Flat(buckets), key, k)|
    {
      var n := BucketOf(k);
      var c := buckets[n];
      r := 0;
      var i := 0;
      while i < |c|
        invariant 0 <= i <= |c| && r == |Hits(c[..i], key, k)|
      {
        assert c[..i + 1][..i] == c[..i];
        if key(c[i]) == k {
          r := r + 1;
        }
        i := i + 1;
      }
      assert c[..i] == c;
      CountSpot(buckets, hash, key, k);
    }
  
    /** Links a new node holding obj in at index i of bucket n's chain: at the head
        (tmp->next = first; buckets[n] = tmp) or after node i - 1 (tmp->next = cur->next;
        cur->next = tmp), and counts it. */
    method LinkAt(n: nat, i: nat, obj: V)
      requires Valid() && n == BucketOf(key(obj)) && i <= |buckets[n]|
      modifies this
      ensures Valid() && |buckets| == old(|buckets|)
      ensures buckets == old(buckets[n := buckets[n][..i] + [obj] + buckets[n][i..]])
      ensures numElements == old(numElements) + 1
      ensures Points(At(n, i)) && Pos(At(n, i)) == old(|Chains(buckets, 0, n)|) + i
      ensures Pos(At(n, i)) <= old(|Flat(buckets)|)
      ensures Flat(buckets)
           == old(Flat(buckets))[..Pos(At(n, i))] + [obj] + old(Flat(buckets))[Pos(At(n, i))..]
    {
      FlatSplice(buckets, n, i, i, [obj]);
      PlacedSplice(buckets, hash, key, n, i, i, [obj]);
      buckets := buckets[n := buckets[n][..i] + [obj] + buckets[n][i..]];
      numElements := numElements + 1;
    }

    /** The scan insert_unique_noresize, insert_equal_noresize and find_or_insert share: the
        index of the first node of obj's bucket with obj's key, or the chain's length. */
    method ScanBucket(n: nat, k: K) returns (i: nat)
      requires n < |buckets|
      ensures i <= |buckets[n]| && (i < |buckets[n]| ==> key(buckets[n][i]) == k)
      ensures forall j :: 0 <= j < i ==> key(buckets[n][j]) != k
    {
      i := 0;
      while i < |buckets[n]| && key(buckets[n][i]) != k
        invariant 0 <= i <= |buckets[n]|
        invariant forall j :: 0 <= j < i ==> key(buckets[n][j]) != k
      {
        i := i + 1;
      }
    }

    /** insert_unique_noresize(obj): an element with obj's key already present is returned
        with false and nothing changes; otherwise obj goes to the head of its bucket and is
        returned with true. */
    method InsertUniqueNoresize(obj: V) returns (it: Cursor, inserted: bool)
      requires Valid()
      modifies this
      ensures Valid() && |buckets| == old(|buckets|) && Points(it) && it.At?
      ensures inserted <==> Absent(old(Flat(buckets)), key, key(obj))
      ensures !inserted ==> buckets == old(buckets) && numElements == old(numElements)
      ensures !inserted ==> Pos(it) == FirstKey(Flat(buckets), key, key(obj))
      ensures inserted ==> numElements == old(numElements) + 1
      ensures inserted ==> Pos(it) == |Chains(old(buckets), 0, hash(key(obj)) % |buckets|)|
      ensures inserted ==> Pos(it) <= old(|Flat(buckets)|)
      ensures inserted ==>
        Flat(buckets) == old(Flat(buckets))[..Pos(it)] + [obj] + old(Flat(buckets))[Pos(it)..]
    {
      var n := BucketOf(key(obj));
      var i := ScanBucket(n, key(obj));
      FindSpot(buckets, hash, key, key(obj), i);
      FirstKeyAbsent(Flat(buckets), key, key(obj));
      if i < |buckets[n]| {
        it, inserted := At(n, i), false;
      } else {
        LinkAt(n, 0, obj);
        it, inserted := At(n, 0), true;
      }
    }

    /** insert_equal_noresize(obj): obj goes right after the first element with its key, so
        that equal keys stay together, or to the head of its bucket when there is none. */
    method InsertEqualNoresize(obj: V) returns (it: Cursor)
      requires Valid()
      modifies this
      ensures Valid() && |buckets| == old(|buckets|) && Points(it) && it.At?
      ensures numElements == old(numElements) + 1
      ensures var f := FirstKey(old(Flat(buckets)), key, key(obj));
        Pos(it) == if f < old(|Flat(buckets)|) then f + 1
                   else |Chains(old(buckets), 0, hash(key(obj)) % |buckets|)|
      ensures Pos(it) <= old(|Flat(buckets)|)
      ensures Flat(buckets) == old(Flat(buckets))[..Pos(it)] + [obj] + old(Flat(buckets))[Pos(it)..]
      ensures multiset(Flat(buckets)) == old(multiset(Flat(buckets))) + multiset{obj}
      ensures Deref(it) == obj
    {
      ghost var F0 := Flat(buckets);
      var n := BucketOf(key(obj));
      var i := ScanBucket(n, key(obj));
      FindSpot(buckets, hash, key, key(obj), i);
      if i < |buckets[n]| {
        LinkAt(n, i + 1, obj);
        it := At(n, i + 1);
      } else {
        LinkAt(n, 0, obj);
        it := At(n, 0);
      }
      InsertValues(F0, Pos(it), obj);
    }

    /** resize(hint): when hint exceeds the bucket count and next_size(hint) does too, moves
        every node, head first, to the head of its bucket in a table of next_size(hint)
        buckets; otherwise changes nothing. */
    method Resize(hint: nat)
      requires Valid()
      modifies this
      ensures Valid() && numElements == old(numElements)
      ensures multiset(Flat(buckets)) == old(multiset(Flat(buckets)))
      ensures |buckets| == if hint > old(|buckets|) && NextSize(hint) > old(|buckets|)
                           then NextSize(hint) else old(|buckets|)
      ensures |buckets| == old(|buckets|) ==> buckets == old(buckets)
    {
      var oldN := |buckets|;
      if hint > oldN {
        var n := NextPrime(hint);
        if n > oldN {
          var tmp: seq<seq<V>> := seq(n, _ => []);
          ChainsSkip(tmp, 0, n);
          ghost var M := multiset(Flat(buckets));
          var bucket := 0;
          while bucket < oldN
            invariant 0 <= bucket <= oldN == |buckets| && |tmp| == n
            invariant numElements == old(numElements)
            invariant EmptyBelow(buckets, bucket)
            invariant multiset(Flat(buckets)) + multiset(Flat(tmp)) == M
            invariant Placed(tmp, hash, key)
          {
            while buckets[bucket] != []
              invariant oldN == |buckets| && |tmp| == n
              invariant numElements == old(numElements)
              invariant EmptyBelow(buckets, bucket)
              invariant multiset(Flat(buckets)) + multiset(Flat(tmp)) == M
              invariant Placed(tmp, hash, key)
              decreases |buckets[bucket]|
            {
              var first := buckets[bucket][0];
              var newBkt := hash(key(first)) % n;
              MoveHead(buckets, tmp, bucket, newBkt, first, hash, key);
              EmptyBelowKeep(buckets, bucket, buckets[bucket][1..]);
              buckets := buckets[bucket := buckets[bucket][1..]];
              tmp := tmp[newBkt := [first] + tmp[newBkt]];
            }
            EmptyBelowNext(buckets, bucket);
            bucket := bucket + 1;
          }
          ChainsSkip(buckets, 0, oldN);
          assert multiset(Flat(tmp)) == M;
          assert |Flat(tmp)| == |M| == numElements by {
            assert |multiset(Flat(tmp))| == |Flat(tmp)|;
            assert |M| == |old(Flat(buckets))|;
          }
          buckets := tmp;
        }
      }
    }

    /** Every iterator lies within the table's order, end() at its end. */
    lemma PosInRange(it: Cursor)
      requires Points(it)
      ensures Pos(it) <= |Flat(buckets)| && (it.At? <==> Pos(it) < |Flat(buckets)|)
    {
      if it.At? {
        ChainsAt(buckets, it.bkt, it.idx);
      }
    }

    /** insert_unique(obj): resize(num_elements + 1), then insert_unique_noresize(obj). */
    method InsertUnique(obj: V) returns (it: Cursor, inserted: bool)
      requires Valid()
      modifies this
      ensures Valid() && Points(it) && it.At?
      ensures inserted <==> Absent(old(Flat(buckets)), key, key(obj))
      ensures inserted ==> multiset(Flat(buckets)) == old(multiset(Flat(buckets))) + multiset{obj}
      ensures inserted ==> Deref(it) == obj
      ensures !inserted ==> multiset(Flat(buckets)) == old(multiset(Flat(buckets)))
      ensures !inserted ==> key(Deref(it)) == key(obj)
    {
      ghost var F0 := Flat(buckets);
      Resize(numElements + 1);
      AbsentValues(F0, Flat(buckets), key, key(obj));
      ghost var F1 := Flat(buckets);
      it, inserted := InsertUniqueNoresize(obj);
      if inserted {
        InsertValues(F1, Pos(it), obj);
      } else {
        FirstKeyAbsent(F1, key, key(obj));
      }
    }

    /** insert_equal(obj): resize(num_elements + 1), then insert_equal_noresize(obj). */
    method InsertEqual(obj: V) returns (it: Cursor)
      requires Valid()
      modifies this
      ensures Valid() && Points(it) && it.At? && Deref(it) == obj
      ensures multiset(Flat(buckets)) == old(multiset(Flat(buckets))) + multiset{obj}
      ensures numElements == old(numElements) + 1
    {
      Resize(numElements + 1);
      it := InsertEqualNoresize(obj);
    }

    /** insert_equal(f, l) for forward iterators: one resize for all of vals, then
        insert_equal_noresize for each in turn. */
    method InsertEqualRange(vals: seq<V>)
      requires Valid()
      modifies this
      ensures Valid() && multiset(Flat(buckets)) == old(multiset(Flat(buckets))) + multiset(vals)
      ensures numElements == old(numElements) + |vals|
    {
      Resize(numElements + |vals|);
      InsertEqualEach(vals);
    }

    /** The loop of insert_equal(f, l): insert_equal_noresize for each of vals in turn. */
    method InsertEqualEach(vals: seq<V>)
      requires Valid()
      modifies this
      ensures Valid() && multiset(Flat(buckets)) == old(multiset(Flat(buckets))) + multiset(vals)
      ensures numElements == old(numElements) + |vals|
    {
      var f := 0;
      while f < |vals|
        invariant Valid() && 0 <= f <= |vals|
        invariant multiset(Flat(buckets)) == old(multiset(Flat(buckets))) + multiset(vals[..f])
        invariant numElements == old(numElements) + f
      {
        var it := InsertEqualNoresize(vals[f]);
        TakeOneMore(vals, f);
        f := f + 1;
      }
      assert vals[..f] == vals;
    }

    /** find_or_insert(obj): after resize(num_elements + 1), the element with obj's key that
        find would return, inserting obj at the head of its bucket when there is none. */
    method FindOrInsert(obj: V) returns (r: V)
      requires Valid()
      modifies this
      ensures Valid()
      ensures Absent(old(Flat(buckets)), key, key(obj)) ==>
        r == obj && multiset(Flat(buckets)) == old(multiset(Flat(buckets))) + multiset{obj}
      ensures !Absent(old(Flat(buckets)), key, key(obj)) ==>
        multiset(Flat(buckets)) == old(multiset(Flat(buckets)))
      ensures FirstKey(Flat(buckets), key, key(obj)) < |Flat(buckets)|
      ensures r == Flat(buckets)[FirstKey(Flat(buckets), key, key(obj))]
    {
      ghost var F0 := Flat(buckets);
      Resize(numElements + 1);
      AbsentValues(F0, Flat(buckets), key, key(obj));
      ghost var F1 := Flat(buckets);
      var n := BucketOf(key(obj));
      var i := ScanBucket(n, key(obj));
      FindSpot(buckets, hash, key, key(obj), i);
      FirstKeyAbsent(F1, key, key(obj));
      if i < |buckets[n]| {
        r := buckets[n][i];
        ChainsAt(buckets, n, i);
      } else {
        LinkAt(n, 0, obj);
        InsertValues(F1, Pos(At(n, 0)), obj);
        r := obj;
        FindSpot(buckets, hash, key, key(obj), 0);
        ChainsAt(buckets, n, 0);
      }
    }

    /** The loops of begin() and of ++ that pass over empty buckets: the first node of the
        first non-empty bucket from m on, or end(). */
    method SkipEmpty(m: nat) returns (it: Cursor)
      requires m <= |buckets|
      ensures Points(it) && Pos(it) == |Chains(buckets, 0, m)|
    {
      var j := m;
      while j < |buckets| && buckets[j] == []
        invariant m <= j <= |buckets|
        invariant forall b :: m <= b < j ==> buckets[b] == []
      {
        j := j + 1;
      }
      ChainsSkip(buckets, m, j);
      ChainsSplit(buckets, 0, m, j);
      if j < |buckets| {
        it := At(j, 0);
      } else {
        it := End;
      }
    }

    /** begin(): the first element in the table's order. */
    method Begin() returns (it: Cursor)
      ensures Points(it) && Pos(it) == 0
    {
      it := SkipEmpty(0);
    }

    /** ++it: the next node of the chain, or the first node of the next non-empty bucket
        after the one the element's key hashes to, or end(). */
    method Incr(it: Cursor) returns (r: Cursor)
      requires Valid() && Points(it) && it.At?
      ensures Points(r) && Pos(r) == Pos(it) + 1
    {
      var b, i := it.bkt, it.idx;
      if i + 1 < |buckets[b]| {
        r := At(b, i + 1);
      } else {
        assert InBucket(buckets[b], hash, key, |buckets|, b) && buckets[b][i] in buckets[b];
        var bkt := BucketOf(key(buckets[b][i]));
        r := SkipEmpty(bkt + 1);
      }
    }

    /** equal_range(k): the run of elements with key k that starts at the first of them,
        up to the first element after it with another key (or end()); (end(), end()) when
        there is no element with key k. */
    method EqualRange(k: K) returns (first: Cursor, last: Cursor)
      requires Valid()
      ensures Points(first) && Points(last)
      ensures Pos(first) == FirstKey(Flat(buckets), key, k)
      ensures Pos(first) <= Pos(last) <= |Flat(buckets)|
      ensures forall p :: Pos(first) <= p < Pos(last) ==> key(Flat(buckets)[p]) == k
      ensures Pos(last) < |Flat(buckets)| ==> key(Flat(buckets)[Pos(last)]) != k
    {
      var n := BucketOf(k);
      var c := buckets[n];
      var i := ScanBucket(n, k);
      FindSpot(buckets, hash, key, k, i);
      if i == |c| {
        first, last := End, End;
        return;
      }
      var j := i + 1;
      while j < |c| && key(c[j]) == k
        invariant i < j <= |c|
        invariant forall q :: i <= q < j ==> key(c[q]) == k
      {
        j := j + 1;
      }
      RunSpot(buckets, hash, key, k, i, j);
      ghost var a := |Chains(buckets, 0, n)|;
      first := At(n, i);
      if j < |c| {
        last := At(n, j);
      } else {
        last := SkipEmpty(n + 1);
        assert Chains(buckets, 0, n + 1) == Chains(buckets, 0, n) + c;
      }
      assert Pos(last) == a + j;
    }

    /** erase(k): unlinks every node of k's bucket whose key is k and returns how many
        nodes went. */
    method EraseKey(k: K) returns (erased: nat)
      requires Valid()
      modifies this
      ensures Valid() && |buckets| == old(|buckets|)
      ensures Flat(buckets) == Kept(old(Flat(buckets)), key, k)
      ensures erased == |Hits(old(Flat(buckets)), key, k)|
      ensures numElements == old(numElements) - erased
    {
      var n := BucketOf(k);
      var ch;
      ch, erased := EraseInChain(buckets[n], key, k);
      KeptFlat(buckets, hash, key, k);
      KeptPlaced(buckets, hash, key, k);
      CountSpot(buckets, hash, key, k);
      SelectSplit(Flat(buckets), key, k);
      buckets := buckets[n := ch];
      numElements := numElements - erased;
    }

    /** Unlinks node j of bucket n's chain and counts it out. */
    method Unlink(n: nat, j: nat)
      requires Valid() && n < |buckets| && j < |buckets[n]|
      modifies this
      ensures Valid() && |buckets| == old(|buckets|)
      ensures buckets == old(buckets[n := buckets[n][..j] + buckets[n][j + 1..]])
      ensures numElements == old(numElements) - 1
      ensures old(|Chains(buckets, 0, n)|) + j < old(|Flat(buckets)|)
      ensures Flat(buckets) == old(Flat(buckets)[..|Chains(buckets, 0, n)| + j]
                                   + Flat(buckets)[|Chains(buckets, 0, n)| + j + 1..])
    {
      FlatSplice(buckets, n, j, j + 1, []);
      PlacedSplice(buckets, hash, key, n, j, j + 1, []);
      assert buckets[n][..j] + [] + buckets[n][j + 1..] == buckets[n][..j] + buckets[n][j + 1..];
      buckets := buckets[n := buckets[n][..j] + buckets[n][j + 1..]];
      numElements := numElements - 1;
    }

    /** erase(it): unlinks it's node, found by walking its bucket's chain from the head;
        erasing end() changes nothing. */
    method EraseAt(it: Cursor)
      requires Valid() && Points(it)
      modifies this
      ensures Valid() && |buckets| == old(|buckets|)
      ensures it == End ==> buckets == old(buckets) && numElements == old(numElements)
      ensures it.At? ==> numElements == old(numElements) - 1
      ensures it.At? ==> old(Pos(it)) < old(|Flat(buckets)|)
      ensures it.At? ==>
        Flat(buckets) == old(Flat(buckets)[..Pos(it)] + Flat(buckets)[Pos(it) + 1..])
    {
      if it.At? {
        assert InBucket(buckets[it.bkt], hash, key, |buckets|, it.bkt);
        assert buckets[it.bkt][it.idx] in buckets[it.bkt];
        var n := BucketOf(key(buckets[it.bkt][it.idx]));
        var next := 0;
        if next != it.idx {
          next := 1;
          while next != it.idx
            invariant 1 <= next <= it.idx
            decreases it.idx - next
          {
            next := next + 1;
          }
        }
        Unlink(n, next);
      }
    }

    /** erase_bucket(n, last): unlinks the head of bucket n's chain until node j is the
        head (j is the chain's length for a null last). */
    method EraseBucketTo(n: nat, j: nat)
      requires Valid() && n < |buckets| && j <= |buckets[n]|
      modifies this
      ensures Valid() && buckets == old(buckets[n := buckets[n][j..]])
      ensures numElements == old(numElements) - j
      ensures Chains(buckets, 0, n) == old(Chains(buckets, 0, n))
      ensures old(|Chains(buckets, 0, n)|) + j <= old(|Flat(buckets)|)
      ensures Flat(buckets) == old(Flat(buckets)[..|Chains(buckets, 0, n)|]
                                   + Flat(buckets)[|Chains(buckets, 0, n)| + j..])
    {
      ghost var bs0 := buckets;
      var k := 0;
      while k < j
        invariant 0 <= k <= j && Valid()
        invariant buckets == bs0[n := bs0[n][k..]]
        invariant numElements == old(numElements) - k
      {
        Unlink(n, 0);
        assert buckets[n] == bs0[n][k + 1..];
        k := k + 1;
      }
      FlatSplice(bs0, n, 0, j, []);
      assert bs0[n][..0] + [] + bs0[n][j..] == bs0[n][j..];
    }

    /** erase_bucket(n, first, last): unlinks nodes [i, j) of bucket n's chain, walking
        from the head to first's predecessor; a first at the head is erase_bucket(n, last). */
    method EraseBucketRange(n: nat, i: nat, j: nat)
      requires Valid() && n < |buckets| && i <= j <= |buckets[n]| && i < |buckets[n]|
      modifies this
      ensures Valid() && buckets == old(buckets[n := buckets[n][..i] + buckets[n][j..]])
      ensures numElements == old(numElements) - (j - i)
      ensures old(|Chains(buckets, 0, n)|) + j <= old(|Flat(buckets)|)
      ensures Flat(buckets) == old(Flat(buckets)[..|Chains(buckets, 0, n)| + i]
                                   + Flat(buckets)[|Chains(buckets, 0, n)| + j..])
    {
      if i == 0 {
        EraseBucketTo(n, j);
        assert old(buckets[n][..0] + buckets[n][j..]) == old(buckets[n][j..]);
      } else {
        ghost var bs0 := buckets;
        var next := 1;
        while next != i
          invariant 1 <= next <= i
          decreases i - next
        {
          next := next + 1;
        }
        var k := i;
        assert bs0[n][..i] + bs0[n][i..] == bs0[n];
        while k < j
          invariant i <= k <= j && Valid()
          invariant buckets == bs0[n := bs0[n][..i] + bs0[n][k..]]
          invariant numElements == old(numElements) - (k - i)
        {
          Unlink(n, i);
          assert buckets[n] == bs0[n][..i] + bs0[n][k + 1..];
          k := k + 1;
        }
        FlatSplice(bs0, n, i, j, []);
        assert bs0[n][..i] + [] + bs0[n][j..] == bs0[n][..i] + bs0[n][j..];
      }
    }

    /** The bucket an iterator stands in, the bucket count for end(). */
    function BucketAt(it: Cursor): (r: nat)
      reads this
      requires Points(it)
      ensures r <= |buckets| && (r == |buckets| <==> it == End)
    {
      if it.At? then it.bkt else |buckets|
    }

    /** The table's order visits the buckets in turn: an iterator no later than another
        stands in the same or an earlier bucket, and earlier in its chain when they share it. */
    lemma PosOrder(first: Cursor, last: Cursor)
      requires Points(first) && Points(last) && Pos(first) <= Pos(last)
      ensures BucketAt(first) <= BucketAt(last)
      ensures first.At? && last.At? && first.bkt == last.bkt ==> first.idx <= last.idx
    {
      PosInRange(first);
      PosInRange(last);
      if first.At? && last.At? && last.bkt < first.bkt {
        ChainsSplit(buckets, 0, last.bkt + 1, first.bkt);
        assert false;
      }
    }

    /** The loop of erase(first, last) over whole buckets: erase_bucket(n, null) for each
        bucket n in [m, l), which removes their run of the table's order. */
    method EraseBuckets(m: nat, l: nat)
      requires Valid() && m <= l <= |buckets|
      modifies this
      ensures Valid() && buckets == old(Emptied(buckets, m, l))
      ensures old(|Chains(buckets, 0, m)|) <= old(|Chains(buckets, 0, l)|) <= old(|Flat(buckets)|)
      ensures Flat(buckets) == old(Flat(buckets)[..|Chains(buckets, 0, m)|]
                                   + Flat(buckets)[|Chains(buckets, 0, l)|..])
    {
      ghost var bs0 := buckets;
      var n := m;
      while n < l
        invariant m <= n <= l && Valid() && buckets == Emptied(bs0, m, n)
      {
        ghost var B := buckets;
        EraseBucketTo(n, |buckets[n]|);
        assert B[n][|B[n]|..] == [];
        assert buckets == Emptied(bs0, m, n)[n := []];
        n := n + 1;
      }
      EmptiedFlat(bs0, m, l);
    }

    /** erase(first, last): unlinks [first, last) bucket by bucket: the tail of first's
        chain, every chain in between, and the head of last's chain. */
    method EraseRange(first: Cursor, last: Cursor)
      requires Valid() && Points(first) && Points(last) && Pos(first) <= Pos(last)
      modifies this
      ensures Valid() && |buckets| == old(|buckets|)
      ensures old(Pos(last)) <= old(|Flat(buckets)|)
      ensures numElements == old(numElements) - (old(Pos(last)) - old(Pos(first)))
      ensures Flat(buckets) == old(Flat(buckets)[..Pos(first)] + Flat(buckets)[Pos(last)..])
    {
      PosInRange(last);
      PosOrder(first, last);
      var fb, lb := BucketAt(first), BucketAt(last);
      if first == last {
        return;
      } else if fb == lb {
        EraseBucketRange(fb, first.idx, last.idx);
      } else {
        EraseAcross(first, last);
      }
    }

    /** The case of erase(first, last) where last lies in a later bucket than first. */
    method EraseAcross(first: Cursor, last: Cursor)
      requires Valid() && Points(first) && Points(last) && first.At?
      requires first.bkt < BucketAt(last) && Pos(first) <= Pos(last)
      modifies this
      ensures Valid() && |buckets| == old(|buckets|)
      ensures old(Pos(last)) <= old(|Flat(buckets)|)
      ensures Flat(buckets) == old(Flat(buckets)[..Pos(first)] + Flat(buckets)[Pos(last)..])
    {
      PosInRange(last);
      ghost var F, P, L := Flat(buckets), Pos(first), Pos(last);
      var lb := BucketAt(last);
      ghost var Q := |Chains(buckets, 0, lb)|;
      EraseFrom(first, lb);
      if lb != |buckets| {
        ghost var H := Flat(buckets);
        EraseBucketTo(lb, last.idx);
        CutShift(F, H, P, Q, last.idx);
      }
    }

    /** The first two steps of erase(first, last) across buckets: the tail of first's
        chain, then every bucket before lb. */
    method EraseFrom(first: Cursor, lb: nat)
      requires Valid() && Points(first) && first.At? && first.bkt < lb <= |buckets|
      modifies this
      ensures Valid() && |buckets| == old(|buckets|)
      ensures forall b :: lb <= b < |buckets| ==> buckets[b] == old(buckets[b])
      ensures |Chains(buckets, 0, lb)| == old(Pos(first))
      ensures old(Pos(first)) <= old(|Chains(buckets, 0, lb)|) <= old(|Flat(buckets)|)
      ensures Flat(buckets) == old(Flat(buckets)[..Pos(first)] + Flat(buckets)[|Chains(buckets, 0, lb)|..])
    {
      ghost var bs0 := buckets;
      var fb := first.bkt;
      EraseBucketRange(fb, first.idx, |buckets[fb]|);
      ghost var bs1 := buckets;
      EraseBuckets(fb + 1, lb);
      TailCutFlat(bs0, bs1, buckets, fb, first.idx, lb);
    }

    /** clear(): every bucket emptied, the bucket count kept. */
    method Clear()
      requires Valid()
      modifies this
      ensures Valid() && |buckets| == old(|buckets|) && numElements == 0
      ensures Flat(buckets) == [] && forall b :: 0 <= b < |buckets| ==> buckets[b] == []
    {
      var i := 0;
      while i < |buckets|
        invariant 0 <= i <= |buckets| == old(|buckets|) && EmptyBelow(buckets, i)
      {
        EmptyBelowKeep(buckets, i, []);
        EmptyBelowNext(buckets[i := []], i);
        buckets := buckets[i := []];
        i := i + 1;
      }
      numElements := 0;
      PlacedEmpty(buckets, hash, key);
    }

    /** hashtable(const hashtable& ht) with copy_from(ht): the same bucket count and a copy
        of every chain, node by node in the same order. */
    constructor Copy(ht: Hashtable<V, K>)
      requires ht.Valid()
      ensures Valid() && buckets == ht.buckets && numElements == ht.numElements
      ensures hash == ht.hash && key == ht.key
    {
      hash := ht.hash;
      key := ht.key;
      buckets := seq(|ht.buckets|, _ => []);
      numElements := 0;
      new;
      var i := 0;
      while i < |ht.buckets|
        invariant 0 <= i <= |ht.buckets| == |buckets|
        invariant forall b :: 0 <= b < i ==> buckets[b] == ht.buckets[b]
        invariant forall b :: i <= b < |buckets| ==> buckets[b] == []
      {
        var src := ht.buckets[i];
        if src != [] {
          var c := [src[0]];
          var next := 1;
          while next < |src|
            invariant 1 <= next <= |src| && c == src[..next]
          {
            c := c + [src[next]];
            next := next + 1;
          }
          buckets := buckets[i := c];
        }
        i := i + 1;
      }
      numElements := ht.numElements;
      assert buckets == ht.buckets;
      assert ht.Valid();
    }
  }

  /** Cutting F[P, Q) out shifts what follows Q back to P. */
  lemma CutShift<V>(F: seq<V>, G: seq<V>, P: int, Q: int, d: int)
    requires 0 <= P <= Q && 0 <= d && Q + d <= |F| && G == F[..P] + F[Q..]
    ensures P + d <= |G| && G[..P] == F[..P] && G[P + d..] == F[Q + d..]
  {
  }

  /** Cutting bucket fb's chain short at i: the counts EraseFrom relies on. */
  lemma TailCutCounts<V>(bs0: seq<seq<V>>, bs1: seq<seq<V>>, fb: int, i: int, lb: int)
    requires 0 <= fb < lb <= |bs0| && 0 <= i < |bs0[fb]|
    requires bs1 == bs0[fb := bs0[fb][..i] + bs0[fb][|bs0[fb]|..]]
    ensures |Chains(bs0, 0, fb + 1)| == |Chains(bs0, 0, fb)| + |bs0[fb]|
    ensures |Chains(bs1, 0, fb + 1)| == |Chains(bs0, 0, fb)| + i
    ensures |Chains(bs1, 0, lb)| == |Chains(bs0, 0, fb)| + i + |Chains(bs0, fb + 1, lb)|
    ensures |Chains(bs0, 0, lb)| == |Chains(bs0, 0, fb + 1)| + |Chains(bs0, fb + 1, lb)|
  {
    assert |bs1[fb]| == i;
    ChainsSame(bs0, bs1, 0, fb);
    ChainsSame(bs0, bs1, fb + 1, lb);
    ChainsSplit(bs1, 0, fb + 1, lb);
    ChainsSplit(bs0, 0, fb + 1, lb);
  }

  /** erase(first, last) across buckets as values: bucket fb cut short at i, then the buckets
      (fb, lb) emptied, cut the run from place |Chains(bs0, 0, fb)| + i up to bucket lb out of
      the table's order and leave the buckets from lb on alone. */
  lemma {:induction false} TailCutFlat<V>(bs0: seq<seq<V>>, bs1: seq<seq<V>>, bs2: seq<seq<V>>, fb: int, i: int, lb: int)
    requires 0 <= fb < lb <= |bs0| && 0 <= i < |bs0[fb]|
    requires bs1 == bs0[fb := bs0[fb][..i] + bs0[fb][|bs0[fb]|..]]
    requires |Chains(bs0, 0, fb)| + |bs0[fb]| <= |Flat(bs0)|
    requires Flat(bs1) == Flat(bs0)[..|Chains(bs0, 0, fb)| + i]
                          + Flat(bs0)[|Chains(bs0, 0, fb)| + |bs0[fb]|..]
    requires bs2 == Emptied(bs1, fb + 1, lb)
    requires |Chains(bs1, 0, fb + 1)| <= |Chains(bs1, 0, lb)| <= |Flat(bs1)|
    requires Flat(bs2) == Flat(bs1)[..|Chains(bs1, 0, fb + 1)|] + Flat(bs1)[|Chains(bs1, 0, lb)|..]
    ensures |bs2| == |bs0| && forall b :: lb <= b < |bs2| ==> bs2[b] == bs0[b]
    ensures |Chains(bs2, 0, lb)| == |Chains(bs0, 0, fb)| + i
    ensures |Chains(bs0, 0, fb)| + i <= |Chains(bs0, 0, lb)| <= |Flat(bs0)|
    ensures Flat(bs2) == Flat(bs0)[..|Chains(bs0, 0, fb)| + i] + Flat(bs0)[|Chains(bs0, 0, lb)|..]
  {
    var P := |Chains(bs0, 0, fb)| + i;
    TailCutCounts(bs0, bs1, fb, i, lb);
    CutTwice(Flat(bs0), Flat(bs1), Flat(bs2), P, |Chains(bs0, 0, fb + 1)|, |Chains(bs0, fb + 1, lb)|);
    EmptiedCount(bs1, fb + 1, lb);
  }

  /** Emptying the buckets [m, n) leaves the chains before n as long as those before m. */
  lemma EmptiedCount<V>(bs: seq<seq<V>>, m: int, n: int)
    requires 0 <= m <= n <= |bs|
    ensures |Chains(Emptied(bs, m, n), 0, n)| == |Chains(bs, 0, m)|
  {
    var e := Emptied(bs, m, n);
    ChainsSplit(e, 0, m, n);
    ChainsSkip(e, m, n);
    EmptiedFlat(bs, m, n);
  }

  /** Cutting [P, Q) out of F and then the next d values cuts [P, Q + d) out of F. */
  lemma CutTwice<V>(F: seq<V>, G: seq<V>, H: seq<V>, P: int, Q: int, d: int)
    requires 0 <= P <= Q && 0 <= d && Q + d <= |F| && G == F[..P] + F[Q..]
    requires P + d <= |G| && H == G[..P] + G[P + d..]
    ensures H == F[..P] + F[Q + d..]
  {
    CutShift(F, G, P, Q, d);
  }

  /** The buckets [m, n) emptied, the others kept. */
  ghost function Emptied<V>(bs: seq<seq<V>>, m: int, n: int): (r: seq<seq<V>>)
    requires 0 <= m <= n <= |bs|
    ensures |r| == |bs|
    ensures forall b :: m <= b < n ==> r[b] == []
    ensures forall b :: 0 <= b < |bs| && !(m <= b < n) ==> r[b] == bs[b]
    decreases n
  {
    if n == m then bs else Emptied(bs, m, n - 1)[n - 1 := []]
  }

  /** Emptying the buckets [m, n) removes their run from the table's order. */
  lemma EmptiedFlat<V>(bs: seq<seq<V>>, m: int, n: int)
    requires 0 <= m <= n <= |bs|
    ensures |Chains(bs, 0, m)| <= |Chains(bs, 0, n)| <= |Flat(bs)|
    ensures Chains(Emptied(bs, m, n), 0, m) == Chains(bs, 0, m)
    ensures Flat(Emptied(bs, m, n))
         == Flat(bs)[..|Chains(bs, 0, m)|] + Flat(bs)[|Chains(bs, 0, n)|..]
  {
    var e := Emptied(bs, m, n);
    ChainsSplit(bs, 0, m, n);
    ChainsSplit(bs, 0, n, |bs|);
    ChainsSplit(e, 0, m, n);
    ChainsSplit(e, 0, n, |bs|);
    ChainsSame(e, bs, 0, m);
    ChainsSame(e, bs, n, |bs|);
    ChainsSkip(e, m, n);
  }

  /** The buckets [0, m) are empty. */
  ghost predicate EmptyBelow<V>(bs: seq<seq<V>>, m: int)
  {
    0 <= m <= |bs| && forall b :: 0 <= b < m ==> bs[b] == []
  }

  lemma EmptyBelowNext<V>(bs: seq<seq<V>>, m: int)
    requires EmptyBelow(bs, m) && m < |bs| && bs[m] == []
    ensures EmptyBelow(bs, m + 1)
  {
  }

  lemma EmptyBelowKeep<V>(bs: seq<seq<V>>, m: int, c: seq<V>)
    requires EmptyBelow(bs, m) && m < |bs|
    ensures EmptyBelow(bs[m := c], m)
  {
  }

  /** One step of resize: the head of bucket b moves to the head of bucket nb of tmp, where
      it belongs; the two tables together keep their values. */
  lemma MoveHead<V, K>(bs: seq<seq<V>>, tmp: seq<seq<V>>, b: int, nb: int, first: V,
                       hash: K -> nat, key: V -> K)
    requires 0 <= b < |bs| && bs[b] != [] && first == bs[b][0]
    requires Placed(tmp, hash, key) && nb == hash(key(first)) % |tmp|
    ensures multiset(Flat(bs[b := bs[b][1..]])) + multiset(Flat(tmp[nb := [first] + tmp[nb]]))
         == multiset(Flat(bs)) + multiset(Flat(tmp))
    ensures Placed(tmp[nb := [first] + tmp[nb]], hash, key)
  {
    PopHead(bs, b);
    PushHead(tmp, nb, first);
    PlacedSplice(tmp, hash, key, nb, 0, 0, [first]);
    assert tmp[nb][..0] + [first] + tmp[nb][0..] == [first] + tmp[nb];
  }

  /** Unlinking the head of bucket b's chain takes it out of the table's values. */
  lemma PopHead<V>(bs: seq<seq<V>>, b: int)
    requires 0 <= b < |bs| && bs[b] != []
    ensures multiset(Flat(bs[b := bs[b][1..]])) + multiset{bs[b][0]} == multiset(Flat(bs))
  {
    var c := bs[b];
    FlatUpdate(bs, b, c[1..]);
    var A, B := Chains(bs, 0, b), Chains(bs, b + 1, |bs|);
    assert c == [c[0]] + c[1..];
    assert multiset(c) == multiset{c[0]} + multiset(c[1..]);
    assert multiset(Flat(bs)) == multiset(A) + multiset(c) + multiset(B);
  }

  /** Linking x in at the head of bucket b's chain adds it to the table's values. */
  lemma PushHead<V>(bs: seq<seq<V>>, b: int, x: V)
    requires 0 <= b < |bs|
    ensures multiset(Flat(bs[b := [x] + bs[b]])) == multiset(Flat(bs)) + multiset{x}
  {
    FlatUpdate(bs, b, [x] + bs[b]);
    var A, B := Chains(bs, 0, b), Chains(bs, b + 1, |bs|);
    assert multiset([x] + bs[b]) == multiset{x} + multiset(bs[b]);
    assert multiset(Flat(bs)) == multiset(A) + multiset(bs[b]) + multiset(B);
  }
}