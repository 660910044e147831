// Container/Sequence/list.hpp, sort(): the iterative merge sort. Elements are moved one at
// a time from the list into `carry` and pushed through a binary counter of 64 lists, where
// counter[i] holds either nothing or 2^i sorted values; at the end the counters are merged
// from the bottom up and the result is swapped into the list. All 66 lists share one node
// store, and a list is named by its dummy node, so swapping two lists exchanges dummies.
module ListSort {
  import Algo
  import Sorting = Sort
  import List

  /** 2^64: counter has 64 lists, so sort() handles lists shorter than this. */
  const Slots: nat := 0x1_0000_0000_0000_0000

  // ---------------------------------------------------------------------------
  // A family of lists in one node store.

  /** List s of the family is a list under nx/pv. */
  ghost predicate Listed(nx: map<int, int>, pv: map<int, int>, ds: seq<int>, ls: seq<seq<int>>, s: int)
  {
    0 <= s < |ds| && |ls| == |ds| && List.IsList(nx, pv, ds[s], ls[s])
  }

  /** Lists s and t of the family share no node. */
  ghost predicate Apart(ds: seq<int>, ls: seq<seq<int>>, s: int, t: int)
  {
    && 0 <= s < |ds| && 0 <= t < |ds| && |ls| == |ds|
    && List.NodeSet(ds[s], ls[s]) !! List.NodeSet(ds[t], ls[t])
  }

  /** Every element of every list of the family holds a value. */
  ghost predicate Holding<T>(data: map<int, T>, ls: seq<seq<int>>)
  {
    forall s :: 0 <= s < |ls| ==> List.Holds(data, ls[s])
  }

  /** Every ds[s] / ls[s] is a list under nx/pv whose elements hold values, and no two of
      the lists share a node. */
  ghost predicate Lists<T>(nx: map<int, int>, pv: map<int, int>, data: map<int, T>,
                           ds: seq<int>, ls: seq<seq<int>>)
  {
    && |ds| == |ls| && Holding(data, ls)
    && (forall s :: 0 <= s < |ds| ==> Listed(nx, pv, ds, ls, s))
    && (forall s, t :: 0 <= s < |ds| && 0 <= t < |ds| && s != t ==> Apart(ds, ls, s, t))
  }

  /** Every node of a list has a next and a prev entry. */
  lemma NodeSetKeys(nx: map<int, int>, pv: map<int, int>, d: int, xs: seq<int>, a: int)
    requires List.IsList(nx, pv, d, xs) && a in List.NodeSet(d, xs)
    ensures a in nx && a in pv
  {
    if a == d {
      List.RingKeys(nx, pv, d, xs, |xs|);
    } else {
      var k :| 0 <= k < |xs| && xs[k] == a;
      List.RingKeys(nx, pv, d, xs, k);
    }
  }

  /** Two lists s and t of a family are replaced by two lists on the same dummies and the
      same nodes, the store changing only on those nodes: the family stays a family. */
  lemma ListsReplace<T>(n0: map<int, int>, p0: map<int, int>, n1: map<int, int>,
                        p1: map<int, int>, data: map<int, T>, ds: seq<int>, ls: seq<seq<int>>,
                        s: int, t: int, a: seq<int>, b: seq<int>)
    requires Lists(n0, p0, data, ds, ls) && 0 <= s < |ds| && 0 <= t < |ds| && s != t
    requires List.IsList(n1, p1, ds[s], a) && List.IsList(n1, p1, ds[t], b)
    requires List.Holds(data, a) && List.Holds(data, b)
    requires List.NodeSet(ds[s], a) !! List.NodeSet(ds[t], b)
    requires List.NodeSet(ds[s], a) + List.NodeSet(ds[t], b)
          == List.NodeSet(ds[s], ls[s]) + List.NodeSet(ds[t], ls[t])
    requires List.Agree(n0, n1, List.NodeSet(ds[s], ls[s]) + List.NodeSet(ds[t], ls[t]))
    requires List.Agree(p0, p1, List.NodeSet(ds[s], ls[s]) + List.NodeSet(ds[t], ls[t]))
    ensures Lists(n1, p1, data, ds, ls[s := a][t := b])
  {
    var U := List.NodeSet(ds[s], ls[s]) + List.NodeSet(ds[t], ls[t]);
    var ls2 := ls[s := a][t := b];
    forall r | 0 <= r < |ds| ensures Listed(n1, p1, ds, ls2, r) {
      if r != s && r != t {
        assert Listed(n0, p0, ds, ls, r) && Apart(ds, ls, r, s) && Apart(ds, ls, r, t);
        List.KeepList(n0, p0, n1, p1, ds[r], ls[r], U);
        assert ls2[r] == ls[r];
      }
    }
    forall r, q | 0 <= r < |ds| && 0 <= q < |ds| && r != q ensures Apart(ds, ls2, r, q) {
      if r != s && r != t && q != s && q != t {
        assert Apart(ds, ls, r, q) && ls2[r] == ls[r] && ls2[q] == ls[q];
      } else if r != s && r != t {
        assert Apart(ds, ls, r, s) && Apart(ds, ls, r, t) && ls2[r] == ls[r];
      } else if q != s && q != t {
        assert Apart(ds, ls, q, s) && Apart(ds, ls, q, t) && ls2[q] == ls[q];
      }
    }
    forall r | 0 <= r < |ls2| ensures List.Holds(data, ls2[r]) {
      if r != s && r != t {
        assert ls2[r] == ls[r];
      }
    }
  }

  /** Exchanging two lists of a family, as list::swap does, keeps it a family. */
  lemma ListsSwap<T>(nx: map<int, int>, pv: map<int, int>, data: map<int, T>, ds: seq<int>,
                     ls: seq<seq<int>>, s: int, t: int)
    requires Lists(nx, pv, data, ds, ls) && 0 <= s < |ds| && 0 <= t < |ds|
    ensures Lists(nx, pv, data, ds[s := ds[t]][t := ds[s]], ls[s := ls[t]][t := ls[s]])
  {
    var ds2, ls2 := ds[s := ds[t]][t := ds[s]], ls[s := ls[t]][t := ls[s]];
    forall r | 0 <= r < |ds| ensures Listed(nx, pv, ds2, ls2, r) && List.Holds(data, ls2[r]) {
      var q := Swapped(r, s, t);
      assert Listed(nx, pv, ds, ls, q);
      assert ds2[r] == ds[q] && ls2[r] == ls[q];
    }
    forall r, r2 | 0 <= r < |ds| && 0 <= r2 < |ds| && r != r2 ensures Apart(ds2, ls2, r, r2) {
      var q, q2 := Swapped(r, s, t), Swapped(r2, s, t);
      assert Apart(ds, ls, q, q2);
      assert ds2[r] == ds[q] && ls2[r] == ls[q] && ds2[r2] == ds[q2] && ls2[r2] == ls[q2];
    }
  }

  /** Where position r of a family is found after positions s and t are exchanged. */
  function Swapped(r: int, s: int, t: int): (q: int)
    ensures r == s ==> q == t
    ensures r == t && r != s ==> q == s
    ensures r != s && r != t ==> q == r
  {
    if r == s then t else if r == t then s else r
  }

  /** A fresh empty list joins a family. */
  lemma ListsAdd<T>(n0: map<int, int>, p0: map<int, int>, n1: map<int, int>, p1: map<int, int>,
                    data: map<int, T>, ds: seq<int>, ls: seq<seq<int>>, e: int)
    requires Lists(n0, p0, data, ds, ls) && List.Agree(n0, n1, {}) && List.Agree(p0, p1, {})
    requires List.IsList(n1, p1, e, []) && e !in n0
    ensures Lists(n1, p1, data, ds + [e], ls + [[]])
  {
    var ds2, ls2 := ds + [e], ls + [[]];
    forall r | 0 <= r < |ds2| ensures Listed(n1, p1, ds2, ls2, r) && List.Holds(data, ls2[r]) {
      if r < |ds| {
        assert Listed(n0, p0, ds, ls, r);
        List.KeepList(n0, p0, n1, p1, ds[r], ls[r], {});
      }
    }
    forall r | 0 <= r < |ds| ensures List.NodeSet(ds[r], ls[r]) !! {e} {
      assert Listed(n0, p0, ds, ls, r);
      if e in List.NodeSet(ds[r], ls[r]) {
        NodeSetKeys(n0, p0, ds[r], ls[r], e);
      }
    }
    assert List.NodeSet(ds2[|ds|], ls2[|ds|]) == {e};
    forall r, q | 0 <= r < |ds2| && 0 <= q < |ds2| && r != q ensures Apart(ds2, ls2, r, q) {
      if r < |ds| && q < |ds| {
        assert Apart(ds, ls, r, q);
      }
    }
  }

  // ---------------------------------------------------------------------------
  // The values held by a family.

  /** The values of each list of a family, as one multiset per list. */
  ghost function Vals<T>(data: map<int, T>, ls: seq<seq<int>>): (ms: seq<multiset<T>>)
    requires Holding(data, ls)
    ensures |ms| == |ls| && forall s :: 0 <= s < |ls| ==> ms[s] == multiset(List.Elements(data, ls[s]))
  {
    seq(|ls|, s requires 0 <= s < |ls| => multiset(List.Elements(data, ls[s])))
  }
  /** The sum of the first n multisets of ms. */
  ghost function Bag<T>(ms: seq<multiset<T>>, n: int): multiset<T>
    requires 0 <= n <= |ms|
  {
    if n == 0 then multiset{} else Bag(ms, n - 1) + ms[n - 1]
  }

  /** The first n multisets alone decide their sum. */
  lemma {:induction false} BagSame<T>(ms: seq<multiset<T>>, ms2: seq<multiset<T>>, n: int)
    requires 0 <= n <= |ms| && n <= |ms2| && forall r :: 0 <= r < n ==> ms[r] == ms2[r]
    ensures Bag(ms, n) == Bag(ms2, n)
    decreases n
  {
    if n > 0 {
      BagSame(ms, ms2, n - 1);
    }
  }

  /** Replacing entry s changes the sum by what it gains and what it loses. */
  lemma {:induction false} BagUpdate<T>(ms: seq<multiset<T>>, s: int, m: multiset<T>, n: int)
    requires 0 <= s < n <= |ms|
    ensures Bag(ms[s := m], n) + ms[s] == Bag(ms, n) + m
    decreases n
  {
    var ms2 := ms[s := m];
    if s < n - 1 {
      BagUpdate(ms, s, m, n - 1);
      var x := ms[n - 1];
      calc {
        Bag(ms2, n) + ms[s];
        (Bag(ms2, n - 1) + x) + ms[s];
        (Bag(ms2, n - 1) + ms[s]) + x;
        (Bag(ms, n - 1) + m) + x;
        Bag(ms, n) + m;
      }
    } else {
      BagSame(ms, ms2, n - 1);
    }
  }

  /** Each entry is part of the sum. */
  lemma {:induction false} BagHas<T>(ms: seq<multiset<T>>, s: int, n: int)
    requires 0 <= s < n <= |ms|
    ensures ms[s] <= Bag(ms, n)
    decreases n
  {
    if s < n - 1 {
      BagHas(ms, s, n - 1);
    }
  }

  /** When every other entry is empty, the sum is entry s. */
  lemma {:induction false} BagOnly<T>(ms: seq<multiset<T>>, s: int, n: int)
    requires 0 <= s < n <= |ms| && forall r :: 0 <= r < n && r != s ==> ms[r] == multiset{}
    ensures Bag(ms, n) == ms[s]
    decreases n
  {
    if s < n - 1 {
      BagOnly(ms, s, n - 1);
    } else {
      BagNone(ms, n - 1);
    }
  }

  /** A sum of empty multisets is empty. */
  lemma {:induction false} BagNone<T>(ms: seq<multiset<T>>, n: int)
    requires 0 <= n <= |ms| && forall r :: 0 <= r < n ==> ms[r] == multiset{}
    ensures Bag(ms, n) == multiset{}
    decreases n
  {
    if n > 0 {
      BagNone(ms, n - 1);
    }
  }

  /** Moving values between two entries without losing or inventing any keeps the sum. */
  lemma BagMove<T>(ms: seq<multiset<T>>, s: int, t: int, a: multiset<T>, b: multiset<T>, n: int)
    requires 0 <= s < n <= |ms| && 0 <= t < n && s != t && a + b == ms[s] + ms[t]
    ensures Bag(ms[s := a][t := b], n) == Bag(ms, n)
  {
    var ms1, ms2 := ms[s := a], ms[s := a][t := b];
    BagUpdate(ms, s, a, n);
    BagUpdate(ms1, t, b, n);
    assert ms1[t] == ms[t];
    var C := ms[s] + ms[t];
    calc {
      Bag(ms2, n) + C;
      (Bag(ms2, n) + ms1[t]) + ms[s];
      (Bag(ms1, n) + b) + ms[s];
      (Bag(ms1, n) + ms[s]) + b;
      (Bag(ms, n) + a) + b;
      Bag(ms, n) + C;
    }
    Cancel(Bag(ms2, n), Bag(ms, n), C);
  }

  /** Multiset union cancels. */
  lemma Cancel<T>(A: multiset<T>, B: multiset<T>, C: multiset<T>)
    requires A + C == B + C
    ensures A == B
  {
    forall x ensures A[x] == B[x] {
      assert (A + C)[x] == (B + C)[x];
    }
  }

  /** Replacing lists s and t by two lists holding the same values between them keeps the
      sum of the values. */
  lemma {:induction false} BagReplace<T>(data: map<int, T>, ls: seq<seq<int>>, s: int, t: int, a: seq<int>, b: seq<int>)
    requires |ls| == 66 && Holding(data, ls)
    requires 0 <= s < 66 && 0 <= t < 66 && s != t && List.Holds(data, a) && List.Holds(data, b)
    requires multiset(List.Elements(data, a)) + multiset(List.Elements(data, b))
          == multiset(List.Elements(data, ls[s])) + multiset(List.Elements(data, ls[t]))
    ensures Bag(Vals(data, ls[s := a][t := b]), 66) == Bag(Vals(data, ls), 66)
  {
    var ms := Vals(data, ls);
    var A, B := multiset(List.Elements(data, a)), multiset(List.Elements(data, b));
    BagMove(ms, s, t, A, B, 66);
    var ls2, ms1 := ls[s := a][t := b], ms[s := A][t := B];
    forall r | 0 <= r < 66 ensures List.Holds(data, ls2[r]) {
      if r != s && r != t {
        assert ls2[r] == ls[r];
      }
    }
    var ms2 := Vals(data, ls2);
    forall r | 0 <= r < 66 ensures ms2[r] == ms1[r] {
      if r != s && r != t {
        assert ls2[r] == ls[r] && ms1[r] == ms[r];
      }
    }
    assert ms2 == ms1;
  }

  /** m2 keeps every entry of m outside S when it keeps every entry outside U, and U adds
      to S only addresses at or above a bound that m's keys stay below. */
  lemma AgreeNarrow<V>(m: map<int, V>, m2: map<int, V>, U: set<int>, S: set<int>, b0: int)
    requires List.Agree(m, m2, U) && List.Below(m, b0)
    requires forall a :: a in U ==> a in S || b0 <= a
    ensures List.Agree(m, m2, S)
  {
  }

  // ---------------------------------------------------------------------------
  // The state of sort().

  /** List s of the family lies within U. */
  ghost predicate Inside(ds: seq<int>, ls: seq<seq<int>>, U: set<int>, s: int)
  {
    0 <= s < |ds| && |ls| == |ds| && List.NodeSet(ds[s], ls[s]) <= U
  }

  /** Every list of the family lies within U. */
  ghost predicate Within(ds: seq<int>, ls: seq<seq<int>>, U: set<int>)
  {
    |ds| == |ls| && forall s :: 0 <= s < |ds| ==> Inside(ds, ls, U, s)
  }

  /** List s of the pool lies within U, its dummy points to itself exactly when it is
      empty, and unless it is the list being sorted it holds its values in ascending order. */
  ghost predicate Kept(nx: map<int, int>, data: map<int, int>, ds: seq<int>, ls: seq<seq<int>>,
                       U: set<int>, s: int)
  {
    && 0 <= s < |ds| && |ls| == |ds| && List.NodeSet(ds[s], ls[s]) <= U
    && ds[s] in nx && (nx[ds[s]] == ds[s] <==> ls[s] == [])
    && List.Holds(data, ls[s]) && (1 <= s ==> Algo.Sorted(List.Elements(data, ls[s])))
  }

  /** The 66 lists of sort() over one store: position 0 is the list being sorted, 1 is
      carry and 2 + i is counter[i]. Together they hold the values M, carry and the
      counters are sorted, and the store has changed only on their nodes U. */
  ghost predicate PoolV(nx: map<int, int>, pv: map<int, int>, data: map<int, int>, ds: seq<int>,
                        ls: seq<seq<int>>, M: multiset<int>, U: set<int>, n0: map<int, int>,
                        p0: map<int, int>)
  {
    && |ds| == 66 && Lists(nx, pv, data, ds, ls)
    && Bag(Vals(data, ls), 66) == M
    && List.Agree(n0, nx, U) && List.Agree(p0, pv, U)
    && (forall s :: 0 <= s < 66 ==> Kept(nx, data, ds, ls, U, s))
  }

  /** The binary counter: counter[i] holds nothing or 2^i values, and nothing from
      counter[fill] on. */
  ghost predicate Counting(ls: seq<seq<int>>, fill: int)
  {
    && |ls| == 66 && 0 <= fill <= 64
    && (forall s :: 2 <= s < 66 ==> Sized(ls, s))
    && (forall s :: fill + 2 <= s < 66 ==> Vacant(ls, s))
  }

  /** counter[s - 2] holds nothing or 2^(s - 2) values. */
  ghost predicate Sized(ls: seq<seq<int>>, s: int)
  {
    2 <= s < |ls| && (ls[s] == [] || |ls[s]| == Sorting.Pow2(s - 2))
  }

  /** List s of the pool is empty. */
  ghost predicate Vacant(ls: seq<seq<int>>, s: int)
  {
    0 <= s < |ls| && ls[s] == []
  }

  /** Lists s and t of the pool are replaced by two lists on the same dummies and nodes,
      holding the same values between them, the new list s sorted and the new list t
      sorted unless it is the list being sorted: the pool stays a pool. */
  lemma PoolReplace(n1: map<int, int>, p1: map<int, int>, n2: map<int, int>, p2: map<int, int>,
                    data: map<int, int>, ds: seq<int>, ls: seq<seq<int>>, M: multiset<int>,
                    U: set<int>, n0: map<int, int>, p0: map<int, int>, s: int, t: int,
                    a: seq<int>, b: seq<int>)
    requires PoolV(n1, p1, data, ds, ls, M, U, n0, p0) && 1 <= s < 66 && 0 <= t < 66 && s != t
    requires List.IsList(n2, p2, ds[s], a) && List.IsList(n2, p2, ds[t], b)
    requires List.Holds(data, a) && List.Holds(data, b)
    requires List.NodeSet(ds[s], a) !! List.NodeSet(ds[t], b)
    requires List.NodeSet(ds[s], a) + List.NodeSet(ds[t], b)
          == List.NodeSet(ds[s], ls[s]) + List.NodeSet(ds[t], ls[t])
    requires List.Agree(n1, n2, List.NodeSet(ds[s], ls[s]) + List.NodeSet(ds[t], ls[t]))
    requires List.Agree(p1, p2, List.NodeSet(ds[s], ls[s]) + List.NodeSet(ds[t], ls[t]))
    requires multiset(List.Elements(data, a)) + multiset(List.Elements(data, b))
          == multiset(List.Elements(data, ls[s])) + multiset(List.Elements(data, ls[t]))
    requires Algo.Sorted(List.Elements(data, a)) && (1 <= t ==> Algo.Sorted(List.Elements(data, b)))
    ensures PoolV(n2, p2, data, ds, ls[s := a][t := b], M, U, n0, p0)
  {
    var S := List.NodeSet(ds[s], ls[s]) + List.NodeSet(ds[t], ls[t]);
    var ls2 := ls[s := a][t := b];
    ListsReplace(n1, p1, n2, p2, data, ds, ls, s, t, a, b);
    BagReplace(data, ls, s, t, a, b);
    assert Kept(n1, data, ds, ls, U, s) && Kept(n1, data, ds, ls, U, t);
    List.AgreeTrans(n0, n1, n2, U, S);
    List.AgreeTrans(p0, p1, p2, U, S);
    KeptReplace(n1, n2, p2, data, ds, ls, U, s, t, a, b, ls2);
  }

  /** list::swap between two lists of the pool other than the one being sorted. */
  lemma PoolSwap(nx: map<int, int>, pv: map<int, int>, data: map<int, int>, ds: seq<int>,
                 ls: seq<seq<int>>, M: multiset<int>, U: set<int>, n0: map<int, int>,
                 p0: map<int, int>, s: int, t: int)
    requires PoolV(nx, pv, data, ds, ls, M, U, n0, p0) && 1 <= s < 66 && 1 <= t < 66 && s != t
    ensures PoolV(nx, pv, data, ds[s := ds[t]][t := ds[s]], ls[s := ls[t]][t := ls[s]], M, U, n0, p0)
  {
    var ds2, ls2 := ds[s := ds[t]][t := ds[s]], ls[s := ls[t]][t := ls[s]];
    ListsSwap(nx, pv, data, ds, ls, s, t);
    BagReplace(data, ls, s, t, ls[t], ls[s]);
    KeptSwap(nx, data, ds, ls, U, s, t, ds2, ls2);
  }

  /** Replacing lists s and t of the pool by lists on the same nodes, sorted where they
      must be, keeps every list of the pool kept. */
  lemma KeptReplace(n1: map<int, int>, n2: map<int, int>, p2: map<int, int>, data: map<int, int>,
                    ds: seq<int>, ls: seq<seq<int>>, U: set<int>, s: int, t: int,
                    a: seq<int>, b: seq<int>, ls2: seq<seq<int>>)
    requires |ds| == 66 && |ls| == 66 && forall r :: 0 <= r < 66 ==> Kept(n1, data, ds, ls, U, r)
    requires 0 <= s < 66 && 0 <= t < 66 && s != t && ls2 == ls[s := a][t := b]
    requires Lists(n2, p2, data, ds, ls2)
    requires List.NodeSet(ds[s], a) + List.NodeSet(ds[t], b)
          == List.NodeSet(ds[s], ls[s]) + List.NodeSet(ds[t], ls[t])
    requires List.Holds(data, a) && List.Holds(data, b)
    requires 1 <= s ==> Algo.Sorted(List.Elements(data, a))
    requires 1 <= t ==> Algo.Sorted(List.Elements(data, b))
    ensures forall r :: 0 <= r < 66 ==> Kept(n2, data, ds, ls2, U, r)
  {
    assert Kept(n1, data, ds, ls, U, s) && Kept(n1, data, ds, ls, U, t);
    forall r | 0 <= r < 66 ensures Kept(n2, data, ds, ls2, U, r) {
      assert Listed(n2, p2, ds, ls2, r);
      List.SelfLoop(n2, p2, ds[r], ls2[r]);
      if r != s && r != t {
        assert Kept(n1, data, ds, ls, U, r) && ls2[r] == ls[r];
      }
    }
  }

  /** Exchanging two lists of the pool other than the one being sorted, dummies and all,
      keeps every list of the pool kept. */
  lemma KeptSwap(nx: map<int, int>, data: map<int, int>, ds: seq<int>, ls: seq<seq<int>>,
                 U: set<int>, s: int, t: int, ds2: seq<int>, ls2: seq<seq<int>>)
    requires |ds| == 66 && |ls| == 66 && forall r :: 0 <= r < 66 ==> Kept(nx, data, ds, ls, U, r)
    requires 1 <= s < 66 && 1 <= t < 66
    requires ds2 == ds[s := ds[t]][t := ds[s]] && ls2 == ls[s := ls[t]][t := ls[s]]
    ensures forall r :: 0 <= r < 66 ==> Kept(nx, data, ds2, ls2, U, r)
  {
    forall r | 0 <= r < 66 ensures Kept(nx, data, ds2, ls2, U, r) {
      var q := Swapped(r, s, t);
      assert Kept(nx, data, ds, ls, U, q) && ds2[r] == ds[q] && ls2[r] == ls[q];
    }
  }

  /** The values of the pool's list s are part of M, so there are no more of them. */
  lemma PoolHas(data: map<int, int>, ls: seq<seq<int>>, M: multiset<int>, s: int)
    requires |ls| == 66 && Holding(data, ls) && Bag(Vals(data, ls), 66) == M && 0 <= s < 66
    ensures |ls[s]| <= |M|
  {
    var ms := Vals(data, ls);
    BagHas(ms, s, 66);
    assert M == ms[s] + (M - ms[s]);
    assert |ms[s]| == |List.Elements(data, ls[s])|;
  }

  /** Moving the first value of a list to the front of an empty one keeps both sums. */
  lemma FirstMoves(data: map<int, int>, xs: seq<int>, a: seq<int>, b: seq<int>)
    requires List.Holds(data, xs) && xs != [] && a == [xs[0]] && b == xs[1..]
    ensures List.Holds(data, a) && List.Holds(data, b) && Algo.Sorted(List.Elements(data, a))
    ensures multiset(List.Elements(data, a)) + multiset(List.Elements(data, b))
         == multiset(List.Elements(data, xs)) + multiset(List.Elements(data, []))
  {
    var E := List.Elements(data, xs);
    assert List.Elements(data, a) == [E[0]];
    assert List.Elements(data, b) == E[1..];
    assert E == [E[0]] + E[1..];
    assert List.Elements(data, []) == [];
  }

  /** Merging list t into list s, as list::merge does, keeps both sums and leaves s sorted. */
  lemma MergeMoves(data: map<int, int>, xs: seq<int>, ys: seq<int>, a: seq<int>, b: seq<int>)
    requires List.Holds(data, xs) && List.Holds(data, ys) && List.Holds(data, a) && b == []
    requires Algo.Sorted(List.Elements(data, xs)) && Algo.Sorted(List.Elements(data, ys))
    requires List.Elements(data, a) == List.Merged(List.Elements(data, xs), List.Elements(data, ys))
    ensures Algo.Sorted(List.Elements(data, a)) && Algo.Sorted(List.Elements(data, b))
    ensures |a| == |xs| + |ys|
    ensures multiset(List.Elements(data, a)) + multiset(List.Elements(data, b))
         == multiset(List.Elements(data, xs)) + multiset(List.Elements(data, ys))
  {
    List.MergedPermutes(List.Elements(data, xs), List.Elements(data, ys));
    List.MergedSorted(List.Elements(data, xs), List.Elements(data, ys));
    assert List.Elements(data, b) == [];
  }

  /** list carry; list counter[64]; : 65 fresh empty lists beside the one being sorted. */
  method NewCounters(l: List.Nodes<int>, d: int, ghost xs: seq<int>)
    returns (carry: int, counter: array<int>, ghost ds: seq<int>, ghost ls: seq<seq<int>>,
             ghost U: set<int>)
    requires l.Valid() && l.ListOk(d, xs)
    modifies l
    ensures fresh(counter) && counter.Length == 64
    ensures l.Valid() && PoolV(l.nx, l.pv, l.data, ds, ls, multiset(List.Elements(old(l.data), xs)), U, old(l.nx), old(l.pv))
    ensures ds[0] == d && ds[1] == carry && forall k :: 0 <= k < 64 ==> counter[k] == ds[k + 2]
    ensures ls[0] == xs && forall s :: 1 <= s < 66 ==> ls[s] == []
    ensures forall a :: a in U ==> a in List.NodeSet(d, xs) || old(l.brk) <= a
    ensures l.data == old(l.data)
  {
    ghost var n0, p0, b0, D := l.nx, l.pv, l.brk, l.data;
    carry := l.Initialize();
    assert Listed(n0, p0, [d], [xs], 0);
    assert Lists(n0, p0, D, [d], [xs]);
    ListsAdd(n0, p0, l.nx, l.pv, D, [d], [xs], carry);
    ds, ls, U := [d] + [carry], [xs] + [[]], List.NodeSet(d, xs) + {carry};
    counter := new int[64];
    var t := 0;
    while t < 64
      invariant l.Valid() && l.data == D && b0 <= l.brk
      invariant Growing(l.nx, l.pv, l.data, counter[..], t, d, xs, ds, ls, U, n0, p0, b0)
      invariant ds[1] == carry
      modifies l, counter
    {
      ds, ls, U := AddCounter(l, counter, t, d, xs, ds, ls, U, n0, p0, b0);
      t := t + 1;
    }
    PoolStart(l.nx, l.pv, D, ds, ls, U, n0, p0);
  }

  /** The lists of sort() while counter[0 .. t - 1] are being created. */
  ghost predicate Growing(nx: map<int, int>, pv: map<int, int>, data: map<int, int>, cs: seq<int>,
                          t: int, d: int, xs: seq<int>, ds: seq<int>, ls: seq<seq<int>>,
                          U: set<int>, n0: map<int, int>, p0: map<int, int>, b0: int)
  {
    && |cs| == 64 && 0 <= t <= 64 && |ds| == t + 2 && |ls| == t + 2 && ds[0] == d
    && (forall k :: 0 <= k < t ==> cs[k] == ds[k + 2])
    && ls[0] == xs && (forall s :: 1 <= s < t + 2 ==> ls[s] == [])
    && Lists(nx, pv, data, ds, ls) && Within(ds, ls, U)
    && (forall a :: a in U ==> a in List.NodeSet(d, xs) || b0 <= a)
    && List.Agree(n0, nx, U) && List.Agree(p0, pv, U)
  }

  /** counter[t] comes into being as a fresh empty list. */
  method AddCounter(l: List.Nodes<int>, counter: array<int>, t: int, d: int, ghost xs: seq<int>,
                    ghost ds: seq<int>, ghost ls: seq<seq<int>>, ghost U: set<int>,
                    ghost n0: map<int, int>, ghost p0: map<int, int>, ghost b0: int)
    returns (ghost ds2: seq<int>, ghost ls2: seq<seq<int>>, ghost U2: set<int>)
    requires l.Valid() && b0 <= l.brk && t < 64
    requires Growing(l.nx, l.pv, l.data, counter[..], t, d, xs, ds, ls, U, n0, p0, b0)
    modifies l, counter
    ensures l.Valid() && l.data == old(l.data) && b0 <= l.brk
    ensures Growing(l.nx, l.pv, l.data, counter[..], t + 1, d, xs, ds2, ls2, U2, n0, p0, b0)
    ensures ds2[1] == ds[1]
  {
    ghost var n1, p1 := l.nx, l.pv;
    var e := l.Initialize();
    ListsAdd(n1, p1, l.nx, l.pv, l.data, ds, ls, e);
    counter[t] := e;
    ds2, ls2, U2 := ds + [e], ls + [[]], U + {e};
    forall s | 0 <= s < |ds2| ensures Inside(ds2, ls2, U2, s) {
      if s < |ds| {
        assert Inside(ds, ls, U, s);
      }
    }
    List.AgreeTrans(n0, n1, l.nx, U2, {});
    List.AgreeTrans(p0, p1, l.pv, U2, {});
  }

  /** Once created, the 66 lists form a pool holding the values of the list being sorted. */
  lemma PoolStart(nx: map<int, int>, pv: map<int, int>, data: map<int, int>, ds: seq<int>,
                  ls: seq<seq<int>>, U: set<int>, n0: map<int, int>, p0: map<int, int>)
    requires |ds| == 66 && Lists(nx, pv, data, ds, ls) && Within(ds, ls, U)
    requires forall s :: 1 <= s < 66 ==> ls[s] == []
    requires List.Agree(n0, nx, U) && List.Agree(p0, pv, U)
    ensures PoolV(nx, pv, data, ds, ls, multiset(List.Elements(data, ls[0])), U, n0, p0)
  {
    var ms := Vals(data, ls);
    BagOnly(ms, 0, 66);
    forall s | 0 <= s < 66 ensures Kept(nx, data, ds, ls, U, s) {
      assert Listed(nx, pv, ds, ls, s) && Inside(ds, ls, U, s);
      List.SelfLoop(nx, pv, ds[s], ls[s]);
      if 1 <= s {
        ShortSorted(List.Elements(data, ls[s]));
      }
    }
  }

  /** carry.splice(carry.begin(), *this, begin()): the first node of the list moves into
      the empty carry. */
  method SpliceFirst(l: List.Nodes<int>, d: int, carry: int, ghost ds: seq<int>,
                     ghost ls: seq<seq<int>>, ghost M: multiset<int>, ghost U: set<int>,
                     ghost n0: map<int, int>, ghost p0: map<int, int>)
    returns (ghost ls2: seq<seq<int>>)
    requires l.Valid() && PoolV(l.nx, l.pv, l.data, ds, ls, M, U, n0, p0)
    requires ds[0] == d && ds[1] == carry && ls[1] == [] && ls[0] != []
    modifies l`nx, l`pv
    ensures l.Valid() && PoolV(l.nx, l.pv, l.data, ds, ls2, M, U, n0, p0)
    ensures ls2 == ls[1 := [ls[0][0]]][0 := ls[0][1..]]
  {
    ghost var n1, p1 := l.nx, l.pv;
    assert Listed(l.nx, l.pv, ds, ls, 0) && Listed(l.nx, l.pv, ds, ls, 1) && Apart(ds, ls, 1, 0);
    List.RingKeys(l.nx, l.pv, d, ls[0], |ls[0]|);
    List.RingKeys(l.nx, l.pv, carry, [], 0);
    var it := l.nx[d];
    ghost var a, b := l.SpliceOne(carry, [], l.nx[carry], 0, d, ls[0], it, 0);
    assert a == [ls[0][0]] && b == ls[0][1..];
    FirstMoves(l.data, ls[0], a, b);
    PoolReplace(n1, p1, l.nx, l.pv, l.data, ds, ls, M, U, n0, p0, 1, 0, a, b);
    ls2 := ls[1 := a][0 := b];
  }

  /** counter[i].merge(x) for a later list x of the pool (carry, or counter[i - 1]). */
  method MergeInto(l: List.Nodes<int>, counter: array<int>, i: int, x: int, t: int,
                   ghost ds: seq<int>, ghost ls: seq<seq<int>>, ghost M: multiset<int>,
                   ghost U: set<int>, ghost n0: map<int, int>, ghost p0: map<int, int>)
    returns (ghost ls2: seq<seq<int>>)
    requires l.Valid() && PoolV(l.nx, l.pv, l.data, ds, ls, M, U, n0, p0) && counter.Length == 64
    requires forall k :: 0 <= k < 64 ==> counter[k] == ds[k + 2]
    requires 0 <= i < 64 && 1 <= t < 66 && t != i + 2 && x == ds[t]
    modifies l`nx, l`pv
    ensures l.Valid() && PoolV(l.nx, l.pv, l.data, ds, ls2, M, U, n0, p0)
    ensures |ls2| == 66 && |ls2[i + 2]| == |ls[i + 2]| + |ls[t]| && ls2[t] == []
    ensures forall s :: 0 <= s < 66 && s != i + 2 && s != t ==> ls2[s] == ls[s]
  {
    ghost var n1, p1 := l.nx, l.pv;
    assert Listed(l.nx, l.pv, ds, ls, i + 2) && Listed(l.nx, l.pv, ds, ls, t) && Apart(ds, ls, i + 2, t);
    assert Kept(l.nx, l.data, ds, ls, U, i + 2) && Kept(l.nx, l.data, ds, ls, U, t);
    ghost var a, b := List.Merge(l, counter[i], ls[i + 2], x, ls[t]);
    MergeMoves(l.data, ls[i + 2], ls[t], a, b);
    PoolReplace(n1, p1, l.nx, l.pv, l.data, ds, ls, M, U, n0, p0, i + 2, t, a, b);
    ls2 := ls[i + 2 := a][t := b];
    Untouched(ls, i + 2, t, a, b);
  }

  /** Updating two positions of a sequence leaves the others alone. */
  lemma Untouched(ls: seq<seq<int>>, s: int, t: int, a: seq<int>, b: seq<int>)
    requires 0 <= s < |ls| && 0 <= t < |ls|
    ensures forall r :: 0 <= r < |ls| && r != s && r != t ==> ls[s := a][t := b][r] == ls[r]
  {
  }

  /** carry.swap(counter[i]). */
  method SwapCarry(l: List.Nodes<int>, counter: array<int>, carry: int, i: int, ghost ds: seq<int>,
                   ghost ls: seq<seq<int>>, ghost M: multiset<int>, ghost U: set<int>,
                   ghost n0: map<int, int>, ghost p0: map<int, int>)
    returns (carry2: int, ghost ds2: seq<int>, ghost ls2: seq<seq<int>>)
    requires l.Valid() && PoolV(l.nx, l.pv, l.data, ds, ls, M, U, n0, p0) && counter.Length == 64
    requires ds[1] == carry && forall k :: 0 <= k < 64 ==> counter[k] == ds[k + 2]
    requires 0 <= i < 64
    modifies counter
    ensures l.Valid() && PoolV(l.nx, l.pv, l.data, ds2, ls2, M, U, n0, p0)
    ensures ds2[1] == carry2 && forall k :: 0 <= k < 64 ==> counter[k] == ds2[k + 2]
    ensures ds2 == ds[1 := ds[i + 2]][i + 2 := ds[1]] && ls2 == ls[1 := ls[i + 2]][i + 2 := ls[1]]
  {
    carry2 := counter[i];
    counter[i] := carry;
    PoolSwap(l.nx, l.pv, l.data, ds, ls, M, U, n0, p0, 1, i + 2);
    ds2, ls2 := ds[1 := ds[i + 2]][i + 2 := ds[1]], ls[1 := ls[i + 2]][i + 2 := ls[1]];
  }

  /** sort(): the list ends up holding its values in ascending order, and the store of
      nodes changes only on the list's own nodes and on the 65 lists sort() creates. The
      result is under a new dummy, since the last step swaps the list with
      counter[fill - 1]. A list of 2^64 values or more would run past the end of counter. */
  method Sort(l: List.Nodes<int>, d: int, ghost xs: seq<int>) returns (d2: int, ghost ys: seq<int>)
    requires l.Valid() && l.ListOk(d, xs) && |xs| < Slots
    modifies l
    ensures l.Valid() && l.ListOk(d2, ys) && l.data == old(l.data)
    ensures Algo.Sorted(List.Elements(l.data, ys))
    ensures multiset(List.Elements(l.data, ys)) == multiset(List.Elements(old(l.data), xs))
    ensures List.Agree(old(l.nx), l.nx, List.NodeSet(d, xs))
    ensures List.Agree(old(l.pv), l.pv, List.NodeSet(d, xs))
  {
    List.RingKeys(l.nx, l.pv, d, xs, |xs|);
    List.RingKeys(l.nx, l.pv, d, xs, 0);
    // empty or size = 1
    if l.nx[d] == d || l.nx[l.nx[d]] == d {
      ShortSorted(List.Elements(l.data, xs));
      return d, xs;
    }
    d2, ys := SortLong(l, d, xs);
  }

  /** The rest of sort(), for a list that is not empty. */
  method SortLong(l: List.Nodes<int>, d: int, ghost xs: seq<int>) returns (d2: int, ghost ys: seq<int>)
    requires l.Valid() && l.ListOk(d, xs) && |xs| < Slots && xs != []
    modifies l
    ensures l.Valid() && l.ListOk(d2, ys) && l.data == old(l.data)
    ensures Algo.Sorted(List.Elements(l.data, ys))
    ensures multiset(List.Elements(l.data, ys)) == multiset(List.Elements(old(l.data), xs))
    ensures List.Agree(old(l.nx), l.nx, List.NodeSet(d, xs))
    ensures List.Agree(old(l.pv), l.pv, List.NodeSet(d, xs))
  {
    ghost var n0, p0, b0 := l.nx, l.pv, l.brk;
    ghost var M := multiset(List.Elements(l.data, xs));
    var carry, counter, ds, ls, U := NewCounters(l, d, xs);
    var fill;
    carry, fill, ds, ls := Distribute(l, counter, d, carry, xs, ds, ls, M, U, n0, p0);
    d2, ys := Gather(l, counter, d, carry, fill, xs, ds, ls, M, U, n0, p0);
    AgreeNarrow(n0, l.nx, U, List.NodeSet(d, xs), b0);
    AgreeNarrow(p0, l.pv, U, List.NodeSet(d, xs), b0);
  }

  /** Before the first round: nothing has moved yet and every counter is empty. */
  lemma RoundsStart(nx: map<int, int>, pv: map<int, int>, data: map<int, int>, cs: seq<int>,
                    carry: int, d: int, xs: seq<int>, ds: seq<int>, ls: seq<seq<int>>,
                    M: multiset<int>, U: set<int>, n0: map<int, int>, p0: map<int, int>)
    requires PoolV(nx, pv, data, ds, ls, M, U, n0, p0) && |cs| == 64
    requires ds[0] == d && ds[1] == carry && forall k :: 0 <= k < 64 ==> cs[k] == ds[k + 2]
    requires ls[0] == xs && forall s :: 1 <= s < 66 ==> ls[s] == []
    ensures Rounds(nx, pv, data, cs, carry, 0, d, xs, ds, ls, M, U, n0, p0)
  {
  }

  /** while (!empty()) { ... }: the rounds of sort() until the list is empty. */
  method Distribute(l: List.Nodes<int>, counter: array<int>, d: int, carry: int, ghost xs: seq<int>,
                    ghost ds: seq<int>, ghost ls: seq<seq<int>>, ghost M: multiset<int>,
                    ghost U: set<int>, ghost n0: map<int, int>, ghost p0: map<int, int>)
    returns (carry2: int, fill: int, ghost ds2: seq<int>, ghost ls2: seq<seq<int>>)
    requires l.Valid() && PoolV(l.nx, l.pv, l.data, ds, ls, M, U, n0, p0) && counter.Length == 64
    requires ds[0] == d && ds[1] == carry && forall k :: 0 <= k < 64 ==> counter[k] == ds[k + 2]
    requires ls[0] == xs && forall s :: 1 <= s < 66 ==> ls[s] == []
    requires xs != [] && |M| < Slots
    modifies l`nx, l`pv, counter
    ensures l.Valid() && Rounds(l.nx, l.pv, l.data, counter[..], carry2, fill, d, xs, ds2, ls2, M, U, n0, p0)
    ensures ls2[0] == [] && 1 <= fill
  {
    RoundsStart(l.nx, l.pv, l.data, counter[..], carry, d, xs, ds, ls, M, U, n0, p0);
    carry2, fill, ds2, ls2 := carry, 0, ds, ls;
    assert Listed(l.nx, l.pv, ds2, ls2, 0);
    var e := l.Empty(d, ls2[0]);
    while !e
      invariant l.Valid() && Rounds(l.nx, l.pv, l.data, counter[..], carry2, fill, d, xs, ds2, ls2, M, U, n0, p0)
      invariant e <==> ls2[0] == []
      modifies l`nx, l`pv, counter
      decreases |ls2[0]|
    {
      carry2, fill, ds2, ls2 := SortStep(l, counter, d, carry2, fill, xs, ds2, ls2, M, U, n0, p0);
      assert Listed(l.nx, l.pv, ds2, ls2, 0);
      e := l.Empty(d, ls2[0]);
    }
  }

  /** The end of sort(): the counters are merged into one, which the list takes over. */
  method Gather(l: List.Nodes<int>, counter: array<int>, d: int, carry: int, fill: int,
                ghost xs: seq<int>, ghost ds: seq<int>, ghost ls: seq<seq<int>>,
                ghost M: multiset<int>, ghost U: set<int>, ghost n0: map<int, int>,
                ghost p0: map<int, int>)
    returns (d2: int, ghost ys: seq<int>)
    requires l.Valid() && Rounds(l.nx, l.pv, l.data, counter[..], carry, fill, d, xs, ds, ls, M, U, n0, p0)
    requires ls[0] == [] && 1 <= fill
    modifies l`nx, l`pv, counter
    ensures l.Valid() && l.ListOk(d2, ys) && Algo.Sorted(List.Elements(l.data, ys))
    ensures multiset(List.Elements(l.data, ys)) == M
    ensures List.Agree(n0, l.nx, U) && List.Agree(p0, l.pv, U)
  {
    CollapseReady(ls, fill);
    ghost var ls2 := Collapse(l, counter, fill, ds, ls, M, U, n0, p0);
    d2, ys := Finish(l, counter, d, fill, ds, ls2, M, U, n0, p0);
  }

  /** After the rounds only the counters below fill can hold values. */
  lemma CollapseReady(ls: seq<seq<int>>, fill: int)
    requires Counting(ls, fill) && ls[0] == [] && ls[1] == []
    ensures forall s :: 0 <= s < 66 && !(2 <= s < fill + 2) ==> ls[s] == []
  {
    forall s | fill + 2 <= s < 66 ensures ls[s] == [] {
      assert Vacant(ls, s);
    }
  }

  /** swap(counter[fill - 1]): the list takes over the one counter holding values. */
  method Finish(l: List.Nodes<int>, counter: array<int>, d: int, fill: int, ghost ds: seq<int>,
                ghost ls: seq<seq<int>>, ghost M: multiset<int>, ghost U: set<int>,
                ghost n0: map<int, int>, ghost p0: map<int, int>)
    returns (d2: int, ghost ys: seq<int>)
    requires l.Valid() && PoolV(l.nx, l.pv, l.data, ds, ls, M, U, n0, p0) && counter.Length == 64
    requires forall k :: 0 <= k < 64 ==> counter[k] == ds[k + 2]
    requires 1 <= fill <= 64 && forall s :: 0 <= s < 66 && s != fill + 1 ==> ls[s] == []
    modifies counter
    ensures l.Valid() && l.ListOk(d2, ys) && Algo.Sorted(List.Elements(l.data, ys))
    ensures multiset(List.Elements(l.data, ys)) == M
    ensures List.Agree(n0, l.nx, U) && List.Agree(p0, l.pv, U)
  {
    PoolOnly(l.nx, l.pv, l.data, ds, ls, M, U, n0, p0, fill + 1);
    d2 := counter[fill - 1];
    counter[fill - 1] := d;
    ys := ls[fill + 1];
  }

  /** When every other list of the pool is empty, list s holds all its values, sorted. */
  lemma PoolOnly(nx: map<int, int>, pv: map<int, int>, data: map<int, int>, ds: seq<int>,
                 ls: seq<seq<int>>, M: multiset<int>, U: set<int>, n0: map<int, int>,
                 p0: map<int, int>, s: int)
    requires PoolV(nx, pv, data, ds, ls, M, U, n0, p0) && 1 <= s < 66
    requires forall r :: 0 <= r < 66 && r != s ==> ls[r] == []
    ensures List.IsList(nx, pv, ds[s], ls[s]) && List.Holds(data, ls[s])
    ensures Algo.Sorted(List.Elements(data, ls[s])) && multiset(List.Elements(data, ls[s])) == M
  {
    var ms := Vals(data, ls);
    forall r | 0 <= r < 66 && r != s ensures ms[r] == multiset{} {
      assert ls[r] == [];
    }
    BagOnly(ms, s, 66);
    assert Listed(nx, pv, ds, ls, s) && Kept(nx, data, ds, ls, U, s);
  }

  /** The state between rounds of the outer loop of sort(). */
  ghost predicate Rounds(nx: map<int, int>, pv: map<int, int>, data: map<int, int>, cs: seq<int>,
                         carry: int, fill: int, d: int, xs: seq<int>, ds: seq<int>,
                         ls: seq<seq<int>>, M: multiset<int>, U: set<int>, n0: map<int, int>,
                         p0: map<int, int>)
  {
    && PoolV(nx, pv, data, ds, ls, M, U, n0, p0) && Counting(ls, fill) && |cs| == 64
    && ds[0] == d && ds[1] == carry && ls[1] == []
    && (forall k :: 0 <= k < 64 ==> cs[k] == ds[k + 2])
    && (fill == 0 ==> ls[0] == xs)
  }

  /** One round of the outer loop of sort(): the first value moves into carry, carry is
      merged up through the full counters, and lands in the first empty one. */
  method SortStep(l: List.Nodes<int>, counter: array<int>, d: int, carry: int, fill: int,
                  ghost xs: seq<int>, ghost ds: seq<int>, ghost ls: seq<seq<int>>,
                  ghost M: multiset<int>, ghost U: set<int>, ghost n0: map<int, int>,
                  ghost p0: map<int, int>)
    returns (carry2: int, fill2: int, ghost ds2: seq<int>, ghost ls2: seq<seq<int>>)
    requires l.Valid() && Rounds(l.nx, l.pv, l.data, counter[..], carry, fill, d, xs, ds, ls, M, U, n0, p0)
    requires ls[0] != [] && |M| < Slots
    modifies l`nx, l`pv, counter
    ensures l.Valid() && Rounds(l.nx, l.pv, l.data, counter[..], carry2, fill2, d, xs, ds2, ls2, M, U, n0, p0)
    ensures 1 <= fill2 && ls2[0] == ls[0][1..]
  {
    ghost var m := Start(l, counter, d, carry, fill, xs, ds, ls, M, U, n0, p0);
    var i;
    carry2, i, ds2, ls2 := Climb(l, counter, carry, fill, d, ls[0][1..], ds, m, M, U, n0, p0);
    carry2, fill2, ds2, ls2 := Land(l, counter, carry2, i, fill, d, ls[0][1..], xs, ds2, ls2, M, U, n0, p0);
  }

  /** carry.splice(carry.begin(), *this, begin()); int i = 0; */
  method Start(l: List.Nodes<int>, counter: array<int>, d: int, carry: int, fill: int,
               ghost xs: seq<int>, ghost ds: seq<int>, ghost ls: seq<seq<int>>,
               ghost M: multiset<int>, ghost U: set<int>, ghost n0: map<int, int>,
               ghost p0: map<int, int>)
    returns (ghost ls2: seq<seq<int>>)
    requires l.Valid() && Rounds(l.nx, l.pv, l.data, counter[..], carry, fill, d, xs, ds, ls, M, U, n0, p0) && ls[0] != []
    modifies l`nx, l`pv
    ensures l.Valid() && Climbs(l.nx, l.pv, l.data, counter[..], carry, 0, fill, d, ls[0][1..], ds, ls2, M, U, n0, p0)
  {
    ls2 := SpliceFirst(l, d, carry, ds, ls, M, U, n0, p0);
    StartShape(ls, ls2, fill);
  }

  /** After the splice carry holds one value, so carry climbs from counter[0]. */
  lemma StartShape(ls: seq<seq<int>>, m: seq<seq<int>>, fill: int)
    requires Counting(ls, fill) && ls[1] == [] && ls[0] != []
    requires m == ls[1 := [ls[0][0]]][0 := ls[0][1..]]
    ensures Climbing(m, 0, fill) && m[0] == ls[0][1..]
  {
    forall s | 2 <= s < 66 ensures Sized(m, s) {
      assert Sized(ls, s) && m[s] == ls[s];
    }
    forall s | fill + 2 <= s < 66 ensures Vacant(m, s) {
      assert Vacant(ls, s) && m[s] == ls[s];
    }
  }

  /** carry.swap(counter[i]); if (i == fill) ++fill; . Since carry holds no more values
      than the list had, i stays below 64. */
  method Land(l: List.Nodes<int>, counter: array<int>, carry: int, i: int, fill: int, d: int,
              ghost rest: seq<int>, ghost xs: seq<int>, ghost ds: seq<int>, ghost ls: seq<seq<int>>,
              ghost M: multiset<int>, ghost U: set<int>, ghost n0: map<int, int>,
              ghost p0: map<int, int>)
    returns (carry2: int, fill2: int, ghost ds2: seq<int>, ghost ls2: seq<seq<int>>)
    requires l.Valid() && Climbs(l.nx, l.pv, l.data, counter[..], carry, i, fill, d, rest, ds, ls, M, U, n0, p0)
    requires (i == fill || ls[i + 2] == []) && |M| < Slots
    modifies counter
    ensures l.Valid() && Rounds(l.nx, l.pv, l.data, counter[..], carry2, fill2, d, xs, ds2, ls2, M, U, n0, p0)
    ensures 1 <= fill2 && ls2[0] == rest
  {
    PoolHas(l.data, ls, M, 1);
    if i == fill {
      Pow2Below(i);
    }
    carry2, ds2, ls2 := SwapCarry(l, counter, carry, i, ds, ls, M, U, n0, p0);
    fill2 := if i == fill then fill + 1 else fill;
    Landing(ls, ls2, i, fill, fill2);
  }

  /** While carry climbs: it holds 2^i sorted values, counter[0 .. i - 1] are empty, and
      the counters still have the binary-counter shape of Counting. */
  ghost predicate Climbing(ls: seq<seq<int>>, i: int, fill: int)
  {
    && |ls| == 66 && 0 <= i <= fill <= 64 && |ls[1]| == Sorting.Pow2(i)
    && (forall s :: 2 <= s < 66 ==> Sized(ls, s))
    && (forall s :: fill + 2 <= s < 66 ==> Vacant(ls, s))
    && (forall s :: 2 <= s < i + 2 ==> Vacant(ls, s))
  }

  /** Merging carry into a full counter[i] and taking the result back as carry: carry
      doubles and counter[i] is empty. */
  lemma ClimbStep(ls: seq<seq<int>>, m: seq<seq<int>>, i: int, fill: int)
    requires Climbing(ls, i, fill) && i < fill && ls[i + 2] != []
    requires |m| == 66 && |m[i + 2]| == |ls[i + 2]| + |ls[1]| && m[1] == []
    requires forall s :: 0 <= s < 66 && s != 1 && s != i + 2 ==> m[s] == ls[s]
    ensures Climbing(m[1 := m[i + 2]][i + 2 := m[1]], i + 1, fill)
  {
    var ls2 := m[1 := m[i + 2]][i + 2 := m[1]];
    assert Sized(ls, i + 2);
    forall s | 2 <= s < 66 ensures Sized(ls2, s) {
      if s != i + 2 {
        assert Sized(ls, s) && ls2[s] == ls[s];
      }
    }
    forall s | fill + 2 <= s < 66 ensures Vacant(ls2, s) {
      assert Vacant(ls, s) && ls2[s] == ls[s];
    }
    forall s | 2 <= s < i + 3 ensures Vacant(ls2, s) {
      if s != i + 2 {
        assert Vacant(ls, s) && ls2[s] == ls[s];
      }
    }
  }

  /** carry.swap(counter[i]); if (i == fill) ++fill; : carry lands in the empty counter[i]
      and the counters keep their shape, with one more in use when i was fill. */
  lemma Landing(ls: seq<seq<int>>, ls2: seq<seq<int>>, i: int, fill: int, fill2: int)
    requires Climbing(ls, i, fill) && i < 64 && (i == fill || ls[i + 2] == [])
    requires ls2 == ls[1 := ls[i + 2]][i + 2 := ls[1]] && fill2 == if i == fill then fill + 1 else fill
    ensures Counting(ls2, fill2) && ls2[1] == [] && 1 <= fill2
  {
    if i == fill {
      assert Vacant(ls, i + 2);
    }
    forall s | 2 <= s < 66 ensures Sized(ls2, s) {
      if s != i + 2 {
        assert Sized(ls, s) && ls2[s] == ls[s];
      }
    }
    forall s | fill2 + 2 <= s < 66 ensures Vacant(ls2, s) {
      assert Vacant(ls, s) && ls2[s] == ls[s];
    }
  }

  /** The state of the inner loop of sort(), carry climbing past counter[0 .. i - 1]. */
  ghost predicate Climbs(nx: map<int, int>, pv: map<int, int>, data: map<int, int>, cs: seq<int>,
                         carry: int, i: int, fill: int, d: int, rest: seq<int>, ds: seq<int>,
                         ls: seq<seq<int>>, M: multiset<int>, U: set<int>, n0: map<int, int>,
                         p0: map<int, int>)
  {
    && PoolV(nx, pv, data, ds, ls, M, U, n0, p0) && Climbing(ls, i, fill) && |cs| == 64
    && ds[0] == d && ds[1] == carry && ls[0] == rest
    && (forall k :: 0 <= k < 64 ==> cs[k] == ds[k + 2])
  }

  /** while (i < fill && !counter[i].empty()) ... */
  method Climb(l: List.Nodes<int>, counter: array<int>, carry: int, fill: int, d: int,
               ghost rest: seq<int>, ghost ds: seq<int>, ghost ls: seq<seq<int>>, ghost M: multiset<int>,
               ghost U: set<int>, ghost n0: map<int, int>, ghost p0: map<int, int>)
    returns (carry2: int, i: int, ghost ds2: seq<int>, ghost ls2: seq<seq<int>>)
    requires l.Valid() && Climbs(l.nx, l.pv, l.data, counter[..], carry, 0, fill, d, rest, ds, ls, M, U, n0, p0)
    modifies l`nx, l`pv, counter
    ensures l.Valid() && Climbs(l.nx, l.pv, l.data, counter[..], carry2, i, fill, d, rest, ds2, ls2, M, U, n0, p0)
    ensures i == fill || ls2[i + 2] == []
  {
    carry2, i, ds2, ls2 := carry, 0, ds, ls;
    while Full(l, counter, i, fill, ds2, ls2)
      invariant l.Valid() && Climbs(l.nx, l.pv, l.data, counter[..], carry2, i, fill, d, rest, ds2, ls2, M, U, n0, p0)
      modifies l`nx, l`pv, counter
      decreases fill - i
    {
      carry2, i, ds2, ls2 := ClimbOne(l, counter, carry2, i, fill, d, rest, ds2, ls2, M, U, n0, p0);
    }
  }

  /** i < fill && !counter[i].empty() */
  function Full(l: List.Nodes<int>, counter: array<int>, i: int, fill: int, ghost ds: seq<int>,
                ghost ls: seq<seq<int>>): (r: bool)
    reads l, counter
    requires 0 <= i && fill <= 64 && counter.Length == 64 && |ds| == 66
    requires i < fill ==> counter[i] == ds[i + 2] && Listed(l.nx, l.pv, ds, ls, i + 2)
    ensures r <==> i < fill && ls[i + 2] != []
  {
    i < fill && !l.Empty(counter[i], ls[i + 2])
  }

  /** counter[i].merge(carry); carry.swap(counter[i]); */
  method ClimbOne(l: List.Nodes<int>, counter: array<int>, carry: int, i: int, fill: int, d: int,
                  ghost rest: seq<int>, ghost ds: seq<int>, ghost ls: seq<seq<int>>,
                  ghost M: multiset<int>, ghost U: set<int>, ghost n0: map<int, int>,
                  ghost p0: map<int, int>)
    returns (carry2: int, i2: int, ghost ds2: seq<int>, ghost ls2: seq<seq<int>>)
    requires l.Valid() && Climbs(l.nx, l.pv, l.data, counter[..], carry, i, fill, d, rest, ds, ls, M, U, n0, p0)
    requires i < fill && ls[i + 2] != []
    modifies l`nx, l`pv, counter
    ensures l.Valid() && Climbs(l.nx, l.pv, l.data, counter[..], carry2, i2, fill, d, rest, ds2, ls2, M, U, n0, p0)
    ensures i2 == i + 1
  {
    ghost var m := MergeInto(l, counter, i, carry, 1, ds, ls, M, U, n0, p0);
    ClimbStep(ls, m, i, fill);
    carry2, ds2, ls2 := SwapCarry(l, counter, carry, i, ds, m, M, U, n0, p0);
    i2 := i + 1;
    ClimbsIntro(l.nx, l.pv, l.data, counter[..], carry2, i2, fill, d, rest, ds2, ls2, M, U, n0, p0);
  }

  lemma ClimbsIntro(nx: map<int, int>, pv: map<int, int>, data: map<int, int>, cs: seq<int>,
                    carry: int, i: int, fill: int, d: int, rest: seq<int>, ds: seq<int>,
                    ls: seq<seq<int>>, M: multiset<int>, U: set<int>, n0: map<int, int>,
                    p0: map<int, int>)
    requires PoolV(nx, pv, data, ds, ls, M, U, n0, p0) && Climbing(ls, i, fill) && |cs| == 64
    requires ds[0] == d && ds[1] == carry && ls[0] == rest
    requires forall k :: 0 <= k < 64 ==> cs[k] == ds[k + 2]
    ensures Climbs(nx, pv, data, cs, carry, i, fill, d, rest, ds, ls, M, U, n0, p0)
  {
  }

  /** for (int i = 1; i < fill; ++i) counter[i].merge(counter[i - 1]); : afterwards only
      counter[fill - 1] holds values. */
  method Collapse(l: List.Nodes<int>, counter: array<int>, fill: int, ghost ds: seq<int>,
                  ghost ls: seq<seq<int>>, ghost M: multiset<int>, ghost U: set<int>,
                  ghost n0: map<int, int>, ghost p0: map<int, int>)
    returns (ghost ls2: seq<seq<int>>)
    requires l.Valid() && PoolV(l.nx, l.pv, l.data, ds, ls, M, U, n0, p0) && counter.Length == 64 && 1 <= fill <= 64
    requires forall k :: 0 <= k < 64 ==> counter[k] == ds[k + 2]
    requires forall s :: 0 <= s < 66 && !(2 <= s < fill + 2) ==> ls[s] == []
    modifies l`nx, l`pv
    ensures l.Valid() && PoolV(l.nx, l.pv, l.data, ds, ls2, M, U, n0, p0)
    ensures forall s :: 0 <= s < 66 && s != fill + 1 ==> ls2[s] == []
  {
    ls2 := ls;
    var i := 1;
    while i < fill
      invariant l.Valid() && PoolV(l.nx, l.pv, l.data, ds, ls2, M, U, n0, p0) && 1 <= i <= fill
      invariant forall s :: 0 <= s < 66 && !(i + 1 <= s < fill + 2) ==> ls2[s] == []
      modifies l`nx, l`pv
      decreases fill - i
    {
      ls2 := MergeInto(l, counter, i, counter[i - 1], i + 1, ds, ls2, M, U, n0, p0);
      i := i + 1;
    }
  }

  /** 2^i fits below 2^64 only for i below 64. */
  lemma Pow2Below(i: nat)
    requires Sorting.Pow2(i) < Slots
    ensures i < 64
  {
    if i >= 64 {
      var k := 64;
      Pow2Grows(k, i);
      Pow2Slots(k);
    }
  }

  /** 2^64 is Slots, squaring 2^8 three times. */
  lemma Pow2Slots(k: nat)
    requires k == 64
    ensures Sorting.Pow2(k) == Slots
  {
    var q := k / 8;
    assert Sorting.Pow2(q) == 0x100 by {
      assert Sorting.Pow2(8) == 0x100;
    }
    Pow2Add(q, q);
    var r := q + q;
    assert Sorting.Pow2(r) == 0x1_0000;
    Pow2Add(r, r);
    var t := r + r;
    assert Sorting.Pow2(t) == 0x1_0000_0000;
    Pow2Add(t, t);
    assert t + t == k;
  }

  lemma {:induction false} Pow2Add(a: nat, b: nat)
    ensures Sorting.Pow2(a + b) == Sorting.Pow2(a) * Sorting.Pow2(b)
    decreases b
  {
    if b > 0 {
      Pow2Add(a, b - 1);
      calc {
        Sorting.Pow2(a + b);
        2 * Sorting.Pow2(a + b - 1);
        2 * (Sorting.Pow2(a) * Sorting.Pow2(b - 1));
        Sorting.Pow2(a) * (2 * Sorting.Pow2(b - 1));
        Sorting.Pow2(a) * Sorting.Pow2(b);
      }
    }
  }

  lemma {:induction false} Pow2Grows(i: nat, j: nat)
    requires i <= j
    ensures Sorting.Pow2(i) <= Sorting.Pow2(j)
    decreases j
  {
    if i < j {
      Pow2Grows(i, j - 1);
    }
  }

  /** A list of at most one value is sorted. */
  lemma ShortSorted(s: seq<int>)
    requires |s| <= 1
    ensures Algo.Sorted(s)
  {
  }
}
